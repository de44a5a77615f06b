/** Encodings with the properties that replay asks of JSON exist for every type whose
    values can be told apart by a text. */
module TextCodec {
  import opened Wrappers
  import opened WalRecovery

  function Escaped(s: string): string {
    if s == [] then []
    else
      (match s[0]
       case '{' => "\\o"
       case '}' => "\\c"
       case '\n' => "\\n"
       case '\\' => "\\\\"
       case other => [other]) + Escaped(s[1..])
  }

  lemma {:induction false} EscapedIsPlain(s: string)
    ensures '{' !in Escaped(s) && '}' !in Escaped(s) && NEWLINE !in Escaped(s)
  {
    if s != [] {
      EscapedIsPlain(s[1..]);
    }
  }

  lemma {:induction false} EscapedIsInjective(s: string, t: string)
    requires Escaped(s) == Escaped(t)
    ensures s == t
  {
    if s != [] && t != [] {
      var a, b := Escaped(s), Escaped(t);
      assert a[0] == b[0];
      if a[0] == '\\' {
        assert a[1] == b[1];
        assert a[2..] == Escaped(s[1..]) && b[2..] == Escaped(t[1..]);
      } else {
        assert a[1..] == Escaped(s[1..]) && b[1..] == Escaped(t[1..]);
      }
      EscapedIsInjective(s[1..], t[1..]);
      assert s == [s[0]] + s[1..] && t == [t[0]] + t[1..];
    }
  }

  function Braced(s: string): string {
    "{" + Escaped(s) + "}"
  }

  lemma {:induction false} BracesTell<R(!new)>(c: Codec<R>, text: R -> string, cuts: seq<Cut<R>>, s: string)
    requires forall r :: c.encode(r) == Braced(text(r))
    requires AreCuts(c, cuts) && cuts != [] && CutBytes(c, cuts) == Braced(s)
    ensures LacksNewline(c, cuts)
  {
    hide Escaped;
    var last, front := cuts[|cuts| - 1], CutBytes(c, cuts[..|cuts| - 1]);
    var line := c.encode(last.record);
    assert line == Braced(text(last.record));
    EscapedIsPlain(s);
    EscapedIsPlain(text(last.record));
    var all := CutBytes(c, cuts);
    assert all == front + line[..last.written];
    assert all[|front|] == line[0] == '{';
    if |cuts| > 1 {
      CutsAreSomething(c, cuts[..|cuts| - 1]);
    }
    assert all[|all| - 1] == '}' && all[|all| - 1] == line[last.written - 1];
  }

  lemma CutsAreSomething<R>(c: Codec<R>, cuts: seq<Cut<R>>)
    requires AreCuts(c, cuts) && cuts != []
    ensures CutBytes(c, cuts) != []
  {
  }

  ghost function Decoded<R(!new)>(text: R -> string, s: string): Option<R> {
    if exists r :: Braced(text(r)) == s then
      var r :| Braced(text(r)) == s;
      Some(r)
    else None
  }

  /** The assumptions can be met for every type whose values can be told apart by a
      text: put the text, escaped, between braces. */
  lemma JsonLikeCodecsExist<R(!new)>(text: R -> string) returns (c: Codec<R>)
    requires forall r, r' :: text(r) == text(r') ==> r == r'
    ensures JsonLike(c)
  {
    hide Escaped, CutBytes;
    c := Codec(r => Braced(text(r)), s => Decoded(text, s));
    forall r
      ensures c.encode(r) != [] && NEWLINE !in c.encode(r) && c.parse(c.encode(r)) == Some(r)
    {
      EscapedIsPlain(text(r));
      var r' := Decoded(text, Braced(text(r))).value;
      BracedIsInjective(text(r'), text(r));
    }
    forall cuts | AreCuts(c, cuts) && cuts != [] && !LacksNewline(c, cuts)
      ensures c.parse(CutBytes(c, cuts)) == None
    {
      if r :| Braced(text(r)) == CutBytes(c, cuts) {
        BracesTell(c, text, cuts, text(r));
      }
    }
  }

  lemma BracedIsInjective(s: string, t: string)
    requires Braced(s) == Braced(t)
    ensures s == t
  {
    assert Escaped(s) == Braced(s)[1..|Braced(s)| - 1] && Escaped(t) == Braced(t)[1..|Braced(t)| - 1];
    EscapedIsInjective(s, t);
  }

  /** A text that ends itself: what follows it can be told from it. */
  function Framed(s: string): string {
    if s == [] then ";" else ['.', s[0]] + Framed(s[1..])
  }

  lemma {:induction false} FramesEnd(s: string, a: string, t: string, b: string)
    requires Framed(s) + a == Framed(t) + b
    ensures s == t && a == b
  {
    var x, y := Framed(s) + a, Framed(t) + b;
    assert x[0] == y[0];
    if s == [] {
      assert a == x[1..] && b == y[1..];
    } else {
      assert x[1] == y[1] && x[2..] == Framed(s[1..]) + a && y[2..] == Framed(t[1..]) + b;
      FramesEnd(s[1..], a, t[1..], b);
      assert s == [s[0]] + s[1..] && t == [t[0]] + t[1..];
    }
  }

  function Tally(n: nat): string {
    seq(n, i => '1')
  }

  function Sign(n: int): char {
    if n < 0 then '-' else '+'
  }

  function Size(n: int): nat {
    if n < 0 then -n else n
  }

  /** A text for an integer that ends itself. */
  function Number(n: int): string {
    [Sign(n)] + Framed(Tally(Size(n)))
  }

  lemma NumbersEnd(m: int, a: string, n: int, b: string)
    requires Number(m) + a == Number(n) + b
    ensures m == n && a == b
  {
    hide Framed;
    var p, q := Tally(Size(m)), Tally(Size(n));
    assert Number(m) + a == [Sign(m)] + (Framed(p) + a);
    assert Number(n) + b == [Sign(n)] + (Framed(q) + b);
    assert ([Sign(m)] + (Framed(p) + a))[1..] == Framed(p) + a;
    assert ([Sign(n)] + (Framed(q) + b))[1..] == Framed(q) + b;
    FramesEnd(p, a, q, b);
    assert |p| == Size(m) && |q| == Size(n);
  }
}
