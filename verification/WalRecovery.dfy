/** The shared replay of newline-terminated write-ahead logs. A parse failure is
    forgiven only on a last line without its newline, the residue of a crash in
    the middle of a write. */
module WalRecovery {
  import opened Wrappers
  import opened Sequences

  /** How records are written as lines: the JSON encoding, abstractly. */
  datatype Codec<!R> = Codec(encode: R -> string, parse: string -> Option<R>)

  const NEWLINE := '\n'

  /** What reached the file of a write that stopped within its line. */
  datatype Cut<R> = Cut(record: R, written: nat)

  predicate AreCuts<R>(c: Codec<R>, cuts: seq<Cut<R>>) {
    forall i :: 0 <= i < |cuts| ==> 0 < cuts[i].written <= |c.encode(cuts[i].record)|
  }

  /** The bytes of cut writes, one behind the other. */
  function CutBytes<R>(c: Codec<R>, cuts: seq<Cut<R>>): string
    requires AreCuts(c, cuts)
  {
    if cuts == [] then []
    else
      var last := cuts[|cuts| - 1];
      CutBytes(c, cuts[..|cuts| - 1]) + c.encode(last.record)[..last.written]
  }

  /** A single write, cut between its last byte and its newline. */
  predicate LacksNewline<R>(c: Codec<R>, cuts: seq<Cut<R>>) {
    |cuts| == 1 && cuts[0].written == |c.encode(cuts[0].record)|
  }

  /** What the replay relies on: a line of JSON holds no newline and reads back; a
      cut line does not parse, and neither does anything written behind one. */
  ghost predicate JsonLike<R(!new)>(c: Codec<R>) {
    && (forall r :: c.encode(r) != [] && NEWLINE !in c.encode(r) && c.parse(c.encode(r)) == Some(r))
    && (forall cuts :: AreCuts(c, cuts) && cuts != [] && !LacksNewline(c, cuts) ==> c.parse(CutBytes(c, cuts)) == None)
  }

  function Line<R>(c: Codec<R>, r: R): string {
    c.encode(r) + [NEWLINE]
  }

  /** The log file after the records `rs` were appended to an empty file. */
  function Render<R>(c: Codec<R>, rs: seq<R>): string {
    if rs == [] then [] else Line(c, rs[0]) + Render(c, rs[1..])
  }

  // ----- Replay ------------------------------------------------------------

  function Split(text: string): (parts: seq<string>)
    ensures parts != []
  {
    if text == [] then [[]]
    else
      var rest := Split(text[1..]);
      if text[0] == NEWLINE then [[]] + rest else [[text[0]] + rest[0]] + rest[1..]
  }

  /** The records on the lines `parts`, the first of which is line number `line`,
      or the number of the line that cannot be read. */
  function Records<R>(c: Codec<R>, parts: seq<string>, line: nat, whole: bool): Result<seq<R>, nat>
    decreases |parts|
  {
    if parts == [] then Ok([])
    else if parts[0] == [] then Records(c, parts[1..], line + 1, whole)
    else
      match c.parse(parts[0])
      case Some(r) =>
        var rest :- Records(c, parts[1..], line + 1, whole);
        Ok([r] + rest)
      case None => if |parts| == 1 && !whole then Ok([]) else Err(line)
  }

  predicate EndsWithNewline(wal: string) {
    wal != [] && wal[|wal| - 1] == NEWLINE
  }

  function RecordsOf<R>(c: Codec<R>, wal: string): Result<seq<R>, nat> {
    Records(c, Split(wal), 1, EndsWithNewline(wal))
  }

  function Fold<S, R>(apply: (S, R) -> S, s: S, rs: seq<R>): S {
    if rs == [] then s else Fold(apply, apply(s, rs[0]), rs[1..])
  }

  function Replayed<S, R>(c: Codec<R>, apply: (S, R) -> S, s: S, wal: string): Result<S, nat> {
    match RecordsOf(c, wal)
    case Ok(rs) => Ok(Fold(apply, s, rs))
    case Err(line) => Err(line)
  }

  /** The replay as the stores run it: every line is applied as it is read. */
  method Replay<S, R>(c: Codec<R>, apply: (S, R) -> S, s: S, wal: string) returns (r: Result<S, nat>)
    ensures r == Replayed(c, apply, s, wal)
  {
    if wal == [] {
      EmptyLine(c, 1, false);
      return Ok(s);
    }
    var whole := EndsWithNewline(wal);
    var parts := Split(wal);
    var state := s;
    ghost var all := RecordsOf(c, wal);
    for i := 0 to |parts|
      invariant match Records(c, parts[i..], i + 1, whole)
                case Ok(rs) => all.Ok? && Fold(apply, state, rs) == Fold(apply, s, all.value)
                case Err(line) => all == Err(line)
    {
      assert parts[i..][1..] == parts[i + 1..];
      if parts[i] == [] {
        continue;
      }
      match c.parse(parts[i])
      case Some(record) =>
        ghost var tail := Records(c, parts[i + 1..], i + 2, whole);
        if tail.Ok? {
          assert ([record] + tail.value)[1..] == tail.value;
        }
        state := apply(state, record);
      case None =>
        if i == |parts| - 1 && !whole {
          return Ok(state);
        }
        return Err(i + 1);
    }
    r := Ok(state);
  }

  // ----- Lines -------------------------------------------------------------

  lemma {:induction false} SplitLine(line: string, rest: string)
    requires NEWLINE !in line
    ensures Split(line + [NEWLINE] + rest) == [line] + Split(rest)
  {
    var text := line + [NEWLINE] + rest;
    if line == [] {
      assert text[1..] == rest;
    } else {
      SplitLine(line[1..], rest);
      assert text[1..] == line[1..] + [NEWLINE] + rest;
      assert [line[0]] + line[1..] == line;
    }
  }

  lemma {:induction false} SplitTail(tail: string)
    requires NEWLINE !in tail
    ensures Split(tail) == [tail]
  {
    if tail != [] {
      SplitTail(tail[1..]);
      assert [tail[0]] + tail[1..] == tail;
    }
  }

  /** The records in front of what was read from the lines behind them. */
  function InFront<R>(rs: seq<R>, behind: Result<seq<R>, nat>): Result<seq<R>, nat> {
    match behind
    case Ok(more) => Ok(rs + more)
    case Err(line) => Err(line)
  }

  lemma GoodLine<R(!new)>(c: Codec<R>, r: R, back: seq<string>, line: nat, whole: bool)
    requires JsonLike(c)
    ensures Records(c, [c.encode(r)] + back, line, whole) == InFront([r], Records(c, back, line + 1, whole))
  {
    assert ([c.encode(r)] + back)[1..] == back;
  }

  lemma InFrontJoins<R>(r: R, rs: seq<R>, behind: Result<seq<R>, nat>)
    ensures InFront([r], InFront(rs, behind)) == InFront([r] + rs, behind)
  {
    if behind.Ok? {
      assert [r] + (rs + behind.value) == [r] + rs + behind.value;
    }
  }

  lemma {:induction false} RecordsBehind<R(!new)>(c: Codec<R>, rs: seq<R>, rest: string, line: nat, whole: bool)
    requires JsonLike(c)
    ensures Records(c, Split(Render(c, rs) + rest), line, whole) ==
            InFront(rs, Records(c, Split(rest), line + |rs|, whole))
    decreases |rs|
  {
    hide Split, Records, InFront;
    var behind := Records(c, Split(rest), line + |rs|, whole);
    if rs == [] {
      assert Render(c, rs) + rest == rest;
      assert InFront(rs, behind) == behind by { NothingInFront(behind); }
    } else {
      var r, back := rs[0], Render(c, rs[1..]) + rest;
      assert Render(c, rs) + rest == c.encode(r) + [NEWLINE] + back;
      assert NEWLINE !in c.encode(r);
      SplitLine(c.encode(r), back);
      GoodLine(c, r, Split(back), line, whole);
      RecordsBehind(c, rs[1..], rest, line + 1, whole);
      InFrontJoins(r, rs[1..], behind);
      assert [r] + rs[1..] == rs;
    }
  }

  lemma NothingInFront<R>(behind: Result<seq<R>, nat>)
    ensures InFront([], behind) == behind
  {
    if behind.Ok? {
      assert [] + behind.value == behind.value;
    }
  }

  lemma {:induction false} RenderJoins<R>(c: Codec<R>, rs: seq<R>, more: seq<R>)
    ensures Render(c, rs + more) == Render(c, rs) + Render(c, more)
  {
    if rs == [] {
      assert rs + more == more;
    } else {
      RenderJoins(c, rs[1..], more);
      assert (rs + more)[1..] == rs[1..] + more;
    }
  }

  lemma {:induction false} FoldJoins<S, R>(apply: (S, R) -> S, s: S, rs: seq<R>, more: seq<R>)
    ensures Fold(apply, s, rs + more) == Fold(apply, Fold(apply, s, rs), more)
    decreases |rs|
  {
    if rs == [] {
      assert rs + more == more;
    } else {
      FoldJoins(apply, apply(s, rs[0]), rs[1..], more);
      assert (rs + more)[1..] == rs[1..] + more;
    }
  }

  // ----- What replay makes of any text -------------------------------------

  function Joined(parts: seq<string>): string
    requires parts != []
  {
    if |parts| == 1 then parts[0] else parts[0] + "\n" + Joined(parts[1..])
  }

  /** The lines are what lies between the newlines. */
  lemma {:induction false} SplitIsLines(text: string)
    ensures Joined(Split(text)) == text
    ensures forall i :: 0 <= i < |Split(text)| ==> '\n' !in Split(text)[i]
  {
    if text != [] {
      var rest := Split(text[1..]);
      SplitIsLines(text[1..]);
      if text[0] == '\n' {
        assert ([[]] + rest)[1..] == rest;
      } else {
        assert ([[text[0]] + rest[0]] + rest[1..])[1..] == rest[1..];
      }
    }
  }

  lemma {:induction false} NothingBehindNewline(text: string)
    requires text != [] && text[|text| - 1] == '\n'
    ensures Split(text)[|Split(text)| - 1] == [] && |Split(text)| > 1
  {
    if |text| > 1 {
      NothingBehindNewline(text[1..]);
    } else {
      assert text[1..] == [] && Split([]) == [[]];
    }
  }

  /** A line that stops the replay: it is not empty, is no record, and is not the rest of
      a text that does not end in a newline. */
  predicate IsBad<R>(c: Codec<R>, parts: seq<string>, i: int) {
    0 <= i < |parts| - 1 && parts[i] != [] && c.parse(parts[i]).None?
  }

  predicate IsRecord<R>(c: Codec<R>, parts: seq<string>, i: int) {
    0 <= i < |parts| && parts[i] != [] && c.parse(parts[i]).Some?
  }

  function PickedRecords<R>(c: Codec<R>, parts: seq<string>, picks: seq<nat>): (rs: seq<R>)
    requires forall i :: 0 <= i < |picks| ==> IsRecord(c, parts, picks[i])
  {
    seq(|picks|, i requires 0 <= i < |picks| && IsRecord(c, parts, picks[i]) => c.parse(parts[picks[i]]).value)
  }

  /** Any text at all: replay is refused at the first bad line, and when there is none it
      reads the lines that are records, in their order, and skips empty lines wherever
      they are. */
  lemma ReplayExactly<R>(c: Codec<R>, wal: string) returns (picks: seq<nat>)
    ensures var parts := Split(wal);
            && (forall l: nat :: RecordsOf(c, wal) == Err(l) <==>
                  IsBad(c, parts, l - 1) && forall j :: 0 <= j < l - 1 ==> !IsBad(c, parts, j))
            && Increasing(picks) && (forall i: nat :: i in picks <==> IsRecord(c, parts, i))
            && (forall i :: 0 <= i < |picks| ==> IsRecord(c, parts, picks[i]))
            && (RecordsOf(c, wal).Ok? ==> RecordsOf(c, wal).value == PickedRecords(c, parts, picks))
  {
    hide Records, Split, IsBad, IsRecord;
    if EndsWithNewline(wal) {
      NothingBehindNewline(wal);
    }
    var parts := Split(wal);
    forall l: nat
      ensures RecordsOf(c, wal) == Err(l) <==>
              IsBad(c, parts, l - 1) && forall j :: 0 <= j < l - 1 ==> !IsBad(c, parts, j)
    {
      RefusedExactly(c, parts, 1, EndsWithNewline(wal), l);
    }
    picks := RecordsInOrder(c, parts, 1, EndsWithNewline(wal));
  }

  lemma {:induction false} RefusedExactly<R>(c: Codec<R>, parts: seq<string>, line: nat, whole: bool, l: int)
    requires parts != [] && (whole ==> parts[|parts| - 1] == [])
    ensures l >= 0 && Records(c, parts, line, whole) == Err(l) <==>
            IsBad(c, parts, l - line) && forall j :: 0 <= j < l - line ==> !IsBad(c, parts, j)
    decreases |parts|
  {
    FirstBad(c, parts, l - line);
    if |parts| > 1 {
      RefusedExactly(c, parts[1..], line + 1, whole, l);
    } else {
      assert parts[1..] == [];
    }
  }

  lemma {:induction false} RecordsInOrder<R>(c: Codec<R>, parts: seq<string>, line: nat, whole: bool)
    returns (picks: seq<nat>)
    ensures Increasing(picks) && forall i: nat :: i in picks <==> IsRecord(c, parts, i)
    ensures forall i :: 0 <= i < |picks| ==> IsRecord(c, parts, picks[i])
    ensures Records(c, parts, line, whole).Ok? ==>
              Records(c, parts, line, whole).value == PickedRecords(c, parts, picks)
    decreases |parts|
  {
    if parts == [] {
      picks := [];
    } else {
      var back := parts[1..];
      var more := RecordsInOrder(c, back, line + 1, whole);
      picks := if IsRecord(c, parts, 0) then [0] + Shifted(more) else Shifted(more);
      PicksBehind(c, parts, more);
    }
  }

  lemma PicksBehind<R>(c: Codec<R>, parts: seq<string>, more: seq<nat>)
    requires parts != [] && Increasing(more) && forall i: nat :: i in more <==> IsRecord(c, parts[1..], i)
    requires forall i :: 0 <= i < |more| ==> IsRecord(c, parts[1..], more[i])
    ensures var picks := if IsRecord(c, parts, 0) then [0] + Shifted(more) else Shifted(more);
            && Increasing(picks) && (forall i: nat :: i in picks <==> IsRecord(c, parts, i))
            && (forall i :: 0 <= i < |picks| ==> IsRecord(c, parts, picks[i]))
            && PickedRecords(c, parts, picks) ==
               (if IsRecord(c, parts, 0) then [c.parse(parts[0]).value] else []) + PickedRecords(c, parts[1..], more)
  {
    hide IsRecord;
    var picks := if IsRecord(c, parts, 0) then [0] + Shifted(more) else Shifted(more);
    forall i: nat
      ensures i in picks <==> IsRecord(c, parts, i)
    {
      ShiftedHas(more, i);
      RecordBehind(c, parts, i);
    }
    forall i | 0 <= i < |picks|
      ensures IsRecord(c, parts, picks[i])
    {
      assert picks[i] in picks;
    }
    PickedBehind(c, parts, more);
    if IsRecord(c, parts, 0) {
      PickedFirst(c, parts, Shifted(more));
    }
  }

  lemma RecordBehind<R>(c: Codec<R>, parts: seq<string>, i: int)
    requires parts != []
    ensures i > 0 ==> (IsRecord(c, parts, i) <==> IsRecord(c, parts[1..], i - 1))
  {
  }

  lemma PickedBehind<R>(c: Codec<R>, parts: seq<string>, more: seq<nat>)
    requires parts != [] && forall i :: 0 <= i < |more| ==> IsRecord(c, parts[1..], more[i])
    ensures forall i :: 0 <= i < |more| ==> IsRecord(c, parts, Shifted(more)[i])
    ensures PickedRecords(c, parts, Shifted(more)) == PickedRecords(c, parts[1..], more)
  {
    assert forall i :: 0 <= i < |more| ==> parts[1..][more[i]] == parts[Shifted(more)[i]];
  }

  lemma PickedFirst<R>(c: Codec<R>, parts: seq<string>, picks: seq<nat>)
    requires IsRecord(c, parts, 0) && forall i :: 0 <= i < |picks| ==> IsRecord(c, parts, picks[i])
    ensures forall i :: 0 <= i < |[0] + picks| ==> IsRecord(c, parts, ([0] + picks)[i])
    ensures PickedRecords(c, parts, [0] + picks) == [c.parse(parts[0]).value] + PickedRecords(c, parts, picks)
  {
  }

  /** The first bad line is the first one, or is the first bad one behind it. */
  lemma FirstBad<R>(c: Codec<R>, parts: seq<string>, k: int)
    requires parts != []
    ensures (IsBad(c, parts, k) && forall j :: 0 <= j < k ==> !IsBad(c, parts, j)) <==>
            if IsBad(c, parts, 0) then k == 0
            else k > 0 && IsBad(c, parts[1..], k - 1) && forall j :: 0 <= j < k - 1 ==> !IsBad(c, parts[1..], j)
  {
    assert forall j :: j > 0 ==> (IsBad(c, parts, j) <==> IsBad(c, parts[1..], j - 1));
    assert forall j :: j >= 0 ==> (IsBad(c, parts, j + 1) <==> IsBad(c, parts[1..], j));
  }

  // ----- Main results ------------------------------------------------------

  lemma {:induction false} CutsAreOneLine<R(!new)>(c: Codec<R>, cuts: seq<Cut<R>>)
    requires JsonLike(c) && AreCuts(c, cuts)
    ensures NEWLINE !in CutBytes(c, cuts)
    ensures cuts != [] ==> CutBytes(c, cuts) != []
  {
    if cuts != [] {
      var last := cuts[|cuts| - 1];
      CutsAreOneLine(c, cuts[..|cuts| - 1]);
      assert NEWLINE !in c.encode(last.record);
      assert forall i :: 0 <= i < last.written ==> c.encode(last.record)[..last.written][i] == c.encode(last.record)[i];
    }
  }

  lemma OneCut<R(!new)>(c: Codec<R>, cut: Cut<R>)
    requires 0 < cut.written <= |c.encode(cut.record)|
    ensures CutBytes(c, [cut]) == c.encode(cut.record)[..cut.written]
  {
    assert [cut][..0] == [];
    assert CutBytes(c, [cut][..0]) == [];
  }

  /** A log that ends in cut writes, however many: the records before them are
      recovered, and a cut one exactly when it is the only one and lacks nothing
      but its newline. */
  lemma TornTailIsDropped<R(!new)>(c: Codec<R>, rs: seq<R>, cuts: seq<Cut<R>>)
    requires JsonLike(c) && AreCuts(c, cuts)
    ensures RecordsOf(c, Render(c, rs) + CutBytes(c, cuts)) ==
            Ok(if LacksNewline(c, cuts) then rs + [cuts[0].record] else rs)
  {
    hide Render, Records, Split, CutBytes;
    var tail := CutBytes(c, cuts);
    var wal := Render(c, rs) + tail;
    RecordsBehind(c, rs, tail, 1, EndsWithNewline(wal));
    CutsAreOneLine(c, cuts);
    SplitTail(tail);
    assert rs + [] == rs;
    if cuts == [] {
      assert tail == [] by { NoCuts(c); }
      EmptyLine(c, 1 + |rs|, EndsWithNewline(wal));
    } else {
      assert wal[|wal| - 1] == tail[|tail| - 1];
      LastLine(c, tail, 1 + |rs|);
      if LacksNewline(c, cuts) {
        OneCut(c, cuts[0]);
        assert cuts == [cuts[0]] && tail == c.encode(cuts[0].record);
      }
    }
  }

  lemma NoCuts<R>(c: Codec<R>)
    ensures CutBytes(c, []) == []
  {
  }

  lemma EmptyLine<R>(c: Codec<R>, line: nat, whole: bool)
    ensures Records(c, [[]], line, whole) == Ok([])
  {
  }

  lemma LastLine<R>(c: Codec<R>, tail: string, line: nat)
    requires tail != []
    ensures Records(c, [tail], line, false) == Ok(if c.parse(tail).Some? then [c.parse(tail).value] else [])
  {
    assert [tail][1..] == [];
    if c.parse(tail).Some? {
      assert [c.parse(tail).value] + [] == [c.parse(tail).value];
    }
  }

  /** An intact log gives back exactly what was appended to it. */
  lemma {:induction false} IntactLog<R(!new)>(c: Codec<R>, rs: seq<R>)
    requires JsonLike(c)
    ensures RecordsOf(c, Render(c, rs)) == Ok(rs)
  {
    hide Render, Records;
    var wal := Render(c, rs);
    assert wal + [] == wal;
    RecordsBehind(c, rs, [], 1, EndsWithNewline(wal));
    EmptyLine(c, 1 + |rs|, EndsWithNewline(wal));
    assert Split([]) == [[]] && rs + [] == rs;
  }

  /** A newline behind cut writes, other than the one a lone write lacks, makes the
      log unreadable: replay refuses that line, whatever follows. */
  lemma GluedLineIsRefused<R(!new)>(c: Codec<R>, rs: seq<R>, cuts: seq<Cut<R>>, rest: string)
    requires JsonLike(c) && AreCuts(c, cuts) && cuts != [] && !LacksNewline(c, cuts)
    ensures RecordsOf(c, Render(c, rs) + (CutBytes(c, cuts) + [NEWLINE] + rest)) == Err(|rs| + 1)
  {
    hide Render, Records, Split, CutBytes;
    var bad := CutBytes(c, cuts);
    var back := bad + [NEWLINE] + rest;
    var wal := Render(c, rs) + back;
    RecordsBehind(c, rs, back, 1, EndsWithNewline(wal));
    CutsAreOneLine(c, cuts);
    SplitLine(bad, rest);
    BadLine(c, bad, Split(rest), 1 + |rs|, EndsWithNewline(wal));
  }

  lemma BadLine<R>(c: Codec<R>, bad: string, rest: seq<string>, line: nat, whole: bool)
    requires bad != [] && rest != [] && c.parse(bad) == None
    ensures Records(c, [bad] + rest, line, whole) == Err(line)
  {
  }
}
