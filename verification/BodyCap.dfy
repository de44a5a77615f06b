/** The bounded reader in front of the gRPC services: a request body is read
    frame by frame and refused as soon as it is known to exceed the cap. */
module BodyCap {
  import opened Wrappers

  type Byte = b: int | 0 <= b < 256
  type U32 = n: int | 0 <= n < 0x1_0000_0000

  const HEADER_SIZE := 5

  datatype Frame = Data(bytes: seq<Byte>) | Trailers | ReadFailure

  datatype Outcome = WithinCap(body: seq<Byte>) | OverCap(observed: nat) | ReadError

  /** `None` and a zero cap both mean that no cap is configured. */
  function ActiveCap(cap: Option<U32>): Option<U32> {
    if cap.Some? && cap.value > 0 then cap else None
  }

  function DeclaredLength(buf: seq<Byte>): nat
    requires |buf| >= HEADER_SIZE
  {
    0x100_0000 * (buf[1] as int) + 0x1_0000 * (buf[2] as int) + 0x100 * (buf[3] as int) + (buf[4] as int)
  }

  function PrefixVerdict(buf: seq<Byte>, limit: U32): Option<Outcome> {
    if |buf| < HEADER_SIZE then None
    else if DeclaredLength(buf) > limit then Some(OverCap(DeclaredLength(buf)))
    else None
  }

  // ----- What the verdict depends on ---------------------------------------

  function BytesOf(f: Frame): seq<Byte> {
    if f.Data? then f.bytes else []
  }

  /** The bytes a list of frames carries, up to its first failure. */
  function Payload(frames: seq<Frame>): seq<Byte> {
    if frames == [] || frames[0].ReadFailure? then [] else BytesOf(frames[0]) + Payload(frames[1..])
  }

  predicate Fails(frames: seq<Frame>) {
    exists i :: 0 <= i < |frames| && frames[i].ReadFailure?
  }

  /** The verdict on the bytes alone. */
  function Verdict(payload: seq<Byte>, limit: U32): (v: Option<Outcome>)
    ensures v.Some? ==> v.value.OverCap? && v.value.observed > limit
  {
    if PrefixVerdict(payload, limit).Some? then PrefixVerdict(payload, limit)
    else if |payload| > limit + HEADER_SIZE then Some(OverCap(limit + 1))
    else None
  }

  function Expected(frames: seq<Frame>, limit: U32): Outcome {
    var payload := Payload(frames);
    match Verdict(payload, limit)
    case Some(refusal) => refusal
    case None => if Fails(frames) then ReadError else WithinCap(payload)
  }

  /** A refusal, once reached, is the refusal of every longer body. */
  lemma VerdictIsStable(payload: seq<Byte>, more: seq<Byte>, limit: U32)
    requires Verdict(payload, limit).Some?
    ensures Verdict(payload + more, limit) == Verdict(payload, limit)
  {
  }

  lemma TailIsReadable(f: seq<Frame>)
    requires f != [] && !Fails(f)
    ensures !f[0].ReadFailure? && !Fails(f[1..])
  {
    assert forall i :: 0 <= i < |f| - 1 ==> f[1..][i] == f[i + 1];
  }

  lemma {:induction false} PayloadJoins(f: seq<Frame>, g: seq<Frame>)
    requires !Fails(f)
    ensures Payload(f + g) == Payload(f) + Payload(g)
  {
    hide Fails, BytesOf;
    if f == [] {
      assert f + g == g;
    } else {
      TailIsReadable(f);
      PayloadJoins(f[1..], g);
      assert (f + g)[1..] == f[1..] + g;
    }
  }

  lemma {:induction false} PayloadOfPrefix(frames: seq<Frame>, k: nat)
    requires k < |frames| && !Fails(frames[..k])
    ensures Payload(frames) == Payload(frames[..k]) + Payload(frames[k..])
    ensures Payload(frames[..k + 1]) == Payload(frames[..k]) + BytesOf(frames[k])
    ensures !frames[k].ReadFailure? ==> Payload(frames) == Payload(frames[..k + 1]) + Payload(frames[k + 1..])
  {
    hide Payload, Fails;
    assert frames == frames[..k] + frames[k..];
    PayloadJoins(frames[..k], frames[k..]);
    assert frames[..k + 1] == frames[..k] + [frames[k]];
    PayloadJoins(frames[..k], [frames[k]]);
    PayloadOfOne(frames[k]);
    if !frames[k].ReadFailure? {
      assert frames == frames[..k + 1] + frames[k + 1..];
      StillReadable(frames, k);
      PayloadJoins(frames[..k + 1], frames[k + 1..]);
    }
  }

  lemma StillReadable(frames: seq<Frame>, k: nat)
    requires k < |frames| && !Fails(frames[..k]) && !frames[k].ReadFailure?
    ensures !Fails(frames[..k + 1])
  {
    assert forall i :: 0 <= i < k ==> frames[..k + 1][i] == frames[..k][i];
  }

  lemma PayloadOfOne(f: Frame)
    ensures Payload([f]) == BytesOf(f)
  {
  }

  /** The outcome is a function of the bytes and of the presence of a read error:
      chunking and trailers do not matter. The buffer never holds more than the
      cap and the header before a frame is appended. */
  method CollectWithinCap(frames: seq<Frame>, limit: U32) returns (outcome: Outcome, ghost peak: nat)
    ensures outcome == Expected(frames, limit)
    ensures peak <= limit + 5
  {
    hide PrefixVerdict;
    var ceiling := limit + HEADER_SIZE;
    var buf: seq<Byte> := [];
    peak := 0;
    EmptyVerdict(limit);
    for k := 0 to |frames|
      invariant !Fails(frames[..k])
      invariant buf == Payload(frames[..k])
      invariant Verdict(buf, limit).None?
      invariant |buf| <= ceiling && peak <= ceiling
    {
      PayloadOfPrefix(frames, k);
      if !frames[k].ReadFailure? {
        StillReadable(frames, k);
      }
      match frames[k]
      case Trailers =>
      case ReadFailure =>
        assert Fails(frames) && Payload(frames[k..]) == [];
        assert Payload(frames) == buf;
        return ReadError, peak;
      case Data(bytes) =>
        peak := if |buf| > peak then |buf| else peak;
        buf := buf + bytes;
        if Verdict(buf, limit).Some? {
          VerdictIsStable(buf, Payload(frames[k + 1..]), limit);
        }
        var verdict := PrefixVerdict(buf, limit);
        if verdict.Some? {
          return verdict.value, peak;
        }
        if |buf| > ceiling {
          return OverCap(limit + 1), peak;
        }
    }
    assert frames[..|frames|] == frames;
    outcome := PrefixVerdict(buf, limit).GetOr(WithinCap(buf));
  }

  lemma EmptyVerdict(limit: U32)
    ensures Verdict([], limit).None?
  {
  }

  // ----- Chunking ----------------------------------------------------------

  /** Two ways to cut the same readable body get the same outcome, and a body
      that is let through is let through whole. */
  lemma ChunkingDoesNotMatter(f: seq<Frame>, g: seq<Frame>, limit: U32)
    requires !Fails(f) && !Fails(g) && Payload(f) == Payload(g)
    ensures Expected(f, limit) == Expected(g, limit)
    ensures Expected(f, limit).WithinCap? ==> Expected(f, limit).body == Payload(f)
    ensures Expected(f, limit).WithinCap? <==>
              |Payload(f)| <= limit + 5 && (|Payload(f)| >= 5 ==> DeclaredLength(Payload(f)) <= limit)
  {
  }

  /** A read error never hides a refusal that the bytes before it force, and a
      failing body is never let through. */
  lemma FailuresAreNotAccepted(frames: seq<Frame>, limit: U32)
    requires Fails(frames)
    ensures !Expected(frames, limit).WithinCap?
    ensures Expected(frames, limit).ReadError? <==> Verdict(Payload(frames), limit).None?
  {
  }

  // ----- One message in its frame ------------------------------------------

  /** The header the length is read from: a compression flag, then the length of
      the message in four bytes, most significant first. */
  function Header(flag: Byte, length: U32): seq<Byte> {
    [flag, length / 0x100_0000, length / 0x1_0000 % 0x100, length / 0x100 % 0x100, length % 0x100]
  }

  lemma LengthBytes(length: U32)
    ensures 0x100_0000 * (length / 0x100_0000) + 0x1_0000 * (length / 0x1_0000 % 0x100)
            + 0x100 * (length / 0x100 % 0x100) + length % 0x100 == length
  {
    var a, b := length / 0x100, length / 0x1_0000;
    assert length == 0x100 * a + length % 0x100;
    assert a / 0x100 == b && a == 0x100 * b + a % 0x100;
    assert b / 0x100 == length / 0x100_0000 && b == 0x100 * (b / 0x100) + b % 0x100;
  }

  /** A message in its frame is let through exactly when it is no longer than the
      cap, the cap included; otherwise the refusal reports its length. */
  lemma MessageWithinCap(flag: Byte, message: seq<Byte>, limit: U32)
    requires |message| < 0x1_0000_0000
    ensures var body := Header(flag, |message|) + message;
            && DeclaredLength(body) == |message|
            && Verdict(body, limit) == if |message| <= limit then None else Some(OverCap(|message|))
  {
    LengthBytes(|message|);
    var body := Header(flag, |message|) + message;
    assert forall i :: 0 <= i < 5 ==> body[i] == Header(flag, |message|)[i];
  }

  /** Every verdict, on honest and lying frames: a frame that announces more than the cap
      is refused with the length it announces; one that announces less and brings more
      than the cap is refused with one byte over it; all else is let through. */
  lemma FramedVerdict(flag: Byte, announced: U32, rest: seq<Byte>, limit: U32)
    ensures Verdict(Header(flag, announced) + rest, limit) ==
            if announced > limit then Some(OverCap(announced))
            else if |rest| > limit then Some(OverCap(limit + 1))
            else None
  {
    LengthBytes(announced);
    var body := Header(flag, announced) + rest;
    assert forall i :: 0 <= i < 5 ==> body[i] == Header(flag, announced)[i];
  }

  /** Every body is too short for a header, and then let through, or is such a frame. */
  lemma EveryBodyIsFramed(body: seq<Byte>, limit: U32)
    ensures |body| < 5 ==> Verdict(body, limit).None?
    ensures |body| >= 5 ==> exists announced: U32 :: body == Header(body[0], announced) + body[5..]
  {
    if |body| >= 5 {
      var b1, b2, b3, b4 := body[1] as int, body[2] as int, body[3] as int, body[4] as int;
      var high := 0x100 * b1 + b2;
      var middle := 0x100 * high + b3;
      var length: U32 := 0x100 * middle + b4;
      assert length / 0x100 == middle && length % 0x100 == b4;
      assert middle / 0x100 == high && middle % 0x100 == b3;
      assert high / 0x100 == b1 && high % 0x100 == b2;
      assert length / 0x1_0000 == high && length / 0x100_0000 == b1 by {
        Quotients(length);
      }
      assert Header(body[0], length) == body[..5];
      assert body == body[..5] + body[5..];
    }
  }

  lemma Quotients(n: nat)
    ensures n / 0x1_0000 == n / 0x100 / 0x100 && n / 0x100_0000 == n / 0x100 / 0x100 / 0x100
  {
  }

  // ----- The layer ---------------------------------------------------------

  datatype Decision = PassThrough | Forward(body: seq<Byte>) | ResourceExhausted(limit: U32, observed: nat) | Internal

  /** The layer around a service: without a configured cap the request passes
      untouched; with one, only a body within it reaches the service, whole. */
  method Call(cap: Option<U32>, frames: seq<Frame>) returns (decision: Decision)
    ensures decision.PassThrough? <==> cap == None || cap == Some(0)
    ensures !decision.PassThrough? ==>
              match Verdict(Payload(frames), cap.value)
              case Some(refusal) => decision == ResourceExhausted(cap.value, refusal.observed)
              case None => decision == if Fails(frames) then Internal else Forward(Payload(frames))
  {
    var active := ActiveCap(cap);
    if active.None? {
      return PassThrough;
    }
    var outcome, _ := CollectWithinCap(frames, active.value);
    decision := match outcome
                case WithinCap(body) => Forward(body)
                case OverCap(observed) => ResourceExhausted(active.value, observed)
                case ReadError => Internal;
  }
}
