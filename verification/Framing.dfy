/** Length-prefixed frames over a transport that splits the bytes as it likes. */
module Framing {
  import opened Bytes
  import opened Heads
  import opened Decoder
  import opened Trees
  import opened OlderDecoder

  const MAX_FRAME: int := 0x100_0000

  /** `uint32(len(env))` in four bytes, then the envelope. */
  function Frame(env: Blob): Blob
  {
    BigEndian(|env|, 4) + env
  }

  // ---------- the transport ----------

  /** Bytes that arrive together, possibly none; with `fails`, together with an error. */
  datatype Piece = Piece(bytes: Blob, fails: bool)

  /** The bytes that reads can deliver before one of them fails. The read that takes the last byte of
      a failing piece reports the error, even where it fills the buffer. */
  function Flat(chunks: seq<Piece>): Blob
  {
    if chunks == [] then []
    else
      var p := chunks[0];
      if !p.fails then p.bytes + Flat(chunks[1..])
      else if p.bytes == [] then []
      else p.bytes[..|p.bytes| - 1]
  }

  class Conn {
    /** What is still to arrive, in the pieces in which it will arrive. */
    var chunks: seq<Piece>
    /** Whether the stream ends with a deadline rather than with a close. */
    const timesOut: bool

    constructor (chunks: seq<Piece>, timesOut: bool)
      ensures this.chunks == chunks && this.timesOut == timesOut
    {
      this.chunks, this.timesOut := chunks, timesOut;
    }

    /** One read into `b` from `from` on: part of the next piece, with its error once its last byte
        is taken, or an error at the end. */
    method Read(b: array<Byte>, from: nat) returns (n: nat, ok: bool)
      requires from < b.Length
      modifies this, b
      ensures from + n <= b.Length && b[..from] == old(b[..from])
      ensures ok ==> old(Flat(chunks)) == b[from..from + n] + Flat(chunks)
      ensures ok ==> |chunks| + |Flat(chunks)| < old(|chunks| + |Flat(chunks)|)
      ensures !ok ==> Flat(chunks) == [] && |old(Flat(chunks))| < b.Length - from
    {
      if |chunks| == 0 {
        return 0, false;
      }
      var head := chunks[0];
      var bytes := head.bytes;
      n := if |bytes| <= b.Length - from then |bytes| else b.Length - from;
      forall i | 0 <= i < n {
        b[from + i] := bytes[i];
      }
      assert b[from..from + n] == bytes[..n];
      if n < |bytes| {
        ghost var was := chunks;
        chunks := [Piece(bytes[n..], head.fails)] + chunks[1..];
        assert chunks[1..] == was[1..];
        PieceSplit(was, chunks, n);
        return n, true;
      }
      assert bytes[..n] == bytes;
      chunks := if head.fails then [] else chunks[1..];
      return n, !head.fails;
    }

    /** Repeat reads until the buffer is full or the stream ends. */
    method ReadFull(b: array<Byte>) returns (ok: bool)
      modifies this, b
      ensures ok <==> b.Length <= |old(Flat(chunks))|
      ensures ok ==> b[..] == old(Flat(chunks))[..b.Length] && Flat(chunks) == old(Flat(chunks))[b.Length..]
      ensures !ok ==> Flat(chunks) == []
    {
      ghost var all := Flat(chunks);
      ghost var done: Blob := b[..0];
      var got := 0;
      while got < b.Length
        invariant 0 <= got <= b.Length
        invariant done == b[..got] && all == done + Flat(chunks)
        decreases |chunks| + |Flat(chunks)|
      {
        ghost var rest := Flat(chunks);
        var n, more := Read(b, got);
        if !more {
          return false;
        }
        ghost var piece := b[got..got + n];
        Regroup(all, done, rest, piece, Flat(chunks));
        done := done + piece;
        got := got + n;
      }
      assert b[..] == b[..got];
      TakenApart(all, done, Flat(chunks));
      return true;
    }
  }

  lemma PieceSplit(was: seq<Piece>, now: seq<Piece>, n: nat)
    requires was != [] && n < |was[0].bytes| && now != []
    requires now[0] == Piece(was[0].bytes[n..], was[0].fails) && now[1..] == was[1..]
    ensures Flat(was) == was[0].bytes[..n] + Flat(now)
  {
    var bytes := was[0].bytes;
    assert bytes == bytes[..n] + bytes[n..];
    assert bytes[..|bytes| - 1] == bytes[..n] + bytes[n..][..|bytes[n..]| - 1];
    assert bytes[..n] + (bytes[n..] + Flat(was[1..])) == bytes + Flat(was[1..]);
  }

  lemma Regroup(all: Blob, done: Blob, rest: Blob, piece: Blob, rest': Blob)
    requires all == done + rest && rest == piece + rest'
    ensures all == done + piece + rest'
  {}

  lemma TakenApart(all: Blob, done: Blob, rest: Blob)
    requires all == done + rest
    ensures |all| == |done| + |rest| && all[..|done|] == done && all[|done|..] == rest
  {}

  // ---------- one frame ----------

  datatype Received = Body(bytes: Blob) | Ended | Implausible

  /** What reading a header and a body off the incoming bytes gives. */
  function Take(s: Blob): Received
  {
    if |s| < 4 then Ended
    else
      var n := FromBigEndian(s[..4]);
      if n <= 0 || n > MAX_FRAME then Implausible
      else if |s| - 4 < n then Ended
      else Body(s[4..4 + n])
  }

  /** The bytes that are left behind it. */
  function Left(s: Blob): Blob
  {
    match Take(s)
    case Ended => []
    case Implausible => s[4..]
    case Body(bytes) => s[4 + |bytes|..]
  }

  method ReadBody(c: Conn) returns (r: Received)
    modifies c
    ensures r == Take(old(Flat(c.chunks)))
    ensures Flat(c.chunks) == Left(old(Flat(c.chunks)))
  {
    ghost var s := Flat(c.chunks);
    var hdr := new Byte[4](i => 0);
    var ok := c.ReadFull(hdr);
    if !ok {
      return Ended;
    }
    var n := FromBigEndian(hdr[..]);
    if n <= 0 || n > MAX_FRAME {
      return Implausible;
    }
    var body := new Byte[n](i => 0);
    ok := c.ReadFull(body);
    if !ok {
      return Ended;
    }
    assert s[4..][..n] == s[4..4 + n] && s[4..][n..] == s[4 + n..];
    return Body(body[..]);
  }

  /** What the wire did: a decoded envelope, a close, or silence until the deadline. */
  datatype Outcome = Env(body: Blob, m: map<Blob, Value>) | Closed | Silent | Crashed

  function Judge(r: Received, timesOut: bool): Outcome
  {
    match r
    case Ended => if timesOut then Silent else Closed
    case Implausible => Closed
    case Body(bytes) =>
      match Dec(bytes, 0)
      case Fail(e) => if e == Panic then Crashed else Closed
      case Done(v, _) => if v.Map? then Env(bytes, v.m) else Closed
  }

  method ReadOneFrame(c: Conn) returns (o: Outcome)
    modifies c
    ensures o == Judge(Take(old(Flat(c.chunks))), c.timesOut)
    ensures Flat(c.chunks) == Left(old(Flat(c.chunks)))
  {
    var r := ReadBody(c);
    if r.Ended? {
      return if c.timesOut then Silent else Closed;
    }
    if r.Implausible? {
      return Closed;
    }
    var d := Decode(r.bytes, 0);
    if d.Fail? {
      return if d.err == Panic then Crashed else Closed;
    }
    if !d.value.Map? {
      return Closed;
    }
    return Env(r.bytes, d.value.m);
  }

  /** What the older probe makes of a second answer: its decoded map, a refusal, or a crash. */
  datatype Answer = Got(m: map<Blob, Value>) | Refused | Stopped

  function OldJudge(r: Received): Answer
  {
    if !r.Body? then Refused
    else
      match OldDec(r.bytes, 0)
      case Fail(e) => if e == Panic then Stopped else Refused
      case Done(v, _) => if v.Map? then Got(v.m) else Refused
  }

  /** Every outcome, spelled out over the bytes that arrive: silence only where the stream ends too
      early by a deadline, an envelope only for a whole body that decodes to a map, a crash only where
      the decoder dies on the body, a close in every other case, among them an implausible length and a
      body that is no map. */
  lemma OutcomeExactly(s: Blob, timesOut: bool)
    ensures var o, n := Judge(Take(s), timesOut), if |s| < 4 then 0 else FromBigEndian(s[..4]);
      var short := |s| < 4 || (1 <= n <= 0x100_0000 && |s| < 4 + n);
      var whole := |s| >= 4 && 1 <= n <= 0x100_0000 && |s| >= 4 + n;
      && (o == Silent <==> short && timesOut)
      && (o == Crashed <==> whole && Dec(s[4..4 + n], 0) == Fail(Panic))
      && (o.Env? <==> whole && Dec(s[4..4 + n], 0).Done? && Dec(s[4..4 + n], 0).value.Map?)
      && (o.Env? ==> o == Env(s[4..4 + n], Dec(s[4..4 + n], 0).value.m))
      && (o == Closed <==>
            || (short && !timesOut)
            || (|s| >= 4 && !(1 <= n <= 0x100_0000))
            || (whole && Dec(s[4..4 + n], 0).Fail? && Dec(s[4..4 + n], 0).err != Panic)
            || (whole && Dec(s[4..4 + n], 0).Done? && !Dec(s[4..4 + n], 0).value.Map?))
  {}

  /** Two frames answered on one connection; only the second answer is decoded, by the older decoder. */
  method ReadSecond(c: Conn) returns (a: Answer)
    modifies c
    ensures var s := old(Flat(c.chunks)); a == if Take(s).Body? then OldJudge(Take(Left(s))) else Refused
    ensures var s := old(Flat(c.chunks)); Flat(c.chunks) == if Take(s).Body? then Left(Left(s)) else Left(s)
  {
    var i := 0;
    ghost var s := Flat(c.chunks);
    while i < 2
      invariant 0 <= i <= 1
      invariant i == 0 ==> Flat(c.chunks) == s
      invariant i == 1 ==> Take(s).Body? && Flat(c.chunks) == Left(s)
    {
      var r := ReadBody(c);
      if !r.Body? {
        return Refused;
      }
      if i == 1 {
        var d := OldDecode(r.bytes, 0);
        if d.Fail? {
          return if d.err == Panic then Stopped else Refused;
        }
        return if d.value.Map? then Got(d.value.m) else Refused;
      }
      i := i + 1;
    }
    a := Refused;
  }

  /** Against the reader that checks its bounds: the older probe stops where that one crashes or the
      body has a cut argument, and takes the same map from a body without stored byte-string keys. */
  lemma OldJudgeAgainstJudge(bytes: Blob, timesOut: bool)
    ensures OldJudge(Body(bytes)) == Stopped
       <==> Judge(Body(bytes), timesOut) == Crashed || Dec(bytes, 0) == Fail(TruncatedArg)
    ensures OldJudge(Body(bytes)).Got? <==> Judge(Body(bytes), timesOut).Env?
    ensures Judge(Body(bytes), timesOut).Env? && NoByteKey(Parse(bytes, 0).value) ==>
      OldJudge(Body(bytes)) == Got(Judge(Body(bytes), timesOut).m)
  {
    OlderAgainstChecked(bytes, 0);
    ParseIsDec(bytes, 0);
  }

  // ---------- frames are read back ----------

  /** Sent in front of anything, an envelope is read back as itself exactly when its length is
      within the reader's bounds, 1 to 2^24. */
  lemma FrameReadBack(env: Blob, rest: Blob)
    ensures var s := Frame(env) + rest;
      Take(s) == Body(env) && Left(s) == rest <==> 1 <= |env| <= 0x100_0000
  {
    var s := Frame(env) + rest;
    var h := BigEndian(|env|, 4);
    assert s[..4] == h;
    BigEndianOfFromBigEndian(h);
    PowersOf256();
    if |env| < 0x1_0000_0000 {
      FromBigEndianOfBigEndian(|env|, 4);
      assert s[4..4 + |env|] == env && s[4 + |env|..] == rest;
    }
  }

  function Wire(envs: seq<Blob>): Blob
  {
    if envs == [] then [] else Frame(envs[0]) + Wire(envs[1..])
  }

  /** The outcomes of reading `k` frames one after the other. */
  function Readings(s: Blob, timesOut: bool, k: nat): (os: seq<Outcome>)
    ensures |os| == k
    decreases k
  {
    if k == 0 then [] else [Judge(Take(s), timesOut)] + Readings(Left(s), timesOut, k - 1)
  }

  function LeftAfter(s: Blob, k: nat): Blob
    decreases k
  {
    if k == 0 then s else LeftAfter(Left(s), k - 1)
  }

  /** What reading `k` frames one after the other receives. */
  function Receipts(s: Blob, k: nat): (rs: seq<Received>)
    ensures |rs| == k
    decreases k
  {
    if k == 0 then [] else [Take(s)] + Receipts(Left(s), k - 1)
  }

  lemma ReceiptsStep(all: Blob, s: Blob, done: seq<Received>, k: nat, left: nat)
    requires k == left + 1
    ensures done + Receipts(s, k) == done + [Take(s)] + Receipts(Left(s), left)
    ensures LeftAfter(s, k) == LeftAfter(Left(s), left)
  {}

  /** Header and body, `k` times over on one connection. */
  method ReadFrames(c: Conn, k: nat) returns (rs: seq<Received>)
    modifies c
    ensures rs == Receipts(old(Flat(c.chunks)), k)
    ensures Flat(c.chunks) == LeftAfter(old(Flat(c.chunks)), k)
  {
    rs := [];
    ghost var all, left: nat := Flat(c.chunks), k;
    var i := 0;
    while i < k
      invariant i <= k && left == k - i
      invariant Receipts(all, k) == rs + Receipts(Flat(c.chunks), left)
      invariant LeftAfter(all, k) == LeftAfter(Flat(c.chunks), left)
    {
      ReceiptsStep(all, Flat(c.chunks), rs, left, left - 1);
      var r := ReadBody(c);
      rs, i, left := rs + [r], i + 1, left - 1;
    }
  }

  function Bodies(envs: seq<Blob>): (rs: seq<Received>)
    ensures |rs| == |envs| && forall i :: 0 <= i < |envs| ==> rs[i] == Body(envs[i])
  {
    seq(|envs|, i requires 0 <= i < |envs| => Body(envs[i]))
  }

  /** What each envelope, received whole, is judged to be: the envelope itself with its decoded map
      if it decodes to a map. */
  function Answers(envs: seq<Blob>, timesOut: bool): (os: seq<Outcome>)
    ensures |os| == |envs|
    ensures forall i :: 0 <= i < |envs| ==>
      match Dec(envs[i], 0)
      case Done(v, _) => v.Map? ==> os[i] == Env(envs[i], v.m)
      case Fail(_) => !os[i].Env?
  {
    if envs == [] then [] else [Judge(Body(envs[0]), timesOut)] + Answers(envs[1..], timesOut)
  }

  /** A sequence of envelopes is received in order, byte for byte, whatever follows them and however
      the transport splits the bytes: what is received depends on the concatenated bytes alone. Each
      is judged as it would be by itself. */
  lemma {:induction false} StreamRecovered(envs: seq<Blob>, rest: Blob, timesOut: bool)
    requires forall i :: 0 <= i < |envs| ==> 1 <= |envs[i]| <= MAX_FRAME
    ensures Receipts(Wire(envs) + rest, |envs|) == Bodies(envs)
    ensures Readings(Wire(envs) + rest, timesOut, |envs|) == Answers(envs, timesOut)
    ensures LeftAfter(Wire(envs) + rest, |envs|) == rest
  {
    if envs == [] {
      assert Wire(envs) + rest == rest;
    } else {
      var tail := Wire(envs[1..]) + rest;
      assert Wire(envs) + rest == Frame(envs[0]) + tail;
      FrameReadBack(envs[0], tail);
      StreamRecovered(envs[1..], rest, timesOut);
      assert Bodies(envs) == [Body(envs[0])] + Bodies(envs[1..]);
    }
  }

  /** A stream cut strictly inside a frame never yields an envelope for it, and the reader reports
      which way the stream ended. */
  lemma CutFrameYieldsNothing(env: Blob, k: nat, timesOut: bool)
    requires 1 <= |env| <= MAX_FRAME && k < |Frame(env)|
    ensures Judge(Take(Frame(env)[..k]), timesOut) == if timesOut then Silent else Closed
  {
    var s := Frame(env)[..k];
    if k >= 4 {
      assert s[..4] == BigEndian(|env|, 4);
      PowersOf256();
      FromBigEndianOfBigEndian(|env|, 4);
    }
  }

  /** A frame that is read is never longer than what arrived, and what it leaves is untouched. */
  lemma TakenFrame(s: Blob)
    requires Take(s).Body?
    ensures var r := Take(s); Frame(r.bytes) + Left(s) == s && 1 <= |r.bytes| <= MAX_FRAME
  {
    var r := Take(s);
    var q := 4 + |r.bytes|;
    BigEndianOfFromBigEndian(s[..4]);
    assert BigEndian(|r.bytes|, 4) == s[..4];
    Bytes.ThreeParts(s, 4, q);
  }
}
