/** The initial bytes of an item: major type and shortest-form argument (RFC 8949 section 4.2.1). */
module Heads {
  import opened Bytes

  /** Go's `int` and `uint64` are 64 bits wide. */
  const TWO_63: int := 0x8000_0000_0000_0000
  const TWO_64: int := 0x1_0000_0000_0000_0000

  datatype DecError =
    | Truncated
    | TruncatedArg
    | BadInfo(ai: nat)
    | TruncatedBytes
    | TruncatedText
    | Unsupported(major: nat)
    | Panic  // a slice bound that is out of range: the Go program dies

  datatype HeadResult = BadHead(err: DecError) | GoodHead(major: nat, arg: nat, next: nat)

  // ---------- writing ----------

  /** Number of argument bytes that follow the initial byte with additional information `ai`. */
  function Width(ai: nat): (w: nat)
  {
    if ai < 24 then 0 else if ai == 24 then 1 else if ai == 25 then 2 else if ai == 26 then 4 else 8
  }

  /** The least additional information whose argument can hold `n`. */
  function Info(n: nat): (ai: nat)
    ensures ai <= 27
  {
    if n < 24 then n
    else if n < 0x100 then 24
    else if n < 0x1_0000 then 25
    else if n < 0x1_0000_0000 then 26
    else 27
  }

  function Head(major: nat, n: nat): (h: Blob)
    requires major < 8
    ensures |h| == 1 + Width(Info(n))
  {
    [32 * major + Info(n)] + BigEndian(n, Width(Info(n)))
  }

  /** `n` shifted right by `k` whole bytes. */
  function ShiftBytes(n: nat, k: nat): nat
  {
    if k == 0 then n else ShiftBytes(n, k - 1) / 256
  }

  /** The encoder's own case analysis, byte by byte, with its loop for eight-byte arguments. */
  method WriteHead(major: nat, n: nat) returns (b: Blob)
    requires major < 8 && n < TWO_64
    ensures b == Head(major, n)
  {
    if n < 24 {
      b := [32 * major + n];
    } else if n < 0x100 {
      b := [32 * major + 24, n];
      OneByte(n);
    } else if n < 0x1_0000 {
      b := [32 * major + 25, n / 256 % 256, n % 256];
      TwoBytes(n);
    } else if n < 0x1_0000_0000 {
      b := [32 * major + 26, n / 256 / 256 / 256 % 256, n / 256 / 256 % 256, n / 256 % 256, n % 256];
      FourBytes(n);
    } else {
      b := [32 * major + 27];
      var i := 8;
      while i > 0
        invariant 0 <= i <= 8
        invariant b == [32 * major + 27] + BigEndian(ShiftBytes(n, i), 8 - i)
      {
        i := i - 1;
        b := b + [ShiftBytes(n, i) % 256];
      }
    }
  }

  lemma OneByte(n: nat)
    ensures BigEndian(n, 1) == [n % 256]
  {
    assert BigEndian(n / 256, 0) == [];
  }

  lemma TwoBytes(n: nat)
    ensures BigEndian(n, 2) == [n / 256 % 256, n % 256]
  {
    OneByte(n / 256);
  }

  lemma FourBytes(n: nat)
    ensures BigEndian(n, 4) == [n / 256 / 256 / 256 % 256, n / 256 / 256 % 256, n / 256 % 256, n % 256]
  {
    TwoBytes(n / 256 / 256);
    assert BigEndian(n / 256, 3) == BigEndian(n / 256 / 256, 2) + [n / 256 % 256];
  }

  // ---------- reading ----------

  function ReadHead(b: Blob, p: nat): (r: HeadResult)
    ensures r.GoodHead? ==> p < r.next <= |b| && r.major < 8 && r.arg < TWO_64
  {
    if p >= |b| then BadHead(Truncated)
    else
      var major, ai := b[p] / 32, b[p] % 32;
      if ai < 24 then GoodHead(major, ai, p + 1)
      else if ai > 27 then BadHead(BadInfo(ai))
      else
        var q := p + 1 + Width(ai);
        if q > |b| then BadHead(TruncatedArg)
        else
          ArgumentBound(b[p + 1..q]);
          GoodHead(major, FromBigEndian(b[p + 1..q]), q)
  }

  lemma PowersOf256()
    ensures Pow256(0) == 1 && Pow256(1) == 0x100 && Pow256(2) == 0x1_0000
    ensures Pow256(4) == 0x1_0000_0000 && Pow256(8) == TWO_64
  {
    assert Pow256(3) == 0x100_0000;
    assert Pow256(4) == 0x1_0000_0000;
    assert Pow256(5) == 0x100_0000_0000;
    assert Pow256(6) == 0x1_0000_0000_0000;
    assert Pow256(7) == 0x100_0000_0000_0000;
  }

  lemma ArgumentBound(s: Blob)
    requires |s| <= 8
    ensures FromBigEndian(s) < TWO_64
  {
    BigEndianOfFromBigEndian(s);
    PowersOf256();
    Pow256Monotone(|s|, 8);
  }

  lemma {:induction false} Pow256Monotone(j: nat, k: nat)
    requires j <= k
    ensures Pow256(j) <= Pow256(k)
    decreases k - j
  {
    if j < k {
      Pow256Monotone(j + 1, k);
    }
  }

  // ---------- reading undoes writing ----------

  lemma ReadOwnHead(major: nat, n: nat)
    requires major < 8 && n < TWO_64
    ensures ReadHead(Head(major, n), 0) == GoodHead(major, n, |Head(major, n)|)
  {
    var h := Head(major, n);
    var ai := Info(n);
    assert h[0] == 32 * major + ai;
    InitialByte(major, ai);
    if ai >= 24 {
      PowersOf256();
      assert h[1..] == BigEndian(n, Width(ai)) == h[0 + 1..0 + 1 + Width(ai)];
      FromBigEndianOfBigEndian(n, Width(ai));
    }
  }

  lemma InitialByte(major: nat, ai: nat)
    requires ai < 32
    ensures (32 * major + ai) / 32 == major && (32 * major + ai) % 32 == ai
  {}

  lemma ReadWrittenHead(major: nat, n: nat, b: Blob, p: nat)
    requires major < 8 && n < TWO_64
    requires p + |Head(major, n)| <= |b| && b[p..p + |Head(major, n)|] == Head(major, n)
    ensures ReadHead(b, p) == GoodHead(major, n, p + |Head(major, n)|)
  {
    var h := Head(major, n);
    ReadOwnHead(major, n);
    assert h[0..|h|] == h;
    ReadHeadLocal(h, 0, b, p);
  }

  lemma InfoMinimal(arg: nat, ai: nat)
    requires 24 <= ai <= 27 && arg < Pow256(Width(ai))
    ensures Width(Info(arg)) <= Width(ai)
    ensures Width(Info(arg)) == Width(ai) ==> Info(arg) == ai
  {
    PowersOf256();
  }

  lemma FirstAndRest(b: Blob, p: nat, q: nat)
    requires p < q <= |b|
    ensures b[p..q] == [b[p]] + b[p + 1..q]
  {}

  lemma HeadBytes(b: Blob, p: nat)
    requires ReadHead(b, p).GoodHead?
    ensures var r, ai := ReadHead(b, p), b[p] % 32;
      && r.next == p + 1 + Width(ai) && b[p] == 32 * r.major + ai
      && (if ai < 24 then r.arg == ai else ai <= 27 && r.arg < Pow256(Width(ai)))
      && b[p..r.next] == [b[p]] + BigEndian(r.arg, Width(ai))
  {
    var ai := b[p] % 32;
    var q := p + 1 + Width(ai);
    FirstAndRest(b, p, q);
    BigEndianOfFromBigEndian(b[p + 1..q]);
  }

  /** No head that is read back as `arg` is shorter than the one the encoder writes, and only
      the encoder's own head is as short. */
  lemma HeadIsShortest(b: Blob, p: nat)
    requires ReadHead(b, p).GoodHead?
    ensures var r := ReadHead(b, p);
      && |Head(r.major, r.arg)| <= r.next - p
      && (|Head(r.major, r.arg)| == r.next - p <==> b[p..r.next] == Head(r.major, r.arg))
  {
    var r := ReadHead(b, p);
    HeadBytes(b, p);
    if b[p] % 32 >= 24 {
      InfoMinimal(r.arg, b[p] % 32);
    }
  }

  /** A head is recognised from its own bytes alone. */
  lemma ReadHeadLocal(b: Blob, p: nat, b': Blob, p': nat)
    requires ReadHead(b, p).GoodHead?
    requires var n := ReadHead(b, p).next - p; p' + n <= |b'| && b'[p'..p' + n] == b[p..p + n]
    ensures var r := ReadHead(b, p); ReadHead(b', p') == GoodHead(r.major, r.arg, p' + (r.next - p))
  {
    var n := ReadHead(b, p).next - p;
    assert b'[p'] == b'[p'..p' + n][0] == b[p..p + n][0] == b[p];
    if b[p] % 32 >= 24 {
      assert b'[p' + 1..p' + n] == b'[p'..p' + n][1..];
      assert b[p + 1..p + n] == b[p..p + n][1..];
    }
  }

  /** A longer argument never has a shorter head. */
  lemma HeadLengthMonotone(m: nat, m': nat, a: nat, b: nat)
    requires m < 8 && m' < 8 && a <= b
    ensures |Head(m, a)| <= |Head(m', b)|
  {}
}
