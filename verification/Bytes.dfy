/** Byte strings, big-endian numerals, hexadecimal names and the length-first key order. */
module Bytes {

  type Byte = x: int | 0 <= x < 256
  type Blob = seq<Byte>

  // ---------- big-endian numerals ----------

  function Pow256(k: nat): (r: nat)
    ensures 1 <= r
  {
    if k == 0 then 1 else 256 * Pow256(k - 1)
  }

  /** The low `k` bytes of `n`, most significant first: what `byte(n >> s)` writes. */
  function BigEndian(n: nat, k: nat): (s: Blob)
    ensures |s| == k
  {
    if k == 0 then [] else BigEndian(n / 256, k - 1) + [n % 256]
  }

  /** The number a big-endian byte string stands for. */
  function FromBigEndian(s: Blob): nat
  {
    if s == [] then 0 else 256 * FromBigEndian(s[..|s| - 1]) + s[|s| - 1]
  }

  lemma {:induction false} FromBigEndianOfBigEndian(n: nat, k: nat)
    requires n < Pow256(k)
    ensures FromBigEndian(BigEndian(n, k)) == n
  {
    if k > 0 {
      FromBigEndianOfBigEndian(n / 256, k - 1);
      var s := BigEndian(n, k);
      assert s[..|s| - 1] == BigEndian(n / 256, k - 1);
    }
  }

  lemma {:induction false} BigEndianOfFromBigEndian(s: Blob)
    ensures BigEndian(FromBigEndian(s), |s|) == s
    ensures FromBigEndian(s) < Pow256(|s|)
  {
    if s != [] {
      BigEndianOfFromBigEndian(s[..|s| - 1]);
      assert s == s[..|s| - 1] + [s[|s| - 1]];
    }
  }

  // ---------- hexadecimal names ----------

  function HexDigit(n: nat): (c: Byte)
    requires n < 16
  {
    if n < 10 then 48 + n else 87 + n
  }

  /** The digits are those of lower-case hexadecimal. */
  lemma HexDigitsInOrder(n: nat)
    requires n < 16
    ensures "0123456789abcdef"[n] as int == HexDigit(n)
  {}

  /** Lower-case hexadecimal, the Go map key of a byte-string key. */
  function Hex(b: Blob): (h: Blob)
    ensures |h| == 2 * |b|
  {
    if b == [] then [] else [HexDigit(b[0] / 16), HexDigit(b[0] % 16)] + Hex(b[1..])
  }

  lemma {:induction false} HexInjective(a: Blob, b: Blob)
    requires Hex(a) == Hex(b)
    ensures a == b
  {
    if a != [] {
      assert Hex(a)[0] == Hex(b)[0] && Hex(a)[1] == Hex(b)[1];
      assert Hex(a)[2..] == Hex(a[1..]) && Hex(b)[2..] == Hex(b[1..]);
      HexInjective(a[1..], b[1..]);
      assert a[0] == b[0];
      assert a == [a[0]] + a[1..] && b == [b[0]] + b[1..];
    }
  }

  /** The bytes of a literal in the source; only ASCII literals occur there. */
  function Ascii(s: string): (b: Blob)
    ensures |b| == |s|
    ensures forall i :: 0 <= i < |s| ==> b[i] == s[i] as int % 256
  {
    seq(|s|, i requires 0 <= i < |s| => s[i] as int % 256)
  }

  lemma ThreeParts(b: Blob, p: nat, q: nat)
    requires p <= q <= |b|
    ensures b[..p] + b[p..q] + b[q..] == b
  {
    assert b[..p] + b[p..q] == b[..q];
  }

  /** `k` copies of one byte. */
  function Fill(k: nat, c: Byte): (s: Blob)
    ensures |s| == k && forall i :: 0 <= i < k ==> s[i] == c
  {
    seq(k, i => c)
  }

  // ---------- key order: length first, then bytewise ----------

  predicate LexLess(a: Blob, b: Blob)
    requires |a| == |b|
  {
    a != [] && (a[0] < b[0] || (a[0] == b[0] && LexLess(a[1..], b[1..])))
  }

  predicate KeyLess(a: Blob, b: Blob)
  {
    |a| < |b| || (|a| == |b| && LexLess(a, b))
  }

  /** The order spelled out: shorter first, then by the first byte that differs. */
  predicate KeyBefore(a: Blob, b: Blob)
  {
    || |a| < |b|
    || (|a| == |b| && exists i :: 0 <= i < |a| && a[..i] == b[..i] && a[i] < b[i])
  }

  lemma {:induction false} LexIsFirstDifference(a: Blob, b: Blob)
    requires |a| == |b|
    ensures LexLess(a, b) <==> exists i :: 0 <= i < |a| && a[..i] == b[..i] && a[i] < b[i]
  {
    if a != [] {
      var s, t := a[1..], b[1..];
      LexIsFirstDifference(s, t);
      if a[0] < b[0] {
        assert a[..0] == b[..0];
      } else if a[0] == b[0] {
        forall i | 0 <= i < |s| ensures a[..i + 1] == [a[0]] + s[..i] && b[..i + 1] == [b[0]] + t[..i] {}
        if i :| 0 <= i < |s| && s[..i] == t[..i] && s[i] < t[i] {
          assert a[..i + 1] == b[..i + 1] && a[i + 1] < b[i + 1];
        }
        if i :| 0 <= i < |a| && a[..i] == b[..i] && a[i] < b[i] {
          assert a[..i][1..] == s[..i - 1] && b[..i][1..] == t[..i - 1] && s[i - 1] < t[i - 1];
        }
      } else {
        forall i | 0 <= i < |a| ensures !(a[..i] == b[..i] && a[i] < b[i]) {
          if i > 0 {
            assert a[..i][0] == a[0] && b[..i][0] == b[0];
          }
        }
      }
    }
  }

  /** The comparison handed to the sort is that order. */
  lemma KeyOrderExactly(a: Blob, b: Blob)
    ensures KeyLess(a, b) <==> KeyBefore(a, b)
  {
    if |a| == |b| {
      LexIsFirstDifference(a, b);
    }
  }

  lemma {:induction false} LexTrichotomy(a: Blob, b: Blob)
    requires |a| == |b|
    ensures !LexLess(a, a)
    ensures !(LexLess(a, b) && LexLess(b, a))
    ensures LexLess(a, b) || LexLess(b, a) || a == b
  {
    if a != [] {
      LexTrichotomy(a[1..], b[1..]);
      assert a == [a[0]] + a[1..] && b == [b[0]] + b[1..];
    }
  }

  lemma {:induction false} LexTransitive(a: Blob, b: Blob, c: Blob)
    requires |a| == |b| == |c| && LexLess(a, b) && LexLess(b, c)
    ensures LexLess(a, c)
  {
    if a[0] == b[0] == c[0] {
      LexTransitive(a[1..], b[1..], c[1..]);
    }
  }

  /** The key order is a strict total order. */
  lemma KeyOrderTotal(a: Blob, b: Blob)
    ensures !KeyLess(a, a)
    ensures !(KeyLess(a, b) && KeyLess(b, a))
    ensures KeyLess(a, b) || KeyLess(b, a) || a == b
  {
    LexTrichotomy(a, a);
    if |a| == |b| {
      LexTrichotomy(a, b);
    }
  }

  lemma KeyOrderTransitive(a: Blob, b: Blob, c: Blob)
    requires KeyLess(a, b) && KeyLess(b, c)
    ensures KeyLess(a, c)
  {
    if |a| == |b| == |c| {
      LexTransitive(a, b, c);
    }
  }

  /** A common prefix does not affect the order of equally long strings. */
  lemma {:induction false} LexCommonPrefix(p: Blob, a: Blob, b: Blob)
    requires |a| == |b|
    ensures LexLess(p + a, p + b) <==> LexLess(a, b)
  {
    if p == [] {
      assert p + a == a && p + b == b;
    } else {
      LexCommonPrefix(p[1..], a, b);
      assert (p + a)[1..] == p[1..] + a && (p + b)[1..] == p[1..] + b;
    }
  }
}
