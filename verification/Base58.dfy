/** Base58 of a byte string read as a big number, and the peer identifiers built with it. */
module Base58 {
  import opened Bytes

  // ---------- the alphabet ----------

  const ONE: Byte := 49

  /** The 58 letters in order: digits without 0, capitals without I and O, small letters without l. */
  function Letter(d: nat): (c: Byte)
    requires d < 58
  {
    if d < 9 then 49 + d
    else if d < 17 then 65 + (d - 9)
    else if d < 22 then 74 + (d - 17)
    else if d < 33 then 80 + (d - 22)
    else if d < 44 then 97 + (d - 33)
    else 109 + (d - 44)
  }

  /** The letters are those of the source's alphabet string. */
  lemma AlphabetIsTheSources(d: nat)
    requires d < 58
    ensures var alphabet := "123456789" + "ABCDEFGH" + "JKLMN" + "PQRSTUVWXYZ" + "abcdefghijk" + "mnopqrstuvwxyz";
      |alphabet| == 58 && alphabet[d] as int == Letter(d)
  {
    var s0, s1, s2, s3, s4, s5 := "123456789", "ABCDEFGH", "JKLMN", "PQRSTUVWXYZ", "abcdefghijk", "mnopqrstuvwxyz";
    var alphabet := s0 + s1 + s2 + s3 + s4 + s5;
    if d < 9 {
      assert alphabet[d] == s0[d];
    } else if d < 17 {
      assert alphabet[d] == s1[d - 9];
    } else if d < 22 {
      assert alphabet[d] == s2[d - 17];
    } else if d < 33 {
      assert alphabet[d] == s3[d - 22];
    } else if d < 44 {
      assert alphabet[d] == s4[d - 33];
    } else {
      assert alphabet[d] == s5[d - 44];
    }
  }

  /** The digit a letter stands for; 0 for a byte that is no letter. */
  function DigitOf(c: Byte): (d: nat)
    ensures d < 58
  {
    if 49 <= c <= 57 then c - 49
    else if 65 <= c <= 72 then c - 56
    else if 74 <= c <= 78 then c - 57
    else if 80 <= c <= 90 then c - 58
    else if 97 <= c <= 107 then c - 64
    else if 109 <= c <= 122 then c - 65
    else 0
  }

  // ---------- encoding ----------

  function LeadingZeros(b: Blob): (z: nat)
    ensures z <= |b|
    ensures forall i :: 0 <= i < z ==> b[i] == 0
    ensures z < |b| ==> b[z] != 0
  {
    if b == [] || b[0] != 0 then 0 else 1 + LeadingZeros(b[1..])
  }

  /** The base-58 letters of `n`, most significant first, none for 0. */
  function Letters(n: nat): Blob
  {
    if n == 0 then [] else Letters(n / 58) + [Letter(n % 58)]
  }

  function Encode58(b: Blob): Blob
  {
    Fill(LeadingZeros(b), ONE) + Letters(FromBigEndian(b))
  }

  function Reverse(s: Blob): (t: Blob)
    ensures |t| == |s| && forall i :: 0 <= i < |s| ==> t[i] == s[|s| - 1 - i]
  {
    seq(|s|, i requires 0 <= i < |s| => s[|s| - 1 - i])
  }

  lemma ReverseAppend(s: Blob, c: Byte)
    ensures Reverse(s + [c]) == [c] + Reverse(s)
  {}

  lemma ReverseFilled(s: Blob, k: nat)
    ensures Reverse(s + Fill(k, ONE)) == Fill(k, ONE) + Reverse(s)
  {}

  /** The DivMod loop: least significant digit first. */
  method DivideOut(number: nat) returns (out: Blob)
    ensures Reverse(out) == Letters(number)
  {
    var n := number;
    out := [];
    assert Reverse(out) == [];
    assert Letters(number) == Letters(n) + [];
    while n > 0
      invariant Letters(number) == Letters(n) + Reverse(out)
      decreases n
    {
      var digit := n % 58;
      ReverseAppend(out, Letter(digit));
      assert Letters(n) + Reverse(out) == Letters(n / 58) + ([Letter(digit)] + Reverse(out));
      n := n / 58;
      out := out + [Letter(digit)];
    }
  }

  method Reversed(s: Blob) returns (out: Blob)
    ensures out == Reverse(s)
  {
    out := s;
    var i, j := 0, |out| - 1;
    while i < j
      invariant 0 <= i <= |s| && j == |s| - 1 - i && Turned(out, s, i, j)
    {
      SwapTurns(out, s, i, j);
      out := out[i := out[j]][j := out[i]];
      i, j := i + 1, j - 1;
    }
    assert i == j ==> s[i] == Reverse(s)[i];
  }

  /** Reversed in front of `i` and behind `j`, as it was in between. */
  ghost predicate Turned(out: Blob, s: Blob, i: int, j: int)
  {
    && |out| == |s|
    && (forall m :: 0 <= m < |s| && i <= m <= j ==> out[m] == s[m])
    && (forall m :: 0 <= m < |s| && !(i <= m <= j) ==> out[m] == Reverse(s)[m])
  }

  lemma SwapTurns(out: Blob, s: Blob, i: nat, j: nat)
    requires i < j < |s| && j == |s| - 1 - i && Turned(out, s, i, j)
    ensures Turned(out[i := out[j]][j := out[i]], s, i + 1, j - 1)
  {
    assert Reverse(s)[i] == s[j] && Reverse(s)[j] == s[i];
  }

  /** Repeated division, one '1' per leading zero byte, then the reversal. */
  method EncodeBase58(b: Blob) returns (out: Blob)
    ensures out == Encode58(b)
  {
    out := DivideOut(FromBigEndian(b));
    ghost var digits := out;
    assert digits + Fill(0, ONE) == digits;
    var k := 0;
    while k < |b| && b[k] == 0
      invariant 0 <= k <= LeadingZeros(b)
      invariant out == digits + Fill(k, ONE)
    {
      assert Fill(k, ONE) + [ONE] == Fill(k + 1, ONE);
      out := out + [ONE];
      k := k + 1;
    }
    assert k == LeadingZeros(b);
    ReverseFilled(digits, k);
    out := Reversed(out);
  }

  // ---------- decoding ----------

  function LeadingOnes(s: Blob): (z: nat)
    ensures z <= |s|
  {
    if s == [] || s[0] != ONE then 0 else 1 + LeadingOnes(s[1..])
  }

  function NumberOf(s: Blob): nat
  {
    if s == [] then 0 else 58 * NumberOf(s[..|s| - 1]) + DigitOf(s[|s| - 1])
  }

  /** Big-endian bytes of `n` without leading zeros. */
  function MinimalBytes(n: nat): Blob
  {
    if n == 0 then [] else MinimalBytes(n / 256) + [n % 256]
  }

  function Decode58(s: Blob): Blob
  {
    var z := LeadingOnes(s);
    Fill(z, 0) + MinimalBytes(NumberOf(s[z..]))
  }

  // ---------- decoding undoes encoding ----------

  lemma NumberAppend(t: Blob, c: Byte)
    ensures NumberOf(t + [c]) == 58 * NumberOf(t) + DigitOf(c)
  {
    assert (t + [c])[..|t|] == t;
  }

  lemma LetterDigit(d: nat)
    requires d < 58
    ensures DigitOf(Letter(d)) == d && (Letter(d) == ONE <==> d == 0)
  {}

  lemma {:induction false} NumberOfLetters(n: nat)
    ensures NumberOf(Letters(n)) == n
    ensures n > 0 ==> Letters(n) != [] && Letters(n)[0] != ONE
  {
    if n > 0 {
      var q, d := n / 58, n % 58;
      NumberOfLetters(q);
      NumberAppend(Letters(q), Letter(d));
      LetterDigit(d);
      assert n == 58 * q + d;
    }
  }

  lemma {:induction false} LeadingOnesOf(k: nat, t: Blob)
    requires t != [] ==> t[0] != ONE
    ensures LeadingOnes(Fill(k, ONE) + t) == k
  {
    var s := Fill(k, ONE) + t;
    if k > 0 {
      assert s[1..] == Fill(k - 1, ONE) + t;
      LeadingOnesOf(k - 1, t);
    }
  }

  lemma {:induction false} FromBigEndianConcat(a: Blob, b: Blob)
    ensures FromBigEndian(a + b) == FromBigEndian(a) * Pow256(|b|) + FromBigEndian(b)
  {
    if b == [] {
      assert a + b == a;
    } else {
      var n := |b| - 1;
      var s := a + b;
      assert s[..|s| - 1] == a + b[..n];
      FromBigEndianConcat(a, b[..n]);
      var f, w, g := FromBigEndian(a), Pow256(n), FromBigEndian(b[..n]);
      assert FromBigEndian(s[..|s| - 1]) == f * w + g;
      assert s != [] && s[|s| - 1] == b[n];
      ScaleBy256(f, w, g);
    }
  }

  lemma ScaleBy256(f: int, w: int, g: int)
    ensures 256 * (f * w + g) == f * (256 * w) + 256 * g
  {}

  lemma {:induction false} FillZeroNumber(k: nat)
    ensures FromBigEndian(Fill(k, 0)) == 0
  {
    if k > 0 {
      assert Fill(k, 0)[..k - 1] == Fill(k - 1, 0);
      FillZeroNumber(k - 1);
    }
  }

  lemma {:induction false} MinimalBytesOf(t: Blob)
    requires t != [] ==> t[0] != 0
    ensures MinimalBytes(FromBigEndian(t)) == t
    ensures t != [] ==> FromBigEndian(t) > 0
  {
    if t != [] {
      var n := |t| - 1;
      MinimalBytesOf(t[..n]);
      assert t == t[..n] + [t[n]];
    }
  }

  /** The encoding can be undone for every byte string. */
  lemma Base58RoundTrip(b: Blob)
    ensures Decode58(Encode58(b)) == b
  {
    var z := LeadingZeros(b);
    var t := b[z..];
    assert b == Fill(z, 0) + t;
    FromBigEndianConcat(Fill(z, 0), t);
    FillZeroNumber(z);
    var n := FromBigEndian(b);
    MinimalBytesOf(t);
    NumberOfLetters(n);
    LeadingOnesOf(z, Letters(n));
    assert Encode58(b)[z..] == Letters(n);
  }

  lemma Base58Injective(a: Blob, b: Blob)
    requires Encode58(a) == Encode58(b)
    ensures a == b
  {
    Base58RoundTrip(a);
    Base58RoundTrip(b);
  }

  /** Exactly the leading zero bytes show as leading '1's; the digit after them is not zero. */
  lemma LeadingOnesAreLeadingZeros(b: Blob)
    ensures LeadingOnes(Encode58(b)) == LeadingZeros(b)
    ensures |Encode58(b)| == LeadingZeros(b) <==> FromBigEndian(b) == 0
  {
    NumberOfLetters(FromBigEndian(b));
    LeadingOnesOf(LeadingZeros(b), Letters(FromBigEndian(b)));
  }

  // ---------- lengths ----------

  function Pow58(k: nat): (r: nat)
    ensures 1 <= r
  {
    if k == 0 then 1 else 58 * Pow58(k - 1)
  }

  lemma {:induction false} LettersLength(n: nat, k: nat)
    requires 1 <= k && Pow58(k - 1) <= n < Pow58(k)
    ensures |Letters(n)| == k
  {
    if k == 1 {
      assert Letters(n / 58) == [];
    } else {
      var p := Pow58(k - 2);
      assert Pow58(k - 1) == 58 * p && Pow58(k) == 58 * (58 * p);
      assert p <= n / 58 < 58 * p;
      LettersLength(n / 58, k - 1);
    }
  }

  /** 58^45 <= 2^264 and 2^264 + 2^256 <= 58^46. */
  lemma PowersApart()
    ensures Pow58(45) <= Pow256(33) && Pow256(33) + Pow256(32) <= Pow58(46)
  {
    assert Pow58(3) == 195112;
    assert Pow58(6) == 38068692544;
    assert Pow58(9) == 7427658739644928;
    assert Pow58(12) == 1449225352009601191936;
    assert Pow58(15) == 282761256881297307761016832;
    assert Pow58(18) == 55170114352623680311867516125184;
    assert Pow58(21) == 10764351351569111513009094806216900608;
    assert Pow58(24) == 2100254120907352485526230505830591911428096;
    assert Pow58(27) == 409784782038475358155993886453618449022558666752;
    assert Pow58(30) == 79953928393091004080532279173738402825689466587316224;
    assert Pow58(33) == 15599970876632771988160814054146447252125923204784443097088;
    assert Pow58(36) == 3043741517681573408154032751732621616256793128331902261559033856;
    assert Pow58(39) == 593870494997887150811749638256055268791095420855094114057306213711872;
    assert Pow58(42) == 115871260020027757769182095419415455604368209753879122781949129969750769664;
    assert Pow58(45) == 22607873285027655873860657001472988373879490141498863404231658646658012170682368;
    assert Pow256(3) == 16777216;
    assert Pow256(6) == 281474976710656;
    assert Pow256(9) == 4722366482869645213696;
    assert Pow256(12) == 79228162514264337593543950336;
    assert Pow256(15) == 1329227995784915872903807060280344576;
    assert Pow256(18) == 22300745198530623141535718272648361505980416;
    assert Pow256(21) == 374144419156711147060143317175368453031918731001856;
    assert Pow256(24) == 6277101735386680763835789423207666416102355444464034512896;
    assert Pow256(27) == 105312291668557186697918027683670432318895095400549111254310977536;
    assert Pow256(30) == 1766847064778384329583297500742918515827483896875618958121606201292619776;
  }

  /** key type 1 (Ed25519), hash type 0 (the key itself), then the key. */
  function PeerIdOf(pub: Blob): Blob
  {
    Encode58([1, 0] + pub)
  }

  /** An identifier stands for key type 1, hash type 0 and the key. */
  lemma PeerIdStandsFor(pub: Blob)
    ensures Decode58(PeerIdOf(pub)) == [1, 0] + pub
  {
    Base58RoundTrip([1, 0] + pub);
  }

  lemma PeerIdInjective(p: Blob, q: Blob)
    requires PeerIdOf(p) == PeerIdOf(q)
    ensures p == q
  {
    Base58Injective([1, 0] + p, [1, 0] + q);
    assert p == ([1, 0] + p)[2..] && q == ([1, 0] + q)[2..];
  }

  /** The identifier of every 32-byte key has exactly 46 characters. */
  lemma PeerIdLength(pub: Blob)
    requires |pub| == 32
    ensures |PeerIdOf(pub)| == 46 && LeadingOnes(PeerIdOf(pub)) == 0
  {
    var b: Blob := [1, 0] + pub;
    var n := FromBigEndian(b);
    FromBigEndianConcat([1, 0], pub);
    BigEndianOfFromBigEndian(pub);
    assert FromBigEndian([1, 0]) == 256 by {
      assert [1, 0][..1] == [1];
      assert FromBigEndian([1]) == 1;
    }
    assert Pow256(33) <= n < Pow256(33) + Pow256(32);
    PowersApart();
    LettersLength(n, 46);
    LeadingOnesAreLeadingZeros(b);
  }
}
