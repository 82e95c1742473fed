/** Literal inputs with the answers the standard gives: examples of RFC 8949, Appendix A, and one input
    for each error. */
module KnownAnswers {
  import opened Bytes
  import opened Heads
  import opened Decoder
  import opened CanonicalMap
  import opened Slicer
  import opened Arrays
  import opened Base58

  /** Simple values: 20 is false, 21 is true, 22 and every other one is null. */
  lemma SimpleValues(n: nat)
    requires n < TWO_64
    ensures var s := Head(7, n);
      && (n == 20 ==> Dec(s, 0) == Done(Bool(false), |s|))
      && (n == 21 ==> Dec(s, 0) == Done(Bool(true), |s|))
      && (n != 20 && n != 21 ==> Dec(s, 0) == Done(Nil, |s|))
  {
    ReadOwnHead(7, n);
    DecUnfold(Head(7, n), 0, 7, n, |Head(7, n)|);
  }

  /** Negative integers of the 64-bit type, and what becomes of those that do not fit it. */
  lemma NegativeValues(n: nat)
    requires n < TWO_64
    ensures var s := Head(1, n);
      Dec(s, 0) == Done(Negative(if n < TWO_63 then -1 - n else TWO_64 - 1 - n), |s|)
  {
    ReadOwnHead(1, n);
    DecUnfold(Head(1, n), 0, 1, n, |Head(1, n)|);
  }

  lemma Numbers()
    ensures Dec([0x00], 0) == Done(UInt(0), 1) && Dec([0x17], 0) == Done(UInt(23), 1)
    ensures Dec([0x18, 0x18], 0) == Done(UInt(24), 2) && Dec([0x18, 0x64], 0) == Done(UInt(100), 2)
    ensures Dec([0x19, 0x03, 0xe8], 0) == Done(UInt(1000), 3)
    ensures Dec([0x20], 0) == Done(Negative(-1), 1) && Dec([0x38, 0x63], 0) == Done(Negative(-100), 2)
  {
    Argument([0x18, 0x18]);
    Argument([0x18, 0x64]);
    Argument([0x38, 0x63]);
    LongArgument([0x19, 0x03, 0xe8]);
  }

  lemma LongArgument(b: Blob)
    requires |b| == 3 && b[0] % 32 == 25
    ensures ReadHead(b, 0) == GoodHead(b[0] / 32, 256 * b[1] as nat + b[2] as nat, 3)
  {
    var t := b[1..3];
    assert t[..1] == [b[1]] && t[..1][..0] == [] && |t| == 2 && t[1] == b[2];
    assert FromBigEndian(t[..1]) == b[1];
    assert FromBigEndian(t) == 256 * b[1] as nat + b[2] as nat;
  }

  lemma Argument(b: Blob)
    requires |b| == 2 && b[0] % 32 == 24
    ensures ReadHead(b, 0) == GoodHead(b[0] / 32, b[1], 2)
  {
    assert b[1..2] == [b[1]] && [b[1]][..0] == [];
    assert FromBigEndian([b[1]]) == b[1];
  }

  lemma Simples()
    ensures Dec([0xf4], 0) == Done(Bool(false), 1) && Dec([0xf5], 0) == Done(Bool(true), 1)
    ensures Dec([0xf6], 0) == Done(Nil, 1)
  {
    SimpleValues(20);
    SimpleValues(21);
    SimpleValues(22);
    assert Head(7, 20) == [0xf4] && Head(7, 21) == [0xf5] && Head(7, 22) == [0xf6];
  }

  lemma StringItems()
    ensures Dec([0x40], 0) == Done(Bytes([]), 1) && Dec([0x60], 0) == Done(Text([]), 1)
    ensures Dec([0x44, 1, 2, 3, 4], 0) == Done(Bytes([1, 2, 3, 4]), 5)
    ensures Dec([0x61, 0x61], 0) == Done(Text([0x61]), 2)
  {
    assert Bstr([]) == [0x40] && Txt([]) == [0x60];
    assert Bstr([1, 2, 3, 4]) == [0x44, 1, 2, 3, 4] && Txt([0x61]) == [0x61, 0x61];
    StringComplete([]);
    StringComplete([1, 2, 3, 4]);
    StringComplete([0x61]);
  }

  lemma Small(n: nat)
    requires n < 24
    ensures Complete([n]) && ValueOf([n]) == UInt(n)
  {
    assert Head(0, n) == [n];
    ReadOwnHead(0, n);
    DecUnfold([n], 0, 0, n, 1);
  }

  lemma ThreeBytes(x: Byte, y: Byte, z: Byte)
    ensures Concat([[x], [y], [z]]) == [x, y, z]
  {
    var vs: seq<Blob> := [[x], [y], [z]];
    assert vs[1..] == [[y], [z]] && [[y], [z]][1..] == [[z]] && [[z]][1..] == [];
    assert Concat([[z]]) == [z];
    assert Concat([[y], [z]]) == [y] + [z];
  }

  lemma ArrayItems()
    ensures Dec([0x80], 0) == Done(Array([]), 1)
    ensures Dec([0x83, 1, 2, 3], 0) == Done(Array([UInt(1), UInt(2), UInt(3)]), 4)
  {
    ArrComplete([], []);
    Small(1);
    Small(2);
    Small(3);
    ArrComplete([[1], [2], [3]], [UInt(1), UInt(2), UInt(3)]);
    ThreeBytes(1, 2, 3);
    assert Arr([[1], [2], [3]]) == [0x83, 1, 2, 3];
  }

  lemma EmptyMap()
    ensures Dec([0xa0], 0) == Done(Map(map[]), 1)
  {
    CMapComplete([]);
  }

  lemma OneEntry(p: Pair, k: Blob, v: Value)
    requires Complete(p.k) && Complete(p.v) && ValueOf(p.k) == Text(k) && ValueOf(p.v) == v
    ensures var s := [0xa1] + p.k + p.v; Dec(s, 0) == Done(Map(map[k := v]), |s|)
  {
    MapIsComplete([p]);
    assert [p][1..] == [];
    assert Flatten([p]) == p.k + p.v;
    KeysStored([], Text(k), v);
    assert Bindings([p]) == [] + [(Text(k), v)];
    assert Head(5, 1) == [0xa1];
    assert [0xa1] + (p.k + p.v) == [0xa1] + p.k + p.v;
  }

  lemma MapItem()
    ensures Dec([0xa1, 0x61, 0x61, 0x01], 0) == Done(Map(map[[0x61] := UInt(1)]), 4)
  {
    StringItems();
    Small(1);
    OneEntry(Pair([0x61, 0x61], [1]), [0x61], UInt(1));
    assert [0xa1] + [0x61, 0x61] + [1] == [0xa1, 0x61, 0x61, 0x01];
  }

  /** What a map stores: a text key under itself, a byte-string key under its hexadecimal form, later
      entries over earlier ones, and nothing for a key of any other kind. */
  lemma KeysStored(kvs: seq<Binding>, key: Value, v: Value)
    ensures var before, after := MapOf(kvs), MapOf(kvs + [(key, v)]);
      && (key.Text? ==> after == before[key.s := v])
      && (key.Bytes? ==> after == before[Hex(key.b) := v])
      && (!key.Text? && !key.Bytes? ==> after == before)
  {
    assert (kvs + [(key, v)])[..|kvs|] == kvs;
  }

  lemma Errors()
    ensures Dec([], 0) == Fail(Truncated) && Dec([0x18], 0) == Fail(TruncatedArg)
    ensures Dec([0x1c], 0) == Fail(BadInfo(28)) && Dec([0xc0], 0) == Fail(Unsupported(6))
    ensures Dec([0x41], 0) == Fail(TruncatedBytes) && Dec([0x61], 0) == Fail(TruncatedText)
  {}

  /** An envelope that is no map, one whose head is longer than the slicer reads, and one without the
      included field. */
  lemma SliceErrors()
    ensures RawIncluded([]) == SliceFail(NotAMap) && RawIncluded([0x80]) == SliceFail(NotAMap)
    ensures RawIncluded([0xba, 0, 0, 0, 0]) == SliceFail(Implausible)
    ensures RawIncluded([0xa0]) == Entries([])
  {}

  /** 256 behind one zero byte, and an Ed25519-style identifier of the empty key. */
  lemma Base58Answers()
    ensures Encode58([0, 1, 0]) == Ascii("15R") && Encode58([]) == []
    ensures PeerIdOf([]) == Ascii("5R")
  {
    BaseOf256();
    assert [0, 1, 0][..2] == [0, 1] && [0, 1][..1] == [0] && [0][..0] == [];
    assert FromBigEndian([0]) == 0 && FromBigEndian([0, 1]) == 1;
    assert FromBigEndian([0, 1, 0]) == 256;
    assert [1, 0][..1] == [1] && [1][..0] == [];
    assert FromBigEndian([1]) == 1;
    assert FromBigEndian([1, 0]) == 256;
    assert LeadingZeros([0, 1, 0]) == 1 && LeadingZeros([1, 0]) == 0;
    assert [1, 0] + [] == [1, 0];
  }

  lemma BaseOf256()
    ensures Letters(256) == Ascii("5R")
  {
    assert Letters(4) == [Letter(4)];
    assert Letters(256) == Letters(4) + [Letter(24)];
    assert Letter(4) == 53 && Letter(24) == 82;
  }
}
