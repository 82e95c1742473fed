/** Structured values, their canonical encoding and the round trip through the decoder. */
module Items {
  import opened Options
  import opened Bytes
  import opened Heads
  import opened Decoder
  import opened CanonicalMap
  import opened Slicer
  import opened Denotation
  import opened Arrays

  datatype Key = KText(s: Blob) | KBytes(b: Blob)

  datatype Entry = Entry(key: Key, val: Item)

  datatype Item =
    | IUInt(n: nat)
    | INegative(n: nat)  // -1 - n
    | IBool(t: bool)
    | INull
    | IBytes(b: Blob)
    | IText(s: Blob)
    | IArray(items: seq<Item>)
    | IMap(entries: seq<Entry>)

  // ---------- encoding ----------

  function EncodeKey(k: Key): Blob
  {
    match k
    case KText(s) => Txt(s)
    case KBytes(b) => Bstr(b)
  }

  function Encode(i: Item): Blob
    decreases i, 1
  {
    match i
    case IUInt(n) => Head(0, n)
    case INegative(n) => Head(1, n)
    case IBool(t) => Head(7, if t then 21 else 20)
    case INull => Head(7, 22)
    case IBytes(b) => Bstr(b)
    case IText(s) => Txt(s)
    case IArray(items) => Arr(EncodeAll(items))
    case IMap(entries) => CMap(EncodeEntries(entries))
  }

  function EncodeAll(items: seq<Item>): (vs: seq<Blob>)
    ensures |vs| == |items|
    decreases items, 0
  {
    if items == [] then [] else [Encode(items[0])] + EncodeAll(items[1..])
  }

  function EncodeEntries(es: seq<Entry>): (ps: seq<Pair>)
    ensures |ps| == |es|
    decreases es, 0
  {
    if es == [] then []
    else
      assert es[0].val < es[0];
      [Pair(EncodeKey(es[0].key), Encode(es[0].val))] + EncodeEntries(es[1..])
  }

  /** Numbers, lengths and counts fit the 64-bit words that hold them. */
  predicate Sized(i: Item)
    decreases i, 1
  {
    match i
    case IUInt(n) => n < TWO_64
    case INegative(n) => n < TWO_63
    case IBool(_) => true
    case INull => true
    case IBytes(b) => |b| < TWO_64
    case IText(s) => |s| < TWO_64
    case IArray(items) => |items| < TWO_64 && forall k :: 0 <= k < |items| ==> Sized(items[k])
    case IMap(es) =>
      && |es| < TWO_64
      && forall k :: 0 <= k < |es| ==> SizedKey(es[k].key) && (assert es[k].val < es[k]; Sized(es[k].val))
  }

  predicate SizedKey(k: Key)
  {
    match k
    case KText(s) => |s| < TWO_64
    case KBytes(b) => |b| < TWO_64
  }

  // ---------- meaning, without reference to bytes or order ----------

  function KeyName(k: Key): Blob
  {
    match k
    case KText(s) => s
    case KBytes(b) => Hex(b)
  }

  function NamesOf(es: seq<Entry>): set<Blob>
  {
    set i | 0 <= i < |es| :: KeyName(es[i].key)
  }

  /** The first entry with key `k`, or the length of the list. */
  function FirstIndex(es: seq<Entry>, k: Key): (i: nat)
    ensures i <= |es|
    ensures i < |es| ==> es[i].key == k
    ensures forall j :: 0 <= j < i ==> es[j].key != k
  {
    if es == [] || es[0].key == k then 0 else 1 + FirstIndex(es[1..], k)
  }

  /** The first entry whose key has the given name, or the length of the list. */
  function FirstNamed(es: seq<Entry>, name: Blob): (i: nat)
    ensures i <= |es|
    ensures i < |es| ==> KeyName(es[i].key) == name
    ensures forall j :: 0 <= j < i ==> KeyName(es[j].key) != name
  {
    if es == [] || KeyName(es[0].key) == name then 0 else 1 + FirstNamed(es[1..], name)
  }

  /** The entry a decoded name stands for: of the text key if there is one, of the byte-string key
      with that hexadecimal form otherwise; in either case the entry that came first. */
  function Chosen(es: seq<Entry>, name: Blob): (i: nat)
    requires name in NamesOf(es)
    ensures i < |es| && KeyName(es[i].key) == name
  {
    if FirstIndex(es, KText(name)) < |es| then FirstIndex(es, KText(name)) else FirstNamed(es, name)
  }

  ghost function Meaning(i: Item): Value
    decreases i, 1
  {
    match i
    case IUInt(n) => UInt(n)
    case INegative(n) => Negative(-1 - n)
    case IBool(t) => Bool(t)
    case INull => Nil
    case IBytes(b) => Bytes(b)
    case IText(s) => Text(s)
    case IArray(items) => Array(seq(|items|, k requires 0 <= k < |items| => Meaning(items[k])))
    case IMap(es) => Map(map name | name in NamesOf(es) :: MeaningAt(es, Chosen(es, name)))
  }

  ghost function MeaningAt(es: seq<Entry>, k: nat): Value
    requires k < |es|
    decreases es, 0
  {
    assert es[k].val < es[k];
    Meaning(es[k].val)
  }

  // ---------- round trip ----------

  lemma {:induction false} EncodeAllAt(items: seq<Item>, k: nat)
    requires k < |items|
    ensures EncodeAll(items)[k] == Encode(items[k])
  {
    if k > 0 {
      EncodeAllAt(items[1..], k - 1);
    }
  }

  lemma {:induction false} EncodeEntriesAt(es: seq<Entry>, k: nat)
    requires k < |es|
    ensures EncodeEntries(es)[k] == Pair(EncodeKey(es[k].key), Encode(es[k].val))
  {
    if k > 0 {
      EncodeEntriesAt(es[1..], k - 1);
    }
  }

  lemma EncodedKey(k: Key)
    requires SizedKey(k)
    ensures Names(EncodeKey(k), KeyName(k))
    ensures ValueOf(EncodeKey(k)) == (match k case KText(s) => Text(s) case KBytes(b) => Bytes(b))
  {
    StringComplete(if k.KText? then k.s else k.b);
  }

  lemma EncodedKeysDistinct(k: Key, l: Key)
    requires SizedKey(k) && SizedKey(l) && EncodeKey(k) == EncodeKey(l)
    ensures k == l
  {
    EncodedKey(k);
    EncodedKey(l);
  }

  /** Every encoding is one complete item and decodes to the value's meaning. */
  lemma {:induction false} EncodeDecodes(i: Item)
    requires Sized(i)
    ensures Complete(Encode(i)) && ValueOf(Encode(i)) == Meaning(i)
    decreases i
  {
    match i
    case IUInt(n) => ReadOwnHead(0, n);
    case INegative(n) => ReadOwnHead(1, n);
    case IBool(t) => ReadOwnHead(7, if t then 21 else 20);
    case INull => ReadOwnHead(7, 22);
    case IBytes(b) => StringComplete(b);
    case IText(s) => StringComplete(s);
    case IArray(items) =>
      var vs := EncodeAll(items);
      forall k | 0 <= k < |vs| ensures Complete(vs[k]) && ValueOf(vs[k]) == Meaning(items[k]) {
        EncodeAllAt(items, k);
        EncodeDecodes(items[k]);
      }
      ArrComplete(vs, Meaning(i).items);
    case IMap(es) =>
      forall k | 0 <= k < |es|
        ensures Complete(Encode(es[k].val)) && ValueOf(Encode(es[k].val)) == Meaning(es[k].val)
      {
        assert es[k].val < es[k];
        EncodeDecodes(es[k].val);
      }
      MapDecodesToMeaning(es);
  }

  lemma MapDecodesToMeaning(es: seq<Entry>)
    requires Sized(IMap(es))
    requires forall k :: 0 <= k < |es| ==>
      Complete(Encode(es[k].val)) && ValueOf(Encode(es[k].val)) == Meaning(es[k].val)
    ensures Complete(CMap(EncodeEntries(es))) && ValueOf(CMap(EncodeEntries(es))) == Meaning(IMap(es))
  {
    var ps := EncodeEntries(es);
    EntriesComplete(es);
    var m, m' := DecodedMap(ps), Meaning(IMap(es)).m;
    forall name ensures name in m <==> name in m' {
      NamesAgree(es, name);
      assert name in m' <==> name in NamesOf(es);
    }
    forall name | name in m' ensures m[name] == m'[name] {
      assert m'[name] == MeaningAt(es, Chosen(es, name));
      ChosenDecodes(es, name);
    }
    SameMap(m, m');
  }

  lemma SameMap(m: map<Blob, Value>, m': map<Blob, Value>)
    requires forall name :: name in m <==> name in m'
    requires forall name | name in m' :: m[name] == m'[name]
    ensures m == m'
  {}

  lemma ChosenDecodes(es: seq<Entry>, name: Blob)
    requires Sized(IMap(es)) && AllComplete(EncodeEntries(es)) && name in NamesOf(es)
    requires var v := es[Chosen(es, name)].val; Complete(Encode(v)) && ValueOf(Encode(v)) == Meaning(v)
    ensures name in DecodedMap(EncodeEntries(es))
    ensures DecodedMap(EncodeEntries(es))[name] == MeaningAt(es, Chosen(es, name))
  {
    ChosenIsLast(es, name);
    DecodedBinding(EncodeEntries(es), name, EncodeKey(es[Chosen(es, name)].key));
  }

  lemma EntriesComplete(es: seq<Entry>)
    requires Sized(IMap(es))
    requires forall k :: 0 <= k < |es| ==> Complete(Encode(es[k].val))
    ensures AllComplete(EncodeEntries(es))
  {
    var ps := EncodeEntries(es);
    forall k | 0 <= k < |ps| ensures Complete(ps[k].k) && Complete(ps[k].v) {
      EncodeEntriesAt(es, k);
      EncodedKey(es[k].key);
    }
  }

  lemma OccurringKey(es: seq<Entry>, k: Blob) returns (i: nat)
    requires Occurs(EncodeEntries(es), k)
    ensures i < |es| && k == EncodeKey(es[i].key)
  {
    i := OccursAt(EncodeEntries(es), k);
    EncodeEntriesAt(es, i);
  }

  lemma NamesAgree(es: seq<Entry>, name: Blob)
    requires Sized(IMap(es)) && AllComplete(EncodeEntries(es))
    ensures name in DecodedMap(EncodeEntries(es)) <==> name in NamesOf(es)
  {
    var ps := EncodeEntries(es);
    DecodedNames(ps, name);
    if k :| Occurs(ps, k) && Names(k, name) {
      var i := OccurringKey(es, k);
      EncodedKey(es[i].key);
    }
    if name in NamesOf(es) {
      var i :| 0 <= i < |es| && KeyName(es[i].key) == name;
      EncodedKey(es[i].key);
      EncodeEntriesAt(es, i);
      AtOccurs(ps, i);
    }
  }

  /** The chosen entry's key is the greatest of its name, and its value came first. */
  lemma ChosenIsLast(es: seq<Entry>, name: Blob)
    requires Sized(IMap(es)) && name in NamesOf(es)
    ensures var e := es[Chosen(es, name)];
      && LastNamed(EncodeEntries(es), name, EncodeKey(e.key))
      && FirstValue(EncodeEntries(es), EncodeKey(e.key)) == Some(Encode(e.val))
  {
    var ps := EncodeEntries(es);
    var c := Chosen(es, name);
    EncodedKey(es[c].key);
    EncodeEntriesAt(es, c);
    AtOccurs(ps, c);
    forall k | Occurs(ps, k) && Names(k, name)
      ensures k == EncodeKey(es[c].key) || KeyLess(k, EncodeKey(es[c].key))
    {
      var i := OccurringKey(es, k);
      EncodedKey(es[i].key);
      SameNameOrder(es, name, i);
    }
    assert FirstIndex(es, es[c].key) == c;
    FirstOfEntries(es, es[c].key);
  }

  lemma SameNameOrder(es: seq<Entry>, name: Blob, i: nat)
    requires Sized(IMap(es)) && name in NamesOf(es)
    requires i < |es| && KeyName(es[i].key) == name
    ensures var k, c := es[i].key, es[Chosen(es, name)].key;
      k == c || KeyLess(EncodeKey(k), EncodeKey(c))
  {
    var k, c := es[i].key, es[Chosen(es, name)].key;
    match (k, c)
    case (KText(s), KText(t)) =>
    case (KBytes(a), KBytes(b)) => HexInjective(a, b);
    case (KText(s), KBytes(b)) => assert FirstIndex(es, KText(name)) <= i;
    case (KBytes(a), KText(t)) =>
      EncodedKey(c);
      EncodedKey(k);
      AliasIsGreater(EncodeKey(c), a);
  }

  lemma {:induction false} FirstOfEntries(es: seq<Entry>, key: Key)
    requires SizedKey(key) && forall i :: 0 <= i < |es| ==> SizedKey(es[i].key)
    requires FirstIndex(es, key) < |es|
    ensures FirstValue(EncodeEntries(es), EncodeKey(key)) == Some(Encode(es[FirstIndex(es, key)].val))
  {
    var p := Pair(EncodeKey(es[0].key), Encode(es[0].val));
    WithKeyPrepend(p, EncodeEntries(es[1..]), EncodeKey(key));
    if es[0].key != key {
      if EncodeKey(es[0].key) == EncodeKey(key) {
        EncodedKeysDistinct(es[0].key, key);
      }
      FirstOfEntries(es[1..], key);
    }
  }

  /** Round trip in any context: wherever the encoding of a value stands in a buffer, the decoder
      returns the value's meaning and the position just past it. */
  lemma RoundTrip(i: Item, pre: Blob, post: Blob)
    requires Sized(i)
    ensures Dec(pre + Encode(i) + post, |pre|) == Done(Meaning(i), |pre| + |Encode(i)|)
  {
    EncodeDecodes(i);
    DecInContext(pre, Encode(i), post);
  }

  /** No encoding is a proper prefix of another. */
  lemma EncodingsPrefixFree(i: Item, j: Item)
    requires Sized(i) && Sized(j) && Encode(i) <= Encode(j)
    ensures Encode(i) == Encode(j) && Meaning(i) == Meaning(j)
  {
    EncodeDecodes(i);
    EncodeDecodes(j);
    PrefixFree(Encode(i), Encode(j));
  }

  // ---------- the encoding is a function of the value ----------

  /** Which kind a key has is settled by its decoded name: `texts` holds of the names of text keys
      and of no other, throughout the item. */
  ghost predicate Kinded(i: Item, texts: Blob -> bool)
    decreases i, 1
  {
    match i
    case IArray(items) => forall k :: 0 <= k < |items| ==> Kinded(items[k], texts)
    case IMap(es) =>
      forall k :: 0 <= k < |es| ==>
        KindedKey(es[k].key, texts) && (assert es[k].val < es[k]; Kinded(es[k].val, texts))
    case _ => true
  }

  predicate KindedKey(k: Key, texts: Blob -> bool)
  {
    texts(KeyName(k)) <==> k.KText?
  }

  lemma SameNameSameKey(k: Key, l: Key, texts: Blob -> bool)
    requires KindedKey(k, texts) && KindedKey(l, texts) && KeyName(k) == KeyName(l)
    ensures k == l
  {
    if k.KBytes? {
      HexInjective(k.b, l.b);
    }
  }

  /** Of keyed entries with the same names and, name by name, the same encoded values, each key that
      occurs in one list has the same first value in the other. */
  lemma SameFirst(es: seq<Entry>, fs: seq<Entry>, texts: Blob -> bool, k: Blob)
    requires Sized(IMap(es)) && Sized(IMap(fs)) && Kinded(IMap(es), texts) && Kinded(IMap(fs), texts)
    requires NamesOf(es) == NamesOf(fs)
    requires forall name :: name in NamesOf(es) ==>
      Encode(es[Chosen(es, name)].val) == Encode(fs[Chosen(fs, name)].val)
    requires Occurs(EncodeEntries(es), k)
    ensures FirstValue(EncodeEntries(es), k) == FirstValue(EncodeEntries(fs), k)
  {
    var i := OccurringKey(es, k);
    var name := KeyName(es[i].key);
    assert name in NamesOf(es);
    var c, d := Chosen(es, name), Chosen(fs, name);
    SameNameSameKey(es[c].key, es[i].key, texts);
    SameNameSameKey(fs[d].key, es[i].key, texts);
    ChosenIsLast(es, name);
    ChosenIsLast(fs, name);
  }

  lemma SameMapSameEncoding(es: seq<Entry>, fs: seq<Entry>, texts: Blob -> bool)
    requires Sized(IMap(es)) && Sized(IMap(fs)) && Kinded(IMap(es), texts) && Kinded(IMap(fs), texts)
    requires NamesOf(es) == NamesOf(fs)
    requires forall name :: name in NamesOf(es) ==>
      Encode(es[Chosen(es, name)].val) == Encode(fs[Chosen(fs, name)].val)
    ensures CMap(EncodeEntries(es)) == CMap(EncodeEntries(fs))
  {
    var ps, qs := EncodeEntries(es), EncodeEntries(fs);
    forall k ensures FirstValue(ps, k) == FirstValue(qs, k) {
      if Occurs(ps, k) {
        SameFirst(es, fs, texts, k);
      } else if Occurs(qs, k) {
        SameFirst(fs, es, texts, k);
      }
    }
    CanonicalDependsOnBindings(ps, qs);
  }

  lemma SameItemsSameEncoding(xs: seq<Item>, ys: seq<Item>)
    requires |xs| == |ys| && forall k :: 0 <= k < |xs| ==> Encode(xs[k]) == Encode(ys[k])
    ensures EncodeAll(xs) == EncodeAll(ys)
  {
    forall k | 0 <= k < |xs| ensures EncodeAll(xs)[k] == EncodeAll(ys)[k] {
      EncodeAllAt(xs, k);
      EncodeAllAt(ys, k);
    }
  }

  lemma {:induction false} SameMeaningSameEncoding(i: Item, j: Item, texts: Blob -> bool)
    requires Sized(i) && Sized(j) && Kinded(i, texts) && Kinded(j, texts) && Meaning(i) == Meaning(j)
    ensures Encode(i) == Encode(j)
    decreases i
  {
    match i
    case IArray(xs) =>
      var ys := j.items;
      assert |Meaning(i).items| == |Meaning(j).items|;
      forall k | 0 <= k < |xs| ensures Encode(xs[k]) == Encode(ys[k]) {
        assert Meaning(i).items[k] == Meaning(j).items[k];
        SameMeaningSameEncoding(xs[k], ys[k], texts);
      }
      SameItemsSameEncoding(xs, ys);
    case IMap(es) =>
      var fs := j.entries;
      var m, m' := Meaning(i).m, Meaning(j).m;
      assert m.Keys == NamesOf(es) && m'.Keys == NamesOf(fs);
      forall name | name in NamesOf(es)
        ensures Encode(es[Chosen(es, name)].val) == Encode(fs[Chosen(fs, name)].val)
      {
        assert m[name] == m'[name];
        assert es[Chosen(es, name)].val < es[Chosen(es, name)];
        SameMeaningSameEncoding(es[Chosen(es, name)].val, fs[Chosen(fs, name)].val, texts);
      }
      SameMapSameEncoding(es, fs, texts);
    case _ =>
  }

  /** The nested encoding is a function of the value alone, and determines it: order and repetition
      of entries, at any depth, leave no trace. */
  lemma EncodingIsOfTheValue(i: Item, j: Item, texts: Blob -> bool)
    requires Sized(i) && Sized(j) && Kinded(i, texts) && Kinded(j, texts)
    ensures Encode(i) == Encode(j) <==> Meaning(i) == Meaning(j)
  {
    EncodeDecodes(i);
    EncodeDecodes(j);
    if Meaning(i) == Meaning(j) {
      SameMeaningSameEncoding(i, j, texts);
    }
  }

  /** Decoding a canonical item and encoding any item with the decoded value reproduces the bytes. */
  lemma ReencodeWholeValue(s: Blob, i: Item, j: Item, texts: Blob -> bool)
    requires Sized(i) && Sized(j) && Kinded(i, texts) && Kinded(j, texts) && s == Encode(i)
    requires Complete(s) && Meaning(j) == ValueOf(s)
    ensures Encode(j) == s
  {
    EncodeDecodes(i);
    EncodingIsOfTheValue(i, j, texts);
  }

  /** A text key and a byte-string key with one name: in either order of the input, the decoder finds
      the text key's value, and the byte-string key's value is lost. */
  lemma TextKeyHidesByteKey(h: Blob, v: Item, w: Item)
    requires |h| < TWO_63 && Sized(v) && Sized(w)
    ensures forall es :: es in [ [Entry(KBytes(h), v), Entry(KText(Hex(h)), w)],
                                 [Entry(KText(Hex(h)), w), Entry(KBytes(h), v)] ] ==>
      var s := Encode(IMap(es)); Dec(s, 0) == Done(Map(map[Hex(h) := Meaning(w)]), |s|)
  {
    HiddenIn([Entry(KBytes(h), v), Entry(KText(Hex(h)), w)], 1, h, w);
    HiddenIn([Entry(KText(Hex(h)), w), Entry(KBytes(h), v)], 0, h, w);
  }

  lemma HiddenIn(es: seq<Entry>, i: nat, h: Blob, w: Item)
    requires |es| == 2 && i < 2 && Sized(IMap(es))
    requires es[i] == Entry(KText(Hex(h)), w) && es[1 - i].key == KBytes(h)
    ensures var s := Encode(IMap(es)); Dec(s, 0) == Done(Map(map[Hex(h) := Meaning(w)]), |s|)
  {
    assert FirstIndex(es, KText(Hex(h))) == i by {
      assert es[1 - i].key != KText(Hex(h)) && es[i].key == KText(Hex(h));
      FirstOfTwo(es, KText(Hex(h)));
    }
    assert NamesOf(es) == {Hex(h)} by {
      assert KeyName(es[i].key) == Hex(h) && KeyName(es[1 - i].key) == Hex(h);
    }
    var m := Meaning(IMap(es)).m;
    assert m.Keys == {Hex(h)};
    assert Chosen(es, Hex(h)) == i && es[i].val == w;
    assert m[Hex(h)] == MeaningAt(es, i) == Meaning(w);
    assert m == map[Hex(h) := Meaning(w)];
    EncodeDecodes(IMap(es));
  }

  lemma FirstOfTwo(es: seq<Entry>, k: Key)
    requires |es| == 2
    ensures FirstIndex(es, k) == if es[0].key == k then 0 else if es[1].key == k then 1 else 2
  {
    assert es[1..][0] == es[1] && es[1..][1..] == [];
  }
}
