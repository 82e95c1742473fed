/** What an encoded map means to the decoder: which of its entries each decoded name is bound to. */
module Denotation {
  import opened Options
  import opened Bytes
  import opened Heads
  import opened Decoder
  import opened CanonicalMap
  import opened Slicer

  // ---------- the Go map built from a list of bindings ----------

  lemma {:induction false} MapOfLast(kvs: seq<Binding>, i: nat, s: Blob)
    requires i < |kvs| && NameOf(kvs[i].0) == Some(s)
    requires forall j :: i < j < |kvs| ==> NameOf(kvs[j].0) != Some(s)
    ensures s in MapOf(kvs) && MapOf(kvs)[s] == kvs[i].1
  {
    var n := |kvs| - 1;
    if i < n {
      MapOfLast(kvs[..n], i, s);
    }
  }

  lemma {:induction false} MapOfNames(kvs: seq<Binding>, s: Blob)
    ensures s in MapOf(kvs) <==> exists i :: 0 <= i < |kvs| && NameOf(kvs[i].0) == Some(s)
  {
    if kvs != [] {
      var n := |kvs| - 1;
      MapOfNames(kvs[..n], s);
      if s in MapOf(kvs[..n]) {
        var i :| 0 <= i < n && NameOf(kvs[..n][i].0) == Some(s);
        assert NameOf(kvs[i].0) == Some(s);
      }
      if i :| 0 <= i < |kvs| && NameOf(kvs[i].0) == Some(s) {
        assert i < n ==> kvs[..n][i] == kvs[i];
      }
    }
  }

  // ---------- names ----------

  /** `k` is an encoded key that the decoder files under the name `s`. */
  predicate Names(k: Blob, s: Blob)
  {
    Complete(k) && NameOf(ValueOf(k)) == Some(s)
  }

  ghost predicate Occurs(ps: seq<Pair>, k: Blob)
  {
    FirstValue(ps, k).Some?
  }

  /** `k` is the greatest key of `ps`, in encoded order, among those with the name `s`. */
  ghost predicate LastNamed(ps: seq<Pair>, s: Blob, k: Blob)
  {
    && Occurs(ps, k) && Names(k, s)
    && forall k' :: Occurs(ps, k') && Names(k', s) ==> k' == k || KeyLess(k', k)
  }

  lemma OccursAt(ps: seq<Pair>, k: Blob) returns (i: nat)
    requires Occurs(ps, k)
    ensures i < |ps| && ps[i].k == k
  {
    WithKeyNonempty(ps, k);
    i :| 0 <= i < |ps| && ps[i].k == k;
  }

  lemma AtOccurs(ps: seq<Pair>, i: nat)
    requires i < |ps|
    ensures Occurs(ps, ps[i].k)
  {
    WithKeyNonempty(ps, ps[i].k);
  }

  lemma {:induction false} WithKeyMembers(ps: seq<Pair>, k: Blob)
    ensures forall v :: v in WithKey(ps, k) ==> Pair(k, v) in ps
  {
    if ps != [] {
      var n := |ps| - 1;
      WithKeyMembers(ps[..n], k);
      forall v | v in WithKey(ps, k) ensures Pair(k, v) in ps {
        if v in WithKey(ps[..n], k) {
          assert Pair(k, v) in ps[..n];
        } else {
          assert ps[n] == Pair(k, v);
        }
      }
    }
  }

  lemma FirstValueComplete(ps: seq<Pair>, k: Blob)
    requires AllComplete(ps) && Occurs(ps, k)
    ensures Complete(k) && Complete(FirstValue(ps, k).value)
    ensures Pair(k, FirstValue(ps, k).value) in ps
  {
    var v := FirstValue(ps, k).value;
    assert v in WithKey(ps, k);
    WithKeyMembers(ps, k);
    var i :| 0 <= i < |ps| && ps[i] == Pair(k, v);
  }

  /** The decoded Go map of an encoded map. */
  ghost function DecodedMap(ps: seq<Pair>): (m: map<Blob, Value>)
    requires AllComplete(ps) && |ps| < TWO_64
    ensures Complete(CMap(ps)) && ValueOf(CMap(ps)) == Map(m)
  {
    CMapComplete(ps);
    MapOf(Bindings(Canonical(ps)))
  }

  /** The decoded map binds a name to the value that came first in the input for the greatest
      encoded key of that name, whatever else the list contains. */
  lemma DecodedBinding(ps: seq<Pair>, s: Blob, k: Blob)
    requires AllComplete(ps) && |ps| < TWO_64 && LastNamed(ps, s, k)
    ensures Complete(FirstValue(ps, k).value)
    ensures s in DecodedMap(ps) && DecodedMap(ps)[s] == ValueOf(FirstValue(ps, k).value)
  {
    var c := Canonical(ps);
    FirstValueComplete(ps, k);
    CanonicalComplete(ps);
    CanonicalFacts(ps);
    assert WithKey(c, k) == [FirstValue(ps, k).value];
    var i := OccursAt(c, k);
    WithKeyStrict(c, i);
    var kvs := Bindings(c);
    forall j | i < j < |kvs| ensures NameOf(kvs[j].0) != Some(s) {
      AtOccurs(c, j);
      assert FirstValue(c, c[j].k) == FirstValue(ps, c[j].k);
      KeyOrderTotal(c[i].k, c[j].k);
      assert Names(c[j].k, s) ==> Occurs(ps, c[j].k);
    }
    MapOfLast(kvs, i, s);
  }

  /** A name is bound exactly when some key of the input has it. */
  lemma DecodedNames(ps: seq<Pair>, s: Blob)
    requires AllComplete(ps) && |ps| < TWO_64
    ensures s in DecodedMap(ps) <==> exists k :: Occurs(ps, k) && Names(k, s)
  {
    var c := Canonical(ps);
    CanonicalComplete(ps);
    CanonicalFacts(ps);
    MapOfNames(Bindings(c), s);
    if s in DecodedMap(ps) {
      var i :| 0 <= i < |c| && NameOf(Bindings(c)[i].0) == Some(s);
      AtOccurs(c, i);
      assert FirstValue(c, c[i].k) == FirstValue(ps, c[i].k);
      assert Occurs(ps, c[i].k) && Names(c[i].k, s);
    }
    if k :| Occurs(ps, k) && Names(k, s) {
      assert FirstValue(c, k) == FirstValue(ps, k);
      var i := OccursAt(c, k);
      assert NameOf(Bindings(c)[i].0) == Some(s);
    }
  }

  // ---------- other encodings of a byte-string key's name ----------

  /** A key that is not the encoder's own `bstr(h)` but has the same name: `h` under a longer head,
      or a text key spelling `h` in hexadecimal. */
  predicate Alias(k: Blob, h: Blob)
  {
    Names(k, Hex(h)) && k != Bstr(h)
  }

  lemma StringShape(k: Blob)
    requires Complete(k) && (ValueOf(k).Text? || ValueOf(k).Bytes?)
    ensures var r := ReadHead(k, 0);
      && r.GoodHead? && r.major == (if ValueOf(k).Text? then 3 else 2)
      && r.next + r.arg == |k|
      && k[r.next..] == (if ValueOf(k).Text? then ValueOf(k).s else ValueOf(k).b)
  {
    var r := ReadHead(k, 0);
    assert Dec(k, 0) == DecBody(k, r.next, r.major, r.arg);
    assert r.next + r.arg == |k|;
    assert k[r.next..r.next + r.arg] == k[r.next..];
  }

  /** Among all keys with one hexadecimal name the encoder's own byte-string key is the least. */
  lemma AliasIsGreater(k: Blob, h: Blob)
    requires Alias(k, h)
    ensures KeyLess(Bstr(h), k)
  {
    StringShape(k);
    var r := ReadHead(k, 0);
    HeadIsShortest(k, 0);
    assert k == k[..r.next] + k[r.next..];
    assert k[0..r.next] == k[..r.next];
    if ValueOf(k).Bytes? {
      HexInjective(ValueOf(k).b, h);
    } else {
      assert r.arg == 2 * |h|;
      HeadLengthMonotone(2, 3, |h|, r.arg);
      if h == [] && |k| == 1 {
        assert k == Head(3, 0) + [] && Bstr(h)[0] < k[0];
      }
    }
  }

  /** With no alias in the list, the decoded map binds the name of `h` to the value that came first
      under `bstr(h)`. */
  lemma HashBinding(ps: seq<Pair>, h: Blob)
    requires AllComplete(ps) && |ps| < TWO_64 && |h| < TWO_64
    requires Occurs(ps, Bstr(h))
    requires forall k :: Occurs(ps, k) ==> !Alias(k, h)
    ensures Complete(FirstValue(ps, Bstr(h)).value)
    ensures Hex(h) in DecodedMap(ps)
    ensures DecodedMap(ps)[Hex(h)] == ValueOf(FirstValue(ps, Bstr(h)).value)
  {
    OwnKeyLast(ps, h);
    DecodedBinding(ps, Hex(h), Bstr(h));
  }

  lemma OwnName(h: Blob)
    requires |h| < TWO_64
    ensures Names(Bstr(h), Hex(h))
  {
    StringComplete(h);
  }

  lemma OwnKeyLast(ps: seq<Pair>, h: Blob)
    requires |h| < TWO_64 && Occurs(ps, Bstr(h))
    requires forall k :: Occurs(ps, k) ==> !Alias(k, h)
    ensures LastNamed(ps, Hex(h), Bstr(h))
  {
    OwnName(h);
    OnlyNameLast(ps, Hex(h), Bstr(h));
  }

  lemma OnlyNameLast(ps: seq<Pair>, s: Blob, own: Blob)
    requires Occurs(ps, own) && Names(own, s)
    requires forall k :: Occurs(ps, k) ==> !(Names(k, s) && k != own)
    ensures LastNamed(ps, s, own)
  {}

  /** With an alias in the list, the decoded map binds the name to the value that came first under
      the greatest alias instead. */
  lemma AliasBinding(ps: seq<Pair>, h: Blob, a: Blob) returns (k: Blob)
    requires AllComplete(ps) && |ps| < TWO_64
    requires Occurs(ps, a) && Alias(a, h)
    ensures LastNamed(ps, Hex(h), k) && Alias(k, h) && Complete(FirstValue(ps, k).value)
    ensures Hex(h) in DecodedMap(ps)
    ensures DecodedMap(ps)[Hex(h)] == ValueOf(FirstValue(ps, k).value)
  {
    k := GreatestNamed(ps, Hex(h), a);
    AliasIsGreater(a, h);
    KeyOrderTotal(a, Bstr(h));
    DecodedBinding(ps, Hex(h), k);
  }

  ghost predicate NoAlias(ps: seq<Pair>, h: Blob)
  {
    forall k :: Occurs(ps, k) ==> !Alias(k, h)
  }

  /** What a reader of the decoded list finds at the address `h`. */
  ghost function BoundAt(ps: seq<Pair>, h: Blob): Option<Value>
    requires AllComplete(ps) && |ps| < TWO_64
  {
    if Hex(h) in DecodedMap(ps) then Some(DecodedMap(ps)[Hex(h)]) else None
  }

  /** The value that came first under the key `k`. */
  ghost function ValueAt(ps: seq<Pair>, k: Blob): Option<Value>
    requires AllComplete(ps)
  {
    if Occurs(ps, k) then
      FirstValueComplete(ps, k);
      Some(ValueOf(FirstValue(ps, k).value))
    else None
  }

  lemma BoundWithoutAlias(ps: seq<Pair>, h: Blob)
    requires AllComplete(ps) && |ps| < TWO_64 && |h| < TWO_64 && NoAlias(ps, h)
    ensures BoundAt(ps, h) == ValueAt(ps, Bstr(h))
  {
    if Occurs(ps, Bstr(h)) {
      HashBinding(ps, h);
    } else {
      DecodedNames(ps, Hex(h));
      forall k | Occurs(ps, k) ensures !Names(k, Hex(h)) {
        assert !Alias(k, h);
      }
    }
  }

  /** An alias decides what is found, and only the aliases do: lists that agree on them agree on the
      address, whatever each files under the address itself. */
  lemma AliasDecides(ps: seq<Pair>, qs: seq<Pair>, h: Blob)
    requires AllComplete(ps) && |ps| < TWO_64 && AllComplete(qs) && |qs| < TWO_64
    requires forall k :: Alias(k, h) ==> FirstValue(ps, k) == FirstValue(qs, k)
    requires !NoAlias(ps, h)
    ensures BoundAt(ps, h) == BoundAt(qs, h)
  {
    var a :| Occurs(ps, a) && Alias(a, h);
    var k := AliasBinding(ps, h, a);
    forall k' | Occurs(qs, k') && Names(k', Hex(h)) ensures k' == k || KeyLess(k', k) {
      if k' == Bstr(h) {
        AliasIsGreater(k, h);
      } else {
        assert Alias(k', h);
        assert Occurs(ps, k');
      }
    }
    assert LastNamed(qs, Hex(h), k);
    DecodedBinding(qs, Hex(h), k);
  }

  lemma {:induction false} GreatestNamed(ps: seq<Pair>, s: Blob, a: Blob) returns (k: Blob)
    requires Occurs(ps, a) && Names(a, s)
    ensures LastNamed(ps, s, k) && (k == a || KeyLess(a, k))
  {
    k := a;
    var i := 0;
    while i < |ps|
      invariant 0 <= i <= |ps|
      invariant Occurs(ps, k) && Names(k, s) && (k == a || KeyLess(a, k))
      invariant forall j :: 0 <= j < i && Names(ps[j].k, s) ==> ps[j].k == k || KeyLess(ps[j].k, k)
    {
      AtOccurs(ps, i);
      KeyOrderTotal(ps[i].k, k);
      if Names(ps[i].k, s) && KeyLess(k, ps[i].k) {
        if k != a {
          KeyOrderTransitive(a, k, ps[i].k);
        }
        forall j | 0 <= j < i && Names(ps[j].k, s) ensures KeyLess(ps[j].k, ps[i].k) {
          if ps[j].k != k {
            KeyOrderTransitive(ps[j].k, k, ps[i].k);
          }
        }
        k := ps[i].k;
      }
      i := i + 1;
    }
    forall k' | Occurs(ps, k') && Names(k', s) ensures k' == k || KeyLess(k', k) {
      var j := OccursAt(ps, k');
    }
  }
}
