/** Entities: a type, data and the content hash of both. The hash function is a parameter. */
module Entities {
  import opened Bytes
  import opened Heads
  import opened Decoder
  import opened CanonicalMap
  import opened Slicer
  import opened Denotation

  /** SHA-256 and Ed25519 signing, uninterpreted. */
  datatype Crypto = Crypto(sha256: Blob -> Blob, sign: (Blob, Blob) -> Blob)
  {
    ghost predicate Sizes()
    {
      && (forall x :: |sha256(x)| == 32)
      && (forall key, msg :: |sign(key, msg)| == 64)
    }
  }

  function BasisPairs(typ: Blob, data: Blob): seq<Pair>
  {
    [Pair(Txt(Ascii("type")), Txt(typ)), Pair(Txt(Ascii("data")), data)]
  }

  function EntityBasis(typ: Blob, data: Blob): Blob
  {
    CMap(BasisPairs(typ, data))
  }

  function ContentHash(c: Crypto, typ: Blob, data: Blob): Blob
  {
    [0] + c.sha256(EntityBasis(typ, data))
  }

  /** An entity's fields with whatever content hash it claims. */
  function Claiming(typ: Blob, data: Blob, h: Blob): seq<Pair>
  {
    BasisPairs(typ, data) + [Pair(Txt(Ascii("content_hash")), Bstr(h))]
  }

  function EntityPairs(c: Crypto, typ: Blob, data: Blob): seq<Pair>
  {
    Claiming(typ, data, ContentHash(c, typ, data))
  }

  function Entity(c: Crypto, typ: Blob, data: Blob): Blob
  {
    CMap(EntityPairs(c, typ, data))
  }

  // ---------- maps with distinct text labels ----------

  /** The pairs are filed under the given text labels, all different. */
  ghost predicate Labelled(ps: seq<Pair>, labels: seq<Blob>)
  {
    && |ps| == |labels|
    && (forall i :: 0 <= i < |ps| ==> |labels[i]| < TWO_64 && ps[i].k == Txt(labels[i]))
    && (forall i, j :: 0 <= i < j < |labels| ==> labels[i] != labels[j])
  }

  lemma LabelledKeysDiffer(ps: seq<Pair>, labels: seq<Blob>, i: nat, j: nat)
    requires Labelled(ps, labels) && i < j < |ps|
    ensures ps[i].k != ps[j].k
  {
    StringComplete(labels[i]);
    StringComplete(labels[j]);
  }

  lemma {:induction false} LabelledValues(ps: seq<Pair>, labels: seq<Blob>, k: Blob)
    requires Labelled(ps, labels)
    ensures |WithKey(ps, k)| <= 1
    ensures forall i :: 0 <= i < |ps| && ps[i].k == k ==> WithKey(ps, k) == [ps[i].v]
  {
    if ps != [] {
      var n := |ps| - 1;
      LabelledValues(ps[..n], labels[..n], k);
      if ps[n].k == k {
        WithKeyNonempty(ps[..n], k);
        if WithKey(ps[..n], k) != [] {
          var i :| 0 <= i < n && ps[..n][i].k == k;
          LabelledKeysDiffer(ps, labels, i, n);
        }
        forall i | 0 <= i < |ps| && ps[i].k == k ensures i == n {
          if i < n {
            LabelledKeysDiffer(ps, labels, i, n);
          }
        }
      } else {
        forall i | 0 <= i < |ps| && ps[i].k == k ensures WithKey(ps, k) == [ps[i].v] {
          assert ps[..n][i] == ps[i];
        }
      }
    }
  }

  lemma LabelledDistinct(ps: seq<Pair>, labels: seq<Blob>)
    requires Labelled(ps, labels)
    ensures DistinctKeys(ps)
  {
    forall k ensures |WithKey(ps, k)| <= 1 {
      LabelledValues(ps, labels, k);
    }
  }

  /** Each label is decoded to the value filed under it. */
  lemma FieldBinding(ps: seq<Pair>, labels: seq<Blob>, i: nat)
    requires Labelled(ps, labels) && AllComplete(ps) && |ps| < TWO_64 && i < |ps|
    ensures labels[i] in DecodedMap(ps) && DecodedMap(ps)[labels[i]] == ValueOf(ps[i].v)
  {
    LabelledValues(ps, labels, ps[i].k);
    StringComplete(labels[i]);
    forall k | Occurs(ps, k) && Names(k, labels[i]) ensures k == ps[i].k {
      var j := OccursAt(ps, k);
      StringComplete(labels[j]);
    }
    assert LastNamed(ps, labels[i], ps[i].k);
    DecodedBinding(ps, labels[i], ps[i].k);
  }

  lemma LabelledComplete(ps: seq<Pair>, labels: seq<Blob>)
    requires Labelled(ps, labels) && |ps| < TWO_64
    requires forall i :: 0 <= i < |ps| ==> Complete(ps[i].v)
    ensures AllComplete(ps) && Complete(CMap(ps))
    ensures ValueOf(CMap(ps)) == Map(DecodedMap(ps))
  {
    forall i | 0 <= i < |ps| ensures Complete(ps[i].k) {
      StringComplete(labels[i]);
    }
    CMapComplete(ps);
  }

  // ---------- entities decode to their fields ----------

  lemma BasisLabelled(typ: Blob, data: Blob, h: Blob)
    ensures Labelled(Claiming(typ, data, h), [Ascii("type"), Ascii("data"), Ascii("content_hash")])
    ensures Labelled(BasisPairs(typ, data), [Ascii("type"), Ascii("data")])
  {
    assert Ascii("type")[0] != Ascii("data")[0];
  }

  lemma ClaimDecodes(typ: Blob, data: Blob, h: Blob)
    requires Complete(data) && |typ| < TWO_64 && |h| < TWO_64
    ensures AllComplete(BasisPairs(typ, data))
    ensures var c := CMap(Claiming(typ, data, h));
      && Complete(c) && ValueOf(c).Map?
      && var m := ValueOf(c).m;
         && Ascii("type") in m && m[Ascii("type")] == Text(typ)
         && Ascii("data") in m && m[Ascii("data")] == ValueOf(data)
         && Ascii("content_hash") in m && m[Ascii("content_hash")] == Bytes(h)
  {
    var ps := Claiming(typ, data, h);
    var labels := [Ascii("type"), Ascii("data"), Ascii("content_hash")];
    BasisLabelled(typ, data, h);
    StringComplete(typ);
    StringComplete(h);
    LabelledComplete(ps, labels);
    LabelledComplete(BasisPairs(typ, data), labels[..2]);
    FieldBinding(ps, labels, 0);
    FieldBinding(ps, labels, 1);
    FieldBinding(ps, labels, 2);
  }

  lemma EntityDecodes(c: Crypto, typ: Blob, data: Blob)
    requires c.Sizes() && Complete(data) && |typ| < TWO_64
    ensures Complete(Entity(c, typ, data)) && ValueOf(Entity(c, typ, data)).Map?
    ensures var m := ValueOf(Entity(c, typ, data)).m;
      && Ascii("type") in m && m[Ascii("type")] == Text(typ)
      && Ascii("data") in m && m[Ascii("data")] == ValueOf(data)
      && Ascii("content_hash") in m && m[Ascii("content_hash")] == Bytes(ContentHash(c, typ, data))
  {
    assert |ContentHash(c, typ, data)| == 33;
    ClaimDecodes(typ, data, ContentHash(c, typ, data));
  }

  // ---------- content addressing ----------

  /** The hashed bytes determine the type and the data, and conversely. */
  lemma BasisInjective(t1: Blob, d1: Blob, t2: Blob, d2: Blob)
    requires Complete(d1) && Complete(d2) && |t1| < TWO_64 && |t2| < TWO_64
    ensures EntityBasis(t1, d1) == EntityBasis(t2, d2) <==> t1 == t2 && d1 == d2
  {
    var p, q := BasisPairs(t1, d1), BasisPairs(t2, d2);
    ClaimDecodes(t1, d1, []);
    ClaimDecodes(t2, d2, []);
    if EntityBasis(t1, d1) == EntityBasis(t2, d2) {
      CMapInjective(p, q);
      var labels := [Ascii("type"), Ascii("data")];
      BasisLabelled(t1, d1, []);
      BasisLabelled(t2, d2, []);
      forall i | 0 <= i < 2 ensures p[i].v == q[i].v {
        LabelledValues(p, labels, p[i].k);
        LabelledValues(q, labels, p[i].k);
        assert FirstValue(p, p[i].k) == FirstValue(q, p[i].k);
      }
      assert p[0].v == q[0].v && p[1].v == q[1].v;
      StringComplete(t1);
      StringComplete(t2);
    }
  }

  /** Equal content hashes mean equal type and equal data, or exhibit two inputs on which the hash
      function collides. */
  lemma ContentAddressing(c: Crypto, t1: Blob, d1: Blob, t2: Blob, d2: Blob)
    requires Complete(d1) && Complete(d2) && |t1| < TWO_64 && |t2| < TWO_64
    requires ContentHash(c, t1, d1) == ContentHash(c, t2, d2)
    ensures (t1 == t2 && d1 == d2)
         || (EntityBasis(t1, d1) != EntityBasis(t2, d2)
             && c.sha256(EntityBasis(t1, d1)) == c.sha256(EntityBasis(t2, d2)))
  {
    BasisInjective(t1, d1, t2, d2);
    assert ContentHash(c, t1, d1)[1..] == c.sha256(EntityBasis(t1, d1));
    assert ContentHash(c, t2, d2)[1..] == c.sha256(EntityBasis(t2, d2));
  }

  lemma TwoValues(p: Pair, q: Pair, k: Blob)
    ensures WithKey([p, q], k) == (if p.k == k then [p.v] else []) + (if q.k == k then [q.v] else [])
  {
    assert [p, q] == [p] + [q] && [p] == [] + [p];
    WithKeyAppend([], p, k);
    WithKeyAppend([p], q, k);
  }

  lemma SwapBindings(p: Pair, q: Pair)
    requires p.k != q.k
    ensures SameBindings([p, q], [q, p])
  {
    forall k ensures FirstValue([p, q], k) == FirstValue([q, p], k) {
      TwoValues(p, q, k);
      TwoValues(q, p, k);
    }
  }

  lemma FlattenTwo(p: Pair, q: Pair)
    ensures Flatten([p, q]) == p.k + p.v + q.k + q.v
  {
    FlattenCons(p, [q]);
    FlattenCons(q, []);
    assert [p, q] == [p] + [q] && [q] == [q] + [];
    assert p.k + p.v + (q.k + q.v + []) == p.k + p.v + q.k + q.v;
  }

  lemma DataBeforeType()
    ensures KeyLess(Txt(Ascii("data")), Txt(Ascii("type")))
  {
    assert Ascii("data")[0] < Ascii("type")[0];
    KeyOrderOnContents(Ascii("data"), Ascii("type"));
  }

  lemma TwoInOrder(t: Pair, d: Pair)
    requires KeyLess(d.k, t.k)
    ensures Canonical([t, d]) == [d, t]
  {
    KeyOrderTotal(d.k, t.k);
    SwapBindings(t, d);
    CanonicalDependsOnBindings([t, d], [d, t]);
    CanonicalFixpoint([d, t]);
  }

  /** "data" comes before "type" in the hashed bytes. */
  lemma BasisLayout(typ: Blob, data: Blob)
    ensures EntityBasis(typ, data)
         == Head(5, 2) + (Txt(Ascii("data")) + data + Txt(Ascii("type")) + Txt(typ))
  {
    var t, d := Pair(Txt(Ascii("type")), Txt(typ)), Pair(Txt(Ascii("data")), data);
    DataBeforeType();
    TwoInOrder(t, d);
    FlattenTwo(d, t);
  }

  /** Completeness of the data is needed: cut data can shift bytes between data and type. */
  lemma IncompleteDataWitness()
    ensures var t: Blob := [0x64] + Ascii("type") + [0x60];
      EntityBasis(t, [0]) == EntityBasis([], [0] + Txt(Ascii("type")) + [0x66])
  {
    var t: Blob := [0x64] + Ascii("type") + [0x60];
    var k := Txt(Ascii("type"));
    BasisLayout(t, [0]);
    BasisLayout([], [0] + k + [0x66]);
    assert k == [0x64] + Ascii("type") by {
      assert Head(3, 4) == [0x64];
    }
    assert Txt([]) == [0x60] by {
      assert Head(3, 0) == [0x60];
    }
    assert Txt(t) == [0x66] + k + [0x60] by {
      assert Head(3, 6) == [0x66];
    }
    var d := Txt(Ascii("data"));
    assert d + [0] + k + ([0x66] + k + [0x60]) == d + ([0] + k + [0x66]) + k + [0x60];
  }
}
