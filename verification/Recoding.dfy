/** Re-encoding a whole item from its raw parts, at every depth: shortest heads, and maps in canonical
    order. It is the identity on canonical items and on no others. */
module Recoding {
  import opened Options
  import opened Bytes
  import opened Heads
  import opened Decoder
  import opened CanonicalMap
  import opened Slicer
  import opened Denotation
  import opened Arrays

  // ---------- the raw parts of an item ----------

  /** The raw bytes of `n` items from `p` on. */
  function Cuts(b: Blob, p: nat, n: nat): (r: Decoded<seq<Blob>>)
    requires p <= |b|
    ensures r.Done? ==> p <= r.next <= |b| && |r.value| == n
    decreases n
  {
    if n == 0 then Done([], p)
    else
      match Dec(b, p)
      case Fail(e) => Fail(e)
      case Done(_, q) => After([b[p..q]], Cuts(b, q, n - 1))
  }

  ghost predicate AllWhole(vs: seq<Blob>)
  {
    forall i :: 0 <= i < |vs| ==> Complete(vs[i])
  }

  lemma ConcatCons(v: Blob, vs: seq<Blob>)
    ensures Concat([v] + vs) == v + Concat(vs)
  {
    assert ([v] + vs)[1..] == vs;
  }

  lemma WholeCons(v: Blob, vs: seq<Blob>)
    requires Complete(v) && AllWhole(vs)
    ensures AllWhole([v] + vs)
  {
    forall i | 0 <= i < |vs| + 1 ensures Complete(([v] + vs)[i]) {
      assert ([v] + vs)[i] == if i == 0 then v else vs[i - 1];
    }
  }

  lemma CutsFirst(b: Blob, p: nat, n: nat, left: nat, q: nat, vs: seq<Blob>, r: nat)
    requires p <= q <= |b| && n == left + 1 && Dec(b, p).Done? && Dec(b, p).next == q
    requires Cuts(b, q, left) == Done(vs, r)
    ensures Cuts(b, p, n) == Done([b[p..q]] + vs, r)
  {}

  /** Where the decoder reads items, the cuts are complete items that tile the bytes read. */
  lemma {:induction false} CutsFacts(b: Blob, p: nat, n: nat)
    requires p <= |b| && DecItems(b, p, n).Done?
    ensures var r := Cuts(b, p, n);
      r.Done? && r.next == DecItems(b, p, n).next && AllWhole(r.value) && b[p..r.next] == Concat(r.value)
    decreases n
  {
    if n > 0 {
      var left := n - 1;
      var v, q, vs, r := ItemsParts(b, p, n);
      CutsFacts(b, q, left);
      var rest := Cuts(b, q, left).value;
      CutsFirst(b, p, n, left, q, rest, r);
      SpanIsComplete(b, p);
      WholeCons(b[p..q], rest);
      ConcatCons(b[p..q], rest);
      Adjacent(b, p, q, r);
    }
  }

  lemma FirstWhole(b: Blob, p: nat, v: Blob, u: Blob)
    requires Complete(v) && p <= |b| && b[p..] == v + u
    ensures var q := p + |v|; q <= |b| && Dec(b, p) == Done(ValueOf(v), q) && b[p..q] == v && b[q..] == u
  {
    var t, q := b[p..], p + |v|;
    assert |t| == |v| + |u|;
    assert b[p..q] == t[..|v|] == v && b[q..] == t[|v|..] == u;
    DecAt(b, p, v);
  }

  lemma {:induction false} CutsOfConcat(vs: seq<Blob>, b: Blob, p: nat)
    requires AllWhole(vs) && p <= |b| && b[p..] == Concat(vs)
    ensures Cuts(b, p, |vs|) == Done(vs, |b|)
  {
    if vs != [] {
      var v, rest, n, left := vs[0], vs[1..], |vs|, |vs| - 1;
      var q := p + |v|;
      assert Concat(vs) == v + Concat(rest);
      FirstWhole(b, p, v, Concat(rest));
      assert AllWhole(rest) && vs == [v] + rest;
      CutsOfConcat(rest, b, q);
      CutsFirst(b, p, n, left, q, rest, |b|);
    }
  }

  lemma {:induction false} PartOfConcat(vs: seq<Blob>, i: nat)
    requires i < |vs|
    ensures |vs[i]| <= |Concat(vs)|
  {
    if i > 0 {
      PartOfConcat(vs[1..], i - 1);
    }
  }

  lemma {:induction false} PartOfFlatten(es: seq<Pair>, i: nat)
    requires i < |es|
    ensures |es[i].k| + |es[i].v| <= |Flatten(es)|
  {
    if i > 0 {
      PartOfFlatten(es[1..], i - 1);
    }
  }

  // ---------- shapes ----------

  function Major(s: Blob): nat
    requires Complete(s)
  {
    ReadHead(s, 0).major
  }

  function Arg(s: Blob): (n: nat)
    requires Complete(s)
    ensures n < TWO_64
  {
    ReadHead(s, 0).arg
  }

  /** The head as it is written, and what follows it. */
  function HeadOf(s: Blob): Blob
    requires Complete(s)
  {
    s[..ReadHead(s, 0).next]
  }

  function Rest(s: Blob): (r: Blob)
    requires Complete(s)
    ensures |r| < |s|
  {
    s[ReadHead(s, 0).next..]
  }

  lemma BodyOf(s: Blob)
    requires Complete(s)
    ensures ReadHead(s, 0) == GoodHead(Major(s), Arg(s), |HeadOf(s)|)
    ensures DecBody(s, |HeadOf(s)|, Major(s), Arg(s)) == Done(ValueOf(s), |s|)
  {
    assert ReadHead(s, 0).GoodHead?;
    DecUnfold(s, 0, Major(s), Arg(s), |HeadOf(s)|);
  }

  lemma BodyOfArray(s: Blob, p: nat, n: nat)
    requires p <= |s| && n < TWO_64 && DecBody(s, p, 4, n).Done? && DecBody(s, p, 4, n).next == |s|
    ensures DecItems(s, p, n).Done? && DecItems(s, p, n).next == |s|
  {}

  lemma BodyOfMap(s: Blob, p: nat, n: nat)
    requires p <= |s| && n < TWO_64 && DecBody(s, p, 5, n).Done? && DecBody(s, p, 5, n).next == |s|
    ensures DecBindings(s, p, n).Done? && DecBindings(s, p, n).next == |s|
    ensures DecBody(s, p, 5, n).value == Map(MapOf(DecBindings(s, p, n).value))
  {}

  lemma ArrayShape(s: Blob)
    requires Complete(s) && Major(s) == 4
    ensures var r := Cuts(s, |HeadOf(s)|, Arg(s));
      && r.Done? && |r.value| == Arg(s) && AllWhole(r.value) && Rest(s) == Concat(r.value)
      && forall i :: 0 <= i < |r.value| ==> |r.value[i]| < |s|
  {
    var p := |HeadOf(s)|;
    BodyOf(s);
    BodyOfArray(s, p, Arg(s));
    CutsFacts(s, p, Arg(s));
    var vs := Cuts(s, p, Arg(s)).value;
    assert s[p..] == s[p..|s|];
    forall i | 0 <= i < |vs| ensures |vs[i]| < |s| {
      PartOfConcat(vs, i);
    }
  }

  lemma MapShape(s: Blob)
    requires Complete(s) && Major(s) == 5
    ensures var r := Spans(s, |HeadOf(s)|, Arg(s));
      && r.Done? && |r.value| == Arg(s) && AllComplete(r.value) && Rest(s) == Flatten(r.value)
      && DecBindings(s, |HeadOf(s)|, Arg(s)) == Done(Bindings(r.value), |s|)
      && forall i :: 0 <= i < |r.value| ==> |r.value[i].k| < |s| && |r.value[i].v| < |s|
  {
    var p := |HeadOf(s)|;
    BodyOf(s);
    BodyOfMap(s, p, Arg(s));
    SpansWhereBindings(s, p, Arg(s));
    SpansFacts(s, p, Arg(s));
    var es := Spans(s, p, Arg(s)).value;
    assert s[p..] == s[p..|s|];
    forall i | 0 <= i < |es| ensures |es[i].k| < |s| && |es[i].v| < |s| {
      PartOfFlatten(es, i);
    }
  }

  /** The raw items of an array. */
  function ItemsOf(s: Blob): (vs: seq<Blob>)
    requires Complete(s) && Major(s) == 4
    ensures |vs| == Arg(s) && AllWhole(vs) && forall i :: 0 <= i < |vs| ==> |vs[i]| < |s|
  {
    ArrayShape(s);
    Cuts(s, |HeadOf(s)|, Arg(s)).value
  }

  /** The raw keys and values of a map. */
  function EntriesOf(s: Blob): (es: seq<Pair>)
    requires Complete(s) && Major(s) == 5
    ensures |es| == Arg(s) && AllComplete(es)
    ensures forall i :: 0 <= i < |es| ==> |es[i].k| < |s| && |es[i].v| < |s|
  {
    MapShape(s);
    Spans(s, |HeadOf(s)|, Arg(s)).value
  }

  // ---------- recoding ----------

  function Recode(s: Blob): Blob
    requires Complete(s)
    decreases |s|
  {
    if Major(s) == 4 then
      var vs := ItemsOf(s);
      Arr(seq(|vs|, i requires 0 <= i < |vs| => Recode(vs[i])))
    else if Major(s) == 5 then
      var es := EntriesOf(s);
      CMap(seq(|es|, i requires 0 <= i < |es| => Pair(Recode(es[i].k), Recode(es[i].v))))
    else Head(Major(s), Arg(s)) + Rest(s)
  }

  /** Shortest heads and strictly ascending keys, at every depth. */
  ghost predicate Canon(s: Blob)
    requires Complete(s)
    decreases |s|
  {
    && HeadOf(s) == Head(Major(s), Arg(s))
    && (Major(s) == 4 ==> var vs := ItemsOf(s); forall i :: 0 <= i < |vs| ==> Canon(vs[i]))
    && (Major(s) == 5 ==>
          var es := EntriesOf(s);
          StrictlyAscending(es) && forall i :: 0 <= i < |es| ==> Canon(es[i].k) && Canon(es[i].v))
  }

  ghost predicate CanonItems(vs: seq<Blob>)
  {
    AllWhole(vs) && forall i :: 0 <= i < |vs| ==> Canon(vs[i])
  }

  ghost predicate CanonPairs(es: seq<Pair>)
  {
    AllComplete(es) && forall i :: 0 <= i < |es| ==> Canon(es[i].k) && Canon(es[i].v)
  }

  /** A head in front of `u` is the head of what they make together. */
  lemma HeadInFront(major: nat, n: nat, u: Blob)
    requires major < 8 && n < TWO_64
    ensures var s, h := Head(major, n) + u, Head(major, n);
      ReadHead(s, 0) == GoodHead(major, n, |h|) && s[..|h|] == h && s[|h|..] == u
  {
    var h := Head(major, n);
    assert (h + u)[0..|h|] == h;
    ReadWrittenHead(major, n, h + u, 0);
  }

  lemma ArrIsCanon(vs: seq<Blob>)
    requires CanonItems(vs) && |vs| < TWO_64
    ensures Complete(Arr(vs)) && Canon(Arr(vs))
  {
    var values := seq(|vs|, i requires 0 <= i < |vs| => (assert Complete(vs[i]); ValueOf(vs[i])));
    ArrComplete(vs, values);
    HeadInFront(4, |vs|, Concat(vs));
    CutsOfConcat(vs, Arr(vs), |Head(4, |vs|)|);
  }

  lemma CMapIsCanon(ps: seq<Pair>)
    requires CanonPairs(ps) && |ps| < TWO_64
    ensures Complete(CMap(ps)) && Canon(CMap(ps))
  {
    var c := Canonical(ps);
    CMapComplete(ps);
    CanonicalComplete(ps);
    CanonicalFacts(ps);
    HeadInFront(5, |c|, Flatten(c));
    SpansOfCMap(ps);
    forall i | 0 <= i < |c| ensures Canon(c[i].k) && Canon(c[i].v) {
      assert c[i] in c;
      var j :| 0 <= j < |ps| && ps[j] == c[i];
    }
  }

  lemma LeafRest(s: Blob)
    requires Complete(s) && Major(s) != 4 && Major(s) != 5
    ensures if Major(s) == 2 || Major(s) == 3 then |Rest(s)| == Arg(s) else Rest(s) == []
  {
    BodyOf(s);
  }

  lemma LeafIsCanon(s: Blob)
    requires Complete(s) && Major(s) != 4 && Major(s) != 5
    ensures var t := Head(Major(s), Arg(s)) + Rest(s);
      Complete(t) && Canon(t) && ValueOf(t) == ValueOf(s)
  {
    var m, n, u := Major(s), Arg(s), Rest(s);
    LeafRest(s);
    HeadInFront(m, n, u);
    var t := Head(m, n) + u;
    DecUnfold(t, 0, m, n, |Head(m, n)|);
    DecUnfold(s, 0, m, n, |HeadOf(s)|);
    if m == 2 || m == 3 {
      StringBody(t, |Head(m, n)|, m, n);
      StringBody(s, |HeadOf(s)|, m, n);
    }
  }

  /** What is recoded is one complete item, and canonical. */
  lemma {:induction false} RecodeIsCanon(s: Blob)
    requires Complete(s)
    ensures Complete(Recode(s)) && Canon(Recode(s))
    decreases |s|
  {
    if Major(s) == 4 {
      var vs := ItemsOf(s);
      var ws := seq(|vs|, i requires 0 <= i < |vs| => Recode(vs[i]));
      forall i | 0 <= i < |ws| ensures Complete(ws[i]) && Canon(ws[i]) {
        RecodeIsCanon(vs[i]);
      }
      ArrIsCanon(ws);
    } else if Major(s) == 5 {
      var es := EntriesOf(s);
      var ps := seq(|es|, i requires 0 <= i < |es| => Pair(Recode(es[i].k), Recode(es[i].v)));
      forall i | 0 <= i < |ps|
        ensures Complete(ps[i].k) && Complete(ps[i].v) && Canon(ps[i].k) && Canon(ps[i].v)
      {
        RecodeIsCanon(es[i].k);
        RecodeIsCanon(es[i].v);
      }
      CMapIsCanon(ps);
    } else {
      LeafIsCanon(s);
    }
  }

  /** Canonical items are left alone. */
  lemma {:induction false} CanonIsFixed(s: Blob)
    requires Complete(s) && Canon(s)
    ensures Recode(s) == s
    decreases |s|
  {
    assert s == HeadOf(s) + Rest(s);
    if Major(s) == 4 {
      var vs := ItemsOf(s);
      var ws := seq(|vs|, i requires 0 <= i < |vs| => Recode(vs[i]));
      forall i | 0 <= i < |vs| ensures ws[i] == vs[i] {
        CanonIsFixed(vs[i]);
      }
      assert ws == vs;
      ArrayShape(s);
    } else if Major(s) == 5 {
      var es := EntriesOf(s);
      var ps := seq(|es|, i requires 0 <= i < |es| => Pair(Recode(es[i].k), Recode(es[i].v)));
      forall i | 0 <= i < |es| ensures ps[i] == es[i] {
        CanonIsFixed(es[i].k);
        CanonIsFixed(es[i].v);
      }
      assert ps == es;
      MapShape(s);
      CanonicalFixpoint(es);
    }
  }

  /** Identity on canonical items, and on nothing else. */
  lemma RecodeExactly(s: Blob)
    requires Complete(s)
    ensures Recode(s) == s <==> Canon(s)
  {
    RecodeIsCanon(s);
    if Canon(s) {
      CanonIsFixed(s);
    }
  }

  lemma RecodeIdempotent(s: Blob)
    requires Complete(s)
    ensures Complete(Recode(s)) && Recode(Recode(s)) == Recode(s)
  {
    RecodeIsCanon(s);
    CanonIsFixed(Recode(s));
  }

  // ---------- recoding preserves the value ----------

  function Name(k: Blob): Option<Blob>
    requires Complete(k)
  {
    NameOf(ValueOf(k))
  }

  /** No two entries have keys with one decoded name. */
  ghost predicate NamesApart(es: seq<Pair>)
    requires AllComplete(es)
  {
    forall i, j :: 0 <= i < j < |es| && Name(es[i].k).Some? ==> Name(es[i].k) != Name(es[j].k)
  }

  /** No map in the item, at any depth of its values, files two entries under one decoded name. */
  ghost predicate Unambiguous(s: Blob)
    requires Complete(s)
    decreases |s|
  {
    && (Major(s) == 4 ==> var vs := ItemsOf(s); forall i :: 0 <= i < |vs| ==> Unambiguous(vs[i]))
    && (Major(s) == 5 ==>
          var es := EntriesOf(s);
          NamesApart(es) && forall i :: 0 <= i < |es| ==> Unambiguous(es[i].v))
  }

  /** A key keeps its name. */
  lemma RecodedName(k: Blob)
    requires Complete(k)
    ensures Complete(Recode(k)) && Name(Recode(k)) == Name(k)
  {
    RecodeIsCanon(k);
    BodyOf(k);
    if Major(k) == 4 || Major(k) == 5 {
      RecodedMajor(k);
      NoName(k);
      NoName(Recode(k));
    } else {
      LeafIsCanon(k);
    }
  }

  lemma NoName(k: Blob)
    requires Complete(k) && (Major(k) == 4 || Major(k) == 5)
    ensures Name(k) == None
  {
    BodyOf(k);
  }

  lemma RecodedMajor(s: Blob)
    requires Complete(s) && (Major(s) == 4 || Major(s) == 5)
    ensures Complete(Recode(s)) && Major(Recode(s)) == Major(s)
  {
    RecodeIsCanon(s);
    if Major(s) == 4 {
      var vs := ItemsOf(s);
      var ws := seq(|vs|, i requires 0 <= i < |vs| => Recode(vs[i]));
      HeadInFront(4, |ws|, Concat(ws));
    } else {
      var es := EntriesOf(s);
      var ps := seq(|es|, i requires 0 <= i < |es| => Pair(Recode(es[i].k), Recode(es[i].v)));
      var c := Canonical(ps);
      HeadInFront(5, |c|, Flatten(c));
    }
  }

  /** Entry by entry the same names and values. */
  ghost predicate SameEntries(es: seq<Pair>, ps: seq<Pair>)
  {
    && AllComplete(es) && AllComplete(ps) && |es| == |ps| < TWO_64
    && forall i :: 0 <= i < |es| ==> Name(ps[i].k) == Name(es[i].k) && ValueOf(ps[i].v) == ValueOf(es[i].v)
  }

  lemma OnlyNamed(es: seq<Pair>, ps: seq<Pair>, i: nat, name: Blob, k: Blob)
    requires SameEntries(es, ps) && NamesApart(es) && i < |es| && Name(es[i].k) == Some(name)
    requires Occurs(ps, k) && Names(k, name)
    ensures k == ps[i].k && FirstValue(ps, k) == Some(ps[i].v)
  {
    FirstValueComplete(ps, k);
    var j :| 0 <= j < |ps| && ps[j] == Pair(k, FirstValue(ps, k).value);
    assert Name(ps[j].k) == Some(name);
    assert Name(es[j].k) == Some(name);
    assert j == i;
  }

  lemma NamedBinding(es: seq<Pair>, ps: seq<Pair>, i: nat, name: Blob)
    requires SameEntries(es, ps) && NamesApart(es) && i < |es| && Name(es[i].k) == Some(name)
    ensures name in DecodedMap(ps) && DecodedMap(ps)[name] == ValueOf(es[i].v)
    ensures name in MapOf(Bindings(es)) && MapOf(Bindings(es))[name] == ValueOf(es[i].v)
  {
    var kvs, k := Bindings(es), ps[i].k;
    forall j | i < j < |kvs| ensures NameOf(kvs[j].0) != Some(name) {
      assert Name(es[i].k) != Name(es[j].k);
    }
    MapOfLast(kvs, i, name);
    AtOccurs(ps, i);
    forall k' | Occurs(ps, k') && Names(k', name) ensures k' == k {
      OnlyNamed(es, ps, i, name, k');
    }
    OnlyNamed(es, ps, i, name, k);
    DecodedBinding(ps, name, k);
  }

  lemma SameMaps(es: seq<Pair>, ps: seq<Pair>)
    requires SameEntries(es, ps) && NamesApart(es)
    ensures DecodedMap(ps) == MapOf(Bindings(es))
  {
    var m, m' := DecodedMap(ps), MapOf(Bindings(es));
    forall name ensures name in m <==> name in m' {
      DecodedNames(ps, name);
      MapOfNames(Bindings(es), name);
      if name in m {
        var k :| Occurs(ps, k) && Names(k, name);
        var i := OccursAt(ps, k);
        NamedBinding(es, ps, i, name);
      }
      if name in m' {
        var i :| 0 <= i < |es| && NameOf(Bindings(es)[i].0) == Some(name);
        NamedBinding(es, ps, i, name);
      }
    }
    forall name | name in m ensures m[name] == m'[name] {
      MapOfNames(Bindings(es), name);
      var i :| 0 <= i < |es| && NameOf(Bindings(es)[i].0) == Some(name);
      NamedBinding(es, ps, i, name);
    }
  }

  lemma ArrayValue(s: Blob, values: seq<Value>)
    requires Complete(s) && Major(s) == 4 && AllItems(ItemsOf(s), values)
    ensures ValueOf(s) == Array(values)
  {
    BodyOf(s);
    ArrayShape(s);
    ItemsOfConcat(ItemsOf(s), values, s, |HeadOf(s)|);
  }

  lemma MapValue(s: Blob)
    requires Complete(s) && Major(s) == 5
    ensures ValueOf(s) == Map(MapOf(Bindings(EntriesOf(s))))
  {
    BodyOf(s);
    BodyOfMap(s, |HeadOf(s)|, Arg(s));
    MapShape(s);
  }

  /** Where no two entries are filed under one decoded name, the recoded item means what the item
      meant, whatever heads and key order it was written with. */
  lemma {:induction false} RecodePreserves(s: Blob)
    requires Complete(s) && Unambiguous(s)
    ensures Complete(Recode(s)) && ValueOf(Recode(s)) == ValueOf(s)
    decreases |s|
  {
    RecodeIsCanon(s);
    if Major(s) == 4 {
      var vs := ItemsOf(s);
      var values := seq(|vs|, i requires 0 <= i < |vs| => (assert Complete(vs[i]); ValueOf(vs[i])));
      var ws := seq(|vs|, i requires 0 <= i < |vs| => Recode(vs[i]));
      forall i | 0 <= i < |vs| ensures Complete(ws[i]) && ValueOf(ws[i]) == values[i] {
        RecodePreserves(vs[i]);
      }
      ArrayValue(s, values);
      ArrComplete(ws, values);
    } else if Major(s) == 5 {
      var es := EntriesOf(s);
      var ps := seq(|es|, i requires 0 <= i < |es| => Pair(Recode(es[i].k), Recode(es[i].v)));
      forall i | 0 <= i < |es|
        ensures Complete(ps[i].k) && Complete(ps[i].v)
        ensures Name(ps[i].k) == Name(es[i].k) && ValueOf(ps[i].v) == ValueOf(es[i].v)
      {
        RecodedName(es[i].k);
        RecodePreserves(es[i].v);
      }
      MapValue(s);
      SameMaps(es, ps);
    } else {
      LeafIsCanon(s);
    }
  }
}
