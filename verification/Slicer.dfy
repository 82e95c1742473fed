/** Cutting a map's entries out of a buffer as raw bytes, and the two laws that tie the slicer to
    the encoder: re-encoding what was sliced, and slicing what was encoded. */
module Slicer {
  import opened Bytes
  import opened Heads
  import opened Decoder
  import opened CanonicalMap

  datatype SliceError =
    | NotAMap
    | Implausible
    | BadEntry(err: DecError)
    | IndexPanic  // the header's argument bytes are read without a bounds check

  datatype Sliced = Entries(ps: seq<Pair>) | SliceFail(err: SliceError)

  datatype MapHead = NoHead(err: SliceError) | Count(n: nat, p: nat)

  // ---------- what the slicer computes ----------

  function MapHeader(m: Blob): (r: MapHead)
    ensures r.Count? ==> 0 < r.p <= |m| && r.n < 0x1_0000
  {
    if m == [] || m[0] / 32 != 5 then NoHead(NotAMap)
    else
      var ai := m[0] % 32;
      if ai < 24 then Count(ai, 1)
      else if ai == 24 then
        if |m| < 2 then NoHead(IndexPanic) else Count(m[1], 2)
      else if ai == 25 then
        if |m| < 3 then NoHead(IndexPanic) else Count(256 * m[1] as nat + m[2] as nat, 3)
      else NoHead(Implausible)
  }

  /** The raw bytes of the entry at `p`. */
  function Span(b: Blob, p: nat): (r: Decoded<Pair>)
    ensures r.Done? ==> p < r.next <= |b|
  {
    match Dec(b, p)
    case Fail(e) => Fail(e)
    case Done(_, q) =>
      match Dec(b, q)
      case Fail(e) => Fail(e)
      case Done(_, q') => Done(Pair(b[p..q], b[q..q']), q')
  }

  function Spans(b: Blob, p: nat, n: nat): (r: Decoded<seq<Pair>>)
    requires p <= |b|
    ensures r.Done? ==> p <= r.next <= |b| && |r.value| == n
    decreases n
  {
    if n == 0 then Done([], p)
    else
      match Span(b, p)
      case Fail(e) => Fail(e)
      case Done(e, q) =>
        match Spans(b, q, n - 1)
        case Fail(err) => Fail(err)
        case Done(es, q') => Done([e] + es, q')
  }

  function RawMapEntries(m: Blob): Sliced
  {
    match MapHeader(m)
    case NoHead(e) => SliceFail(e)
    case Count(n, p) =>
      match Spans(m, p, n)
      case Fail(e) => SliceFail(BadEntry(e))
      case Done(es, _) => Entries(es)
  }

  datatype Lookup = At(raw: Blob) | Absent | Broken(err: DecError)

  /** The raw value of the first entry whose key decodes to `wanted`. */
  function FindKey(b: Blob, p: nat, n: nat, wanted: Value): Lookup
    decreases n
  {
    if n == 0 then Absent
    else
      match Dec(b, p)
      case Fail(e) => Broken(e)
      case Done(key, q) =>
        match Dec(b, q)
        case Fail(e) => Broken(e)
        case Done(_, q') => if key == wanted then At(b[q..q']) else FindKey(b, q', n - 1, wanted)
  }

  function FindIncluded(b: Blob, p: nat, n: nat): Lookup
  {
    FindKey(b, p, n, Text(Ascii("included")))
  }

  /** Its entries; none, when there is no included map. */
  function RawIncluded(env: Blob): Sliced
  {
    match MapHeader(env)
    case NoHead(e) => SliceFail(e)
    case Count(n, p) =>
      match FindIncluded(env, p, n)
      case Broken(e) => SliceFail(BadEntry(e))
      case Absent => Entries([])
      case At(raw) => RawMapEntries(raw)
  }

  // ---------- the slicer as it runs ----------

  method ReadMapHeader(m: Blob) returns (r: MapHead)
    ensures r == MapHeader(m)
  {
    if |m| == 0 || m[0] / 32 != 5 {
      return NoHead(NotAMap);
    }
    var ai := m[0] % 32;
    var n: nat, p: nat := 0, 1;
    if ai < 24 {
      n := ai;
    } else if ai == 24 {
      if |m| < 2 {
        return NoHead(IndexPanic);
      }
      n, p := m[1], 2;
    } else if ai == 25 {
      if |m| < 3 {
        return NoHead(IndexPanic);
      }
      n, p := 256 * m[1] as nat + m[2] as nat, 3;
    } else {
      return NoHead(Implausible);
    }
    return Count(n, p);
  }

  method SliceEntry(m: Blob, p: nat) returns (r: Decoded<Pair>)
    requires |m| < TWO_63
    ensures r == Span(m, p)
  {
    var key := Decode(m, p);
    if key.Fail? {
      return Fail(key.err);
    }
    var val := Decode(m, key.next);
    if val.Fail? {
      return Fail(val.err);
    }
    return Done(Pair(m[p..key.next], m[key.next..val.next]), val.next);
  }

  lemma SpansAfter(b: Blob, p: nat, n: nat, done: seq<Pair>)
    requires 0 < n && p <= |b|
    ensures Span(b, p).Fail? ==> After(done, Spans(b, p, n)) == Fail(Span(b, p).err)
    ensures Span(b, p).Done? ==>
      After(done, Spans(b, p, n)) == After(done + [Span(b, p).value], Spans(b, Span(b, p).next, n - 1))
  {
    var r := Span(b, p);
    if r.Done? {
      AfterStep(done, r.value, Spans(b, r.next, n - 1));
    }
  }

  lemma SpansEnd(b: Blob, p: nat, done: seq<Pair>)
    requires p <= |b|
    ensures After(done, Spans(b, p, 0)) == Done(done, p)
  {
    assert done + [] == done;
  }

  method SliceEntries(m: Blob, start: nat, n: nat) returns (r: Decoded<seq<Pair>>)
    requires start <= |m| < TWO_63
    ensures r == Spans(m, start, n)
  {
    var p: nat, i: nat := start, 0;
    var out: seq<Pair> := [];
    ghost var all, left: nat := Spans(m, start, n), n;
    AfterNothing(all);
    while i < n
      invariant i <= n && p <= |m| && left == n - i
      invariant all == After(out, Spans(m, p, left))
    {
      SpansAfter(m, p, left, out);
      var e := SliceEntry(m, p);
      if e.Fail? {
        return Fail(e.err);
      }
      out, p, i, left := out + [e.value], e.next, i + 1, left - 1;
    }
    SpansEnd(m, p, out);
    return Done(out, p);
  }

  method SliceMap(m: Blob) returns (r: Sliced)
    requires |m| < TWO_63
    ensures r == RawMapEntries(m)
  {
    var h := ReadMapHeader(m);
    if h.NoHead? {
      return SliceFail(h.err);
    }
    var es := SliceEntries(m, h.p, h.n);
    if es.Fail? {
      return SliceFail(BadEntry(es.err));
    }
    return Entries(es.value);
  }

  method WalkTo(env: Blob, start: nat, n: nat, wanted: Value) returns (r: Lookup)
    requires |env| < TWO_63
    ensures r == FindKey(env, start, n, wanted)
    ensures r.At? ==> |r.raw| <= |env|
  {
    var p: nat, i: nat := start, 0;
    ghost var left: nat := n;
    while i < n
      invariant i <= n && left == n - i
      invariant FindKey(env, start, n, wanted) == FindKey(env, p, left, wanted)
    {
      var key := Decode(env, p);
      if key.Fail? {
        return Broken(key.err);
      }
      var val := Decode(env, key.next);
      if val.Fail? {
        return Broken(val.err);
      }
      if key.value == wanted {
        return At(env[key.next..val.next]);
      }
      p, i, left := val.next, i + 1, left - 1;
    }
    return Absent;
  }

  method SliceIncluded(env: Blob) returns (r: Sliced)
    requires |env| < TWO_63
    ensures r == RawIncluded(env)
  {
    var h := ReadMapHeader(env);
    if h.NoHead? {
      return SliceFail(h.err);
    }
    var found := WalkTo(env, h.p, h.n, Text(Ascii("included")));
    match found {
      case Broken(e) => return SliceFail(BadEntry(e));
      case Absent => return Entries([]);
      case At(raw) => r := SliceMap(raw);
    }
  }

  // ---------- spans are complete items ----------

  ghost predicate AllComplete(ps: seq<Pair>)
  {
    forall i :: 0 <= i < |ps| ==> Complete(ps[i].k) && Complete(ps[i].v)
  }

  ghost function Bindings(ps: seq<Pair>): (kvs: seq<Binding>)
    requires AllComplete(ps)
    ensures |kvs| == |ps|
    ensures forall i :: 0 <= i < |ps| ==> kvs[i] == (ValueOf(ps[i].k), ValueOf(ps[i].v))
  {
    seq(|ps|, i requires 0 <= i < |ps| => (ValueOf(ps[i].k), ValueOf(ps[i].v)))
  }

  lemma FlattenCons(e: Pair, es: seq<Pair>)
    ensures Flatten([e] + es) == e.k + e.v + Flatten(es)
  {
    assert ([e] + es)[1..] == es;
  }

  lemma SpanFacts(b: Blob, p: nat)
    requires Span(b, p).Done?
    ensures var e := Span(b, p).value;
      && Complete(e.k) && Complete(e.v) && b[p..Span(b, p).next] == e.k + e.v
      && DecBinding(b, p) == Done((ValueOf(e.k), ValueOf(e.v)), Span(b, p).next)
  {
    SpanIsComplete(b, p);
    SpanIsComplete(b, Dec(b, p).next);
  }

  /** What the slicer returns are complete items which, laid end to end, are the bytes it walked
      over, and their values are what the decoder reads there. */
  lemma {:induction false} SpansFacts(b: Blob, p: nat, n: nat)
    requires p <= |b| && Spans(b, p, n).Done?
    ensures var r := Spans(b, p, n);
      && AllComplete(r.value) && b[p..r.next] == Flatten(r.value)
      && DecBindings(b, p, n) == Done(Bindings(r.value), r.next)
    decreases n
  {
    if n == 0 {
      assert b[p..p] == [];
      assert Bindings([]) == [];
    } else {
      var left := n - 1;
      var e, q, es, q' := SpansParts(b, p, n);
      SpanFacts(b, p);
      SpansFacts(b, q, left);
      SpansStep(e, es);
      Adjacent(b, p, q, q');
      SpansFront(b, p, n, left, e, q, es, q');
    }
  }

  lemma SpansFront(b: Blob, p: nat, n: nat, left: nat, e: Pair, q: nat, es: seq<Pair>, q': nat)
    requires p <= |b| && q <= |b| && n == left + 1
    requires Complete(e.k) && Complete(e.v) && AllComplete(es) && AllComplete([e] + es)
    requires DecBinding(b, p) == Done((ValueOf(e.k), ValueOf(e.v)), q)
    requires DecBindings(b, q, left) == Done(Bindings(es), q')
    ensures DecBindings(b, p, n) == Done(Bindings([e] + es), q')
  {
    BindingsCons(e, es);
    BindingsUnfold(b, p, n, (ValueOf(e.k), ValueOf(e.v)), q, Bindings(es), q');
  }

  lemma SpansParts(b: Blob, p: nat, n: nat) returns (e: Pair, q: nat, es: seq<Pair>, q': nat)
    requires 0 < n && p <= |b| && Spans(b, p, n).Done?
    ensures Span(b, p) == Done(e, q) && p < q <= q' <= |b| && Spans(b, q, n - 1) == Done(es, q')
    ensures Spans(b, p, n) == Done([e] + es, q')
  {
    e, q := Span(b, p).value, Span(b, p).next;
    es, q' := Spans(b, q, n - 1).value, Spans(b, q, n - 1).next;
  }

  lemma Adjacent(b: Blob, p: nat, q: nat, r: nat)
    requires p <= q <= r <= |b|
    ensures b[p..r] == b[p..q] + b[q..r]
  {}

  lemma BindingsCons(e: Pair, es: seq<Pair>)
    requires Complete(e.k) && Complete(e.v) && AllComplete(es) && AllComplete([e] + es)
    ensures Bindings([e] + es) == [(ValueOf(e.k), ValueOf(e.v))] + Bindings(es)
  {}

  lemma CompleteCons(e: Pair, es: seq<Pair>)
    requires Complete(e.k) && Complete(e.v) && AllComplete(es)
    ensures AllComplete([e] + es)
  {
    var t := [e] + es;
    forall i | 0 <= i < |t| ensures Complete(t[i].k) && Complete(t[i].v) {
      assert t[i] == if i == 0 then e else es[i - 1];
    }
  }

  lemma SpansStep(e: Pair, es: seq<Pair>)
    requires Complete(e.k) && Complete(e.v) && AllComplete(es)
    ensures AllComplete([e] + es)
    ensures Flatten([e] + es) == e.k + e.v + Flatten(es)
    ensures Bindings([e] + es) == [(ValueOf(e.k), ValueOf(e.v))] + Bindings(es)
  {
    FlattenCons(e, es);
    CompleteCons(e, es);
    BindingsCons(e, es);
  }

  /** Where the decoder reads bindings, the slicer finds spans. */
  lemma {:induction false} SpansWhereBindings(b: Blob, p: nat, n: nat)
    requires p <= |b| && DecBindings(b, p, n).Done?
    ensures Spans(b, p, n).Done?
    decreases n
  {
    if n > 0 {
      SpansWhereBindings(b, DecBinding(b, p).next, n - 1);
    }
  }

  lemma Pieces(x: Blob, y: Blob, u: Blob, b: Blob, p: nat)
    requires p <= |b| && b[p..] == x + y + u
    ensures p + |x| + |y| <= |b|
    ensures b[p..p + |x|] == x && b[p + |x|..p + |x| + |y|] == y && b[p + |x| + |y|..] == u
  {
    var t := b[p..];
    assert |t| == |x| + |y| + |u|;
    assert t[..|x|] == x && t[|x|..|x| + |y|] == y && t[|x| + |y|..] == u;
  }

  /** A complete pair in front of other bytes is decoded as its two items. */
  lemma EntryAt(e: Pair, u: Blob, b: Blob, p: nat) returns (q: nat, r: nat, k: Value, v: Value)
    requires Complete(e.k) && Complete(e.v)
    requires p <= |b| && b[p..] == e.k + e.v + u
    ensures q == p + |e.k| && r == q + |e.v| <= |b| && k == ValueOf(e.k)
    ensures Dec(b, p) == Done(k, q) && Dec(b, q) == Done(v, r)
    ensures b[p..q] == e.k && b[q..r] == e.v && b[r..] == u
  {
    q, r, k, v := p + |e.k|, p + |e.k| + |e.v|, ValueOf(e.k), ValueOf(e.v);
    Pieces(e.k, e.v, u, b, p);
    DecAt(b, p, e.k);
    DecAt(b, q, e.v);
  }

  lemma SpanAt(e: Pair, u: Blob, b: Blob, p: nat)
    requires Complete(e.k) && Complete(e.v)
    requires p <= |b| && b[p..] == e.k + e.v + u
    ensures var r := p + |e.k| + |e.v|;
      r <= |b| && b[r..] == u && Span(b, p) == Done(e, r)
  {
    var q, r, k, v := EntryAt(e, u, b, p);
  }

  lemma SpansCons(b: Blob, p: nat, e: Pair, r: nat, n: nat, rest: seq<Pair>, end: nat)
    requires p <= |b| && r <= |b|
    requires Span(b, p) == Done(e, r) && Spans(b, r, n) == Done(rest, end)
    ensures Spans(b, p, n + 1) == Done([e] + rest, end)
  {}

  /** Complete pairs laid end to end are found again, whatever stands before them. */
  lemma {:induction false} SpansOfFlatten(es: seq<Pair>, b: Blob, p: nat)
    requires AllComplete(es)
    requires p <= |b| && b[p..] == Flatten(es)
    ensures Spans(b, p, |es|) == Done(es, |b|)
  {
    if es != [] {
      var e, rest := es[0], es[1..];
      var n, r := |rest|, p + |e.k| + |e.v|;
      SpanAt(e, Flatten(rest), b, p);
      SpansOfFlatten(rest, b, r);
      SpansCons(b, p, e, r, n, rest, |b|);
      assert es == [e] + rest;
    }
  }

  lemma FlattenInjective(es: seq<Pair>, fs: seq<Pair>)
    requires AllComplete(es) && AllComplete(fs) && |es| == |fs| && Flatten(es) == Flatten(fs)
    ensures es == fs
  {
    var b := Flatten(es);
    assert b[0..] == b;
    SpansOfFlatten(es, b, 0);
    SpansOfFlatten(fs, b, 0);
  }

  // ---------- encoded maps are complete items ----------

  lemma HeaderIsHead(m: Blob)
    requires MapHeader(m).Count?
    ensures ReadHead(m, 0) == GoodHead(5, MapHeader(m).n, MapHeader(m).p)
  {
    var r := MapHeader(m);
    if r.p == 2 {
      assert m[1..2] == [m[1]];
      assert FromBigEndian([m[1]]) == m[1];
    } else if r.p == 3 {
      assert m[1..3] == [m[1], m[2]];
      assert [m[1], m[2]][..1] == [m[1]];
      assert FromBigEndian([m[1]]) == m[1];
    }
  }

  lemma HeadIsHeader(m: Blob)
    requires ReadHead(m, 0).GoodHead? && ReadHead(m, 0).major == 5
    ensures MapHeader(m) == if m[0] % 32 <= 25 then Count(ReadHead(m, 0).arg, ReadHead(m, 0).next)
                            else NoHead(Implausible)
  {
    if m[0] % 32 <= 25 {
      HeaderIsHead(m);
    }
  }

  lemma MapDecodes(s: Blob, n: nat, p: nat, kvs: seq<Binding>, q: nat)
    requires ReadHead(s, 0) == GoodHead(5, n, p) && p <= |s|
    requires DecBindings(s, p, n) == Done(kvs, q)
    ensures Dec(s, 0) == Done(Map(MapOf(kvs)), q)
  {}

  /** A head and complete pairs make one complete item: the map of the pairs' values. */
  lemma MapIsComplete(c: seq<Pair>)
    requires AllComplete(c) && |c| < TWO_64
    ensures var s := Head(5, |c|) + Flatten(c); Complete(s) && ValueOf(s) == Map(MapOf(Bindings(c)))
  {
    var h := Head(5, |c|);
    var s := h + Flatten(c);
    assert s[0..|h|] == h;
    ReadWrittenHead(5, |c|, s, 0);
    assert s[|h|..] == Flatten(c);
    SpansOfFlatten(c, s, |h|);
    SpansFacts(s, |h|, |c|);
    MapDecodes(s, |c|, |h|, Bindings(c), |s|);
  }

  lemma {:induction false} CanonicalMembers(ps: seq<Pair>)
    ensures forall x :: x in Canonical(ps) ==> x in ps
  {
    if ps != [] {
      var front := ps[..|ps| - 1];
      CanonicalMembers(front);
      CanonicalFacts(front);
      PutFirstStrict(Canonical(front), ps[|ps| - 1]);
    }
  }

  lemma CanonicalComplete(ps: seq<Pair>)
    requires AllComplete(ps)
    ensures AllComplete(Canonical(ps))
    ensures forall x :: x in Canonical(ps) ==> x in ps
  {
    CanonicalMembers(ps);
    var c := Canonical(ps);
    forall i | 0 <= i < |c| ensures Complete(c[i].k) && Complete(c[i].v) {
      assert c[i] in c;
      assert c[i] in ps;
    }
  }

  /** The encoding of complete pairs is a complete item. */
  lemma CMapComplete(ps: seq<Pair>)
    requires AllComplete(ps) && |ps| < TWO_64
    ensures Complete(CMap(ps))
    ensures AllComplete(Canonical(ps))
    ensures ValueOf(CMap(ps)) == Map(MapOf(Bindings(Canonical(ps))))
  {
    CanonicalComplete(ps);
    MapIsComplete(Canonical(ps));
  }

  // ---------- slicing what was encoded ----------

  lemma RawHeaderOfCMap(ps: seq<Pair>)
    requires |ps| < TWO_64
    ensures var n := |Canonical(ps)|;
      MapHeader(CMap(ps)) == if n < 0x1_0000 then Count(n, |Head(5, n)|) else NoHead(Implausible)
  {
    var n := |Canonical(ps)|;
    var h := Head(5, n);
    var s := CMap(ps);
    assert s[0..|h|] == h;
    ReadWrittenHead(5, n, s, 0);
    InitialByte(5, Info(n));
    assert s[0] == h[0];
    HeadIsHeader(s);
  }

  /** The slicer returns exactly the sorted, deduplicated pairs, byte for byte, whenever their
      number fits the two-byte header it accepts, and refuses the map otherwise. */
  lemma RawOfCMap(ps: seq<Pair>)
    requires AllComplete(ps) && |ps| < TWO_64
    ensures RawMapEntries(CMap(ps))
         == if |Canonical(ps)| < 0x1_0000 then Entries(Canonical(ps)) else SliceFail(Implausible)
    ensures CMap(Canonical(ps)) == CMap(ps)
  {
    CanonicalIdempotent(ps);
    RawHeaderOfCMap(ps);
    SpansOfCMap(ps);
  }

  lemma SpansOfCMap(ps: seq<Pair>)
    requires AllComplete(ps)
    ensures var c := Canonical(ps);
      Spans(CMap(ps), |Head(5, |c|)|, |c|) == Done(c, |CMap(ps)|)
  {
    var c := Canonical(ps);
    var h, f := Head(5, |c|), Flatten(c);
    CanonicalComplete(ps);
    assert (h + f)[|h|..] == f;
    SpansOfFlatten(c, h + f, |h|);
  }

  /** Two lists of complete pairs are encoded alike exactly when they are the same finite map. */
  lemma CMapInjective(ps: seq<Pair>, qs: seq<Pair>)
    requires AllComplete(ps) && AllComplete(qs) && |ps| < TWO_64 && |qs| < TWO_64
    ensures CMap(ps) == CMap(qs) <==> SameBindings(ps, qs)
  {
    CanonicalDependsOnBindings(ps, qs);
    if CMap(ps) == CMap(qs) {
      var c, d := Canonical(ps), Canonical(qs);
      CanonicalComplete(ps);
      CanonicalComplete(qs);
      var b := CMap(ps);
      ReadWrittenHead(5, |c|, b, 0);
      ReadWrittenHead(5, |d|, b, 0);
      assert Flatten(c) == b[|Head(5, |c|)|..] == Flatten(d);
      FlattenInjective(c, d);
    }
  }

  // ---------- re-encoding what was sliced ----------

  lemma AcceptedIsComplete(m: Blob)
    requires RawMapEntries(m).Entries?
    ensures var ps := RawMapEntries(m).ps;
      && AllComplete(ps) && |ps| < 0x1_0000 && MapHeader(m).Count?
      && |m| >= MapHeader(m).p + |Flatten(ps)|
      && m[MapHeader(m).p..][..|Flatten(ps)|] == Flatten(ps)
  {
    var h := MapHeader(m);
    SpansFacts(m, h.p, h.n);
    var r := Spans(m, h.p, h.n);
    assert m[h.p..][..r.next - h.p] == m[h.p..r.next];
  }

  /** The slicer accepts `m` and reads it to its last byte. */
  ghost predicate SlicedWhole(m: Blob)
  {
    RawMapEntries(m).Entries? && |m| == MapHeader(m).p + |Flatten(RawMapEntries(m).ps)|
  }

  /** Re-encoding reproduces a sliced map exactly when its head is the shortest one and its encoded
      keys strictly ascend. */
  lemma ReencodeFixpoint(m: Blob)
    requires SlicedWhole(m)
    ensures var ps := RawMapEntries(m).ps;
      CMap(ps) == m <==> m[..MapHeader(m).p] == Head(5, |ps|) && StrictlyAscending(ps)
  {
    var ps := RawMapEntries(m).ps;
    var c := Canonical(ps);
    var h := MapHeader(m);
    AcceptedIsComplete(m);
    CanonicalComplete(ps);
    CanonicalFixpoint(ps);
    assert m == m[..h.p] + Flatten(ps) by {
      assert m[h.p..][..|Flatten(ps)|] == m[h.p..];
      assert m == m[..h.p] + m[h.p..];
    }
    if CMap(ps) == m {
      HeaderIsHead(m);
      var hd := Head(5, |c|);
      assert m[0..|hd|] == hd;
      ReadWrittenHead(5, |c|, m, 0);
      assert |c| == h.n == |ps| && h.p == |hd|;
      assert Flatten(c) == m[h.p..] == Flatten(ps);
      FlattenInjective(c, ps);
    }
  }

  /** Slicing and re-encoding settles after one round, on every accepted input. */
  lemma ReencodeIdempotent(m: Blob)
    requires RawMapEntries(m).Entries?
    ensures var c := CMap(RawMapEntries(m).ps);
      RawMapEntries(c).Entries? && SlicedWhole(c) && CMap(RawMapEntries(c).ps) == c
  {
    AcceptedIsComplete(m);
    RawOfCMap(RawMapEntries(m).ps);
    RawHeaderOfCMap(RawMapEntries(m).ps);
  }

  // ---------- the included map of an envelope ----------

  lemma FindUnfold(b: Blob, p: nat, n: nat, k: Value, q: nat, v: Value, r: nat, wanted: Value)
    requires Dec(b, p) == Done(k, q) && Dec(b, q) == Done(v, r)
    ensures k == wanted ==> FindKey(b, p, n + 1, wanted) == At(b[q..r])
    ensures k != wanted ==> FindKey(b, p, n + 1, wanted) == FindKey(b, r, n, wanted)
  {}

  lemma FindStep(e: Pair, u: Blob, b: Blob, p: nat, r: nat, n: nat, n': nat, wanted: Value)
    requires Complete(e.k) && Complete(e.v)
    requires p <= |b| && b[p..] == e.k + e.v + u && r == p + |e.k| + |e.v| && n' == n + 1
    ensures r <= |b| && b[r..] == u
    ensures ValueOf(e.k) == wanted ==> FindKey(b, p, n', wanted) == At(e.v)
    ensures ValueOf(e.k) != wanted ==> FindKey(b, p, n', wanted) == FindKey(b, r, n, wanted)
  {
    var q, r', k, v := EntryAt(e, u, b, p);
    FindUnfold(b, p, n, k, q, v, r, wanted);
  }

  lemma FoundBehind(e: Pair, u: Blob, b: Blob, p: nat, r: nat, n: nat, n': nat, wanted: Value, raw: Blob)
    requires Complete(e.k) && Complete(e.v) && ValueOf(e.k) != wanted
    requires p <= |b| && b[p..] == e.k + e.v + u && r == p + |e.k| + |e.v| && n' == n + 1
    requires FindKey(b, r, n, wanted) == At(raw)
    ensures FindKey(b, p, n', wanted) == At(raw)
  {
    FindStep(e, u, b, p, r, n, n', wanted);
  }

  lemma RestBehind(e: Pair, u: Blob, b: Blob, p: nat) returns (r: nat)
    requires p <= |b| && b[p..] == e.k + e.v + u
    ensures r == p + |e.k| + |e.v| <= |b| && b[r..] == u
  {
    r := p + |e.k| + |e.v|;
    Pieces(e.k, e.v, u, b, p);
  }

  /** The walk over complete pairs laid end to end stops at the first one with the wanted key. */
  lemma {:induction false} FindAmong(es: seq<Pair>, b: Blob, p: nat, n: nat, i: nat, wanted: Value)
    requires AllComplete(es) && n == |es| && p <= |b| && b[p..] == Flatten(es)
    requires i < |es| && ValueOf(es[i].k) == wanted
    requires forall j :: 0 <= j < i ==> ValueOf(es[j].k) != wanted
    ensures FindKey(b, p, n, wanted) == At(es[i].v)
  {
    var e, u, left := es[0], Flatten(es[1..]), n - 1;
    var r := RestBehind(e, u, b, p);
    if i == 0 {
      FindStep(e, u, b, p, r, left, n, wanted);
    } else {
      WantedLater(es, i, wanted);
      FindAmong(es[1..], b, r, left, i - 1, wanted);
      FoundBehind(e, u, b, p, r, left, n, wanted, es[i].v);
    }
  }

  lemma WantedLater(es: seq<Pair>, i: nat, wanted: Value)
    requires AllComplete(es) && 0 < i < |es| && ValueOf(es[i].k) == wanted
    requires forall j :: 0 <= j < i ==> ValueOf(es[j].k) != wanted
    ensures var rest, k := es[1..], i - 1;
      AllComplete(rest) && ValueOf(rest[k].k) == wanted && rest[k].v == es[i].v
      && forall j :: 0 <= j < k ==> ValueOf(rest[j].k) != wanted
  {}

  function Envelope(root: Blob, included: Blob): Blob
  {
    CMap([Pair(Txt(Ascii("root")), root), Pair(Txt(Ascii("included")), included)])
  }

  lemma DecUnfold(b: Blob, p: nat, major: nat, arg: nat, q: nat)
    requires ReadHead(b, p) == GoodHead(major, arg, q)
    ensures Dec(b, p) == DecBody(b, q, major, arg)
  {}

  lemma StringBody(b: Blob, q: nat, major: nat, arg: nat)
    requires major in {2, 3} && arg < TWO_64 && q + arg == |b|
    ensures DecBody(b, q, major, arg) == Done(if major == 2 then Bytes(b[q..]) else Text(b[q..]), |b|)
  {
    assert b[q..q + arg] == b[q..];
  }

  lemma StringItem(major: nat, s: Blob)
    requires major in {2, 3} && |s| < TWO_64
    ensures var t := Head(major, |s|) + s;
      Dec(t, 0) == Done(if major == 2 then Bytes(s) else Text(s), |t|)
  {
    var h := Head(major, |s|);
    var t := h + s;
    assert t[0..|h|] == h && t[|h|..] == s;
    ReadWrittenHead(major, |s|, t, 0);
    DecUnfold(t, 0, major, |s|, |h|);
    StringBody(t, |h|, major, |s|);
  }

  lemma StringComplete(s: Blob)
    requires |s| < TWO_64
    ensures Complete(Txt(s)) && ValueOf(Txt(s)) == Text(s)
    ensures Complete(Bstr(s)) && ValueOf(Bstr(s)) == Bytes(s)
  {
    StringItem(2, s);
    StringItem(3, s);
  }

  lemma EnvelopeOrder(root: Blob, included: Blob)
    ensures var ps := [Pair(Txt(Ascii("root")), root), Pair(Txt(Ascii("included")), included)];
      StrictlyAscending(ps) && Canonical(ps) == ps
  {
    var ps := [Pair(Txt(Ascii("root")), root), Pair(Txt(Ascii("included")), included)];
    assert |ps[0].k| == 5 && |ps[1].k| == 9;
    CanonicalFixpoint(ps);
  }

  lemma EnvelopeHeader(root: Blob, included: Blob)
    requires Complete(root) && Complete(included)
    ensures var env := Envelope(root, included);
      && MapHeader(env) == Count(2, |Head(5, 2)|)
      && env == Head(5, 2) + Flatten([Pair(Txt(Ascii("root")), root), Pair(Txt(Ascii("included")), included)])
  {
    var es := [Pair(Txt(Ascii("root")), root), Pair(Txt(Ascii("included")), included)];
    EnvelopeOrder(root, included);
    RawHeaderOfCMap(es);
  }

  /** Slicing an envelope is slicing the item its included field was built from. */
  lemma EnvelopeSlices(root: Blob, included: Blob)
    requires Complete(root) && Complete(included)
    ensures RawIncluded(Envelope(root, included)) == RawMapEntries(included)
  {
    EnvelopeHeader(root, included);
    FindInEnvelope(root, included, Envelope(root, included));
  }

  /** Verbatim replay: from an envelope, the slicer returns exactly the sorted, deduplicated pairs
      its included map was built from, and encoding them again gives the included map's bytes. */
  lemma VerbatimReplay(root: Blob, ps: seq<Pair>)
    requires Complete(root) && AllComplete(ps) && |ps| < TWO_64
    requires |Canonical(ps)| < 0x1_0000
    ensures RawIncluded(Envelope(root, CMap(ps))) == Entries(Canonical(ps))
    ensures CMap(RawIncluded(Envelope(root, CMap(ps))).ps) == CMap(ps)
  {
    CMapComplete(ps);
    RawOfCMap(ps);
    EnvelopeSlices(root, CMap(ps));
  }

  lemma FindInEnvelope(root: Blob, included: Blob, env: Blob)
    requires Complete(root) && Complete(included)
    requires var es := [Pair(Txt(Ascii("root")), root), Pair(Txt(Ascii("included")), included)];
      env == Head(5, 2) + Flatten(es)
    ensures FindIncluded(env, |Head(5, 2)|, 2) == At(included)
  {
    var es := [Pair(Txt(Ascii("root")), root), Pair(Txt(Ascii("included")), included)];
    StringComplete(Ascii("root"));
    StringComplete(Ascii("included"));
    assert |Ascii("root")| == 4 && |Ascii("included")| == 8;
    FindAmong(es, env, |Head(5, 2)|, 2, 1, Text(Ascii("included")));
  }

  /** On a buffer the decoder accepts, the unchecked header reads are in bounds and every entry
      decodes: the slicer either succeeds or reports a map it does not support. */
  lemma SlicerSafeOnDecoded(env: Blob)
    requires Dec(env, 0).Done?
    ensures RawIncluded(env).Entries? || RawIncluded(env).err in {NotAMap, Implausible}
  {
    var h := ReadHead(env, 0);
    if h.major == 5 {
      HeadIsHeader(env);
      if MapHeader(env).Count? {
        FindSafe(env, h.next, h.arg, Text(Ascii("included")));
        FoundIsComplete(env, h.next, h.arg, Text(Ascii("included")));
        if FindIncluded(env, h.next, h.arg).At? {
          RawSafeOnDecoded(FindIncluded(env, h.next, h.arg).raw);
        }
      }
    }
  }

  lemma {:induction false} FindSafe(b: Blob, p: nat, n: nat, wanted: Value)
    requires p <= |b| && DecBindings(b, p, n).Done?
    ensures !FindKey(b, p, n, wanted).Broken?
    decreases n
  {
    if n > 0 {
      FindSafe(b, DecBinding(b, p).next, n - 1, wanted);
    }
  }

  lemma {:induction false} FoundIsComplete(b: Blob, p: nat, n: nat, wanted: Value)
    ensures FindKey(b, p, n, wanted).At? ==> Complete(FindKey(b, p, n, wanted).raw)
    decreases n
  {
    if n > 0 && Dec(b, p).Done? {
      var q := Dec(b, p).next;
      if Dec(b, q).Done? {
        SpanIsComplete(b, q);
        FoundIsComplete(b, Dec(b, q).next, n - 1, wanted);
      }
    }
  }

  lemma RawSafeOnDecoded(m: Blob)
    requires Dec(m, 0).Done?
    ensures RawMapEntries(m).Entries? || RawMapEntries(m).err in {NotAMap, Implausible}
  {
    var h := ReadHead(m, 0);
    if h.major == 5 {
      HeadIsHeader(m);
      if MapHeader(m).Count? {
        SpansWhereBindings(m, h.next, h.arg);
      }
    }
  }

  /** Whatever the slicer returns from an envelope is a list of complete items. */
  lemma IncludedIsComplete(env: Blob)
    requires RawIncluded(env).Entries?
    ensures AllComplete(RawIncluded(env).ps)
  {
    var h := MapHeader(env);
    if FindIncluded(env, h.p, h.n).At? {
      AcceptedIsComplete(FindIncluded(env, h.p, h.n).raw);
    }
  }

  /** `m`'s first byte announces argument bytes that are not there. */
  predicate HeadCut(m: Blob)
  {
    m != [] && m[0] / 32 == 5 && m[0] % 32 in {24, 25} && |m| < 1 + Width(m[0] % 32)
  }

  lemma HeaderPanicsExactlyWhen(m: Blob)
    ensures MapHeader(m) == NoHead(IndexPanic) <==> HeadCut(m)
  {}

  /** A decoded item has its whole head. */
  lemma DecodedHeadWhole(m: Blob)
    requires Dec(m, 0).Done?
    ensures !HeadCut(m)
  {
    assert ReadHead(m, 0).GoodHead?;
  }

  /** An unchecked header read stops the program exactly when the envelope is a map whose own head is
      cut: the inner map has been decoded before it is sliced, even in an envelope that is not
      decodable as a whole, so its head is there. */
  lemma IndexPanicExactlyWhen(env: Blob)
    ensures RawIncluded(env) == SliceFail(IndexPanic) <==> HeadCut(env)
  {
    HeaderPanicsExactlyWhen(env);
    var h := MapHeader(env);
    if h.Count? {
      FoundIsComplete(env, h.p, h.n, Text(Ascii("included")));
      var found := FindIncluded(env, h.p, h.n);
      if found.At? {
        DecodedHeadWhole(found.raw);
        HeaderPanicsExactlyWhen(found.raw);
      }
    }
  }

  /** One byte that stops the program, while the decoder reports an error. */
  lemma SlicerPanicWitness()
    ensures RawIncluded([0xb8]) == SliceFail(IndexPanic)
    ensures Dec([0xb8], 0) == Fail(TruncatedArg)
  {
    IndexPanicExactlyWhen([0xb8]);
  }
}
