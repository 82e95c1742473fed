/** The older probe's decoder: argument bytes are indexed without a bounds check, and only text keys
    are stored. It is related to the checked decoder on every buffer. */
module OlderDecoder {
  import opened Bytes
  import opened Heads
  import opened Decoder
  import opened Trees

  // ---------- what it computes ----------

  function PutText(m: map<Blob, Value>, kv: Binding): map<Blob, Value>
  {
    if kv.0.Text? then m[kv.0.s := kv.1] else m
  }

  function TextMapOf(kvs: seq<Binding>): map<Blob, Value>
  {
    if kvs == [] then map[] else PutText(TextMapOf(kvs[..|kvs| - 1]), kvs[|kvs| - 1])
  }

  function OldView(t: Tree): Value
    decreases t, 0
  {
    match t
    case Leaf(v) => v
    case Branch(ts) => Array(OldViews(ts))
    case Dict(es) => Map(TextMapOf(OldViewEntries(es)))
  }

  function OldViews(ts: seq<Tree>): (vs: seq<Value>)
    ensures |vs| == |ts|
    decreases ts
  {
    if ts == [] then [] else OldViews(ts[..|ts| - 1]) + [OldView(ts[|ts| - 1])]
  }

  function OldViewEntries(es: seq<(Tree, Tree)>): (kvs: seq<Binding>)
    ensures |kvs| == |es|
    decreases es
  {
    if es == [] then []
    else
      var e := es[|es| - 1];
      assert e in es && e.0 < e && e.1 < e;
      OldViewEntries(es[..|es| - 1]) + [(OldView(e.0), OldView(e.1))]
  }

  /** A missing argument byte stops the program instead of being reported. */
  function Unchecked(e: DecError): DecError
  {
    if e == TruncatedArg then Panic else e
  }

  function OldSeen<S, T>(r: Decoded<S>, view: S -> T): Decoded<T>
  {
    match r
    case Fail(e) => Fail(Unchecked(e))
    case Done(s, n) => Done(view(s), n)
  }

  function OldDec(b: Blob, p: nat): Decoded<Value>
  {
    OldSeen(Parse(b, p), OldView)
  }

  function OldBody(b: Blob, q: nat, major: nat, arg: nat): Decoded<Value>
    requires q <= |b| && arg < TWO_64
  {
    OldSeen(ParseBody(b, q, major, arg), OldView)
  }

  // ---------- as it runs ----------

  /** Reads the argument byte by byte; the first byte that is not there stops the program. */
  method OldArgument(b: Blob, p0: nat, w: nat) returns (arg: nat, died: bool)
    requires p0 <= |b|
    ensures died <==> p0 + w > |b|
    ensures !died ==> arg == FromBigEndian(b[p0..p0 + w])
  {
    arg, died := 0, false;
    var i := 0;
    while i < w
      invariant 0 <= i <= w && p0 + i <= |b|
      invariant arg == FromBigEndian(b[p0..p0 + i])
    {
      if p0 + i >= |b| {
        return arg, true;
      }
      assert b[p0..p0 + i + 1][..i] == b[p0..p0 + i];
      arg := 256 * arg + b[p0 + i];
      i := i + 1;
    }
  }

  method OldDecode(b: Blob, start: nat) returns (r: Decoded<Value>)
    requires |b| < TWO_63
    ensures r == OldDec(b, start)
    decreases |b| - start, 0
  {
    var p := start;
    if p >= |b| {
      return Fail(Truncated);
    }
    var major, ai := b[p] / 32, b[p] % 32;
    p := p + 1;
    var arg := ai;
    if 24 <= ai <= 27 {
      var died;
      arg, died := OldArgument(b, p, Width(ai));
      if died {
        return Fail(Panic);
      }
      p := p + Width(ai);
    } else if ai > 27 {
      return Fail(BadInfo(ai));
    }
    assert ReadHead(b, start) == GoodHead(major, arg, p);
    assert OldDec(b, start) == OldBody(b, p, major, arg);
    if major == 0 {
      return Done(UInt(arg), p);
    } else if major == 1 {
      return Done(Negative(NegativeOf(arg)), p);
    } else if major == 2 || major == 3 {
      r := OldString(b, p, major, arg);
    } else if major == 4 {
      r := OldItems(b, p, arg);
    } else if major == 5 {
      r := OldMap(b, p, arg);
    } else if major == 7 {
      return Done(if arg == 20 then Bool(false) else if arg == 21 then Bool(true) else Nil, p);
    } else {
      return Fail(Unsupported(major));
    }
  }

  method OldString(b: Blob, p: nat, major: nat, arg: nat) returns (r: Decoded<Value>)
    requires p <= |b| < TWO_63 && arg < TWO_64 && (major == 2 || major == 3)
    ensures r == OldBody(b, p, major, arg)
  {
    var short := if major == 2 then TruncatedBytes else TruncatedText;
    StringPanicsExactlyWhen(b, p, arg, short);
    var end := Int64(p + Int64(arg));
    if end > |b| {
      return Fail(short);
    }
    if end < p {
      return Fail(Panic);
    }
    return Done(if major == 2 then Bytes(b[p..end]) else Text(b[p..end]), end);
  }

  lemma AfterAll<T>(done: seq<T>, p: nat)
    ensures After(done, Done([], p)) == Done(done, p)
  {
    assert done + [] == done;
  }

  /** The array loop's state: `trees` are read, `left` items are still to be read from `p` on. */
  ghost predicate ItemsRead(b: Blob, start: nat, arg: nat, p: nat, left: nat, trees: seq<Tree>, out: seq<Value>)
  {
    && start <= p <= |b| && out == OldViews(trees)
    && ParseItems(b, start, arg) == After(trees, ParseItems(b, p, left))
  }

  lemma ItemsStart(b: Blob, start: nat, arg: nat)
    requires start <= |b|
    ensures ItemsRead(b, start, arg, start, arg, [], [])
  {
    AfterNothing(ParseItems(b, start, arg));
  }

  lemma ItemsFailed(b: Blob, start: nat, arg: nat, p: nat, left: nat, trees: seq<Tree>, out: seq<Value>)
    requires ItemsRead(b, start, arg, p, left, trees, out) && left > 0 && Parse(b, p).Fail?
    ensures ParseItems(b, start, arg) == Fail(Parse(b, p).err)
  {}

  lemma ItemsTurn(b: Blob, start: nat, arg: nat, p: nat, left: nat, rest: nat, trees: seq<Tree>, out: seq<Value>)
    requires ItemsRead(b, start, arg, p, left, trees, out) && left == rest + 1 && Parse(b, p).Done?
    ensures var t, q := Parse(b, p).value, Parse(b, p).next;
      ItemsRead(b, start, arg, q, rest, trees + [t], out + [OldView(t)])
  {
    var t, q := Parse(b, p).value, Parse(b, p).next;
    AfterStep(trees, t, ParseItems(b, q, rest));
    assert (trees + [t])[..|trees|] == trees;
  }

  lemma ItemsEnd(b: Blob, start: nat, arg: nat, p: nat, trees: seq<Tree>, out: seq<Value>)
    requires ItemsRead(b, start, arg, p, 0, trees, out) && arg < TWO_64
    ensures OldBody(b, start, 4, arg) == Done(Array(out), p)
  {
    AfterAll(trees, p);
  }

  method OldItems(b: Blob, start: nat, arg: nat) returns (r: Decoded<Value>)
    requires start <= |b| < TWO_63 && arg < TWO_64
    ensures r == OldBody(b, start, 4, arg)
    decreases |b| - start, 1
  {
    var out: seq<Value> := [];
    ghost var trees: seq<Tree> := [];
    var p, i := start, 0;
    ghost var left: nat := arg;
    ItemsStart(b, start, arg);
    while i < arg
      invariant i <= arg && left == arg - i && start <= p
      invariant ItemsRead(b, start, arg, p, left, trees, out)
    {
      ghost var rest: nat := left - 1;
      var item := OldDecode(b, p);
      if item.Fail? {
        ItemsFailed(b, start, arg, p, left, trees, out);
        return Fail(item.err);
      }
      ItemsTurn(b, start, arg, p, left, rest, trees, out);
      trees := trees + [Parse(b, p).value];
      out, p, i, left := out + [item.value], item.next, i + 1, rest;
    }
    ItemsEnd(b, start, arg, p, trees, out);
    return Done(Array(out), p);
  }

  /** The map loop's state: `trees` are read, `left` entries are still to be read from `p` on. */
  ghost predicate EntriesRead(b: Blob, start: nat, arg: nat, p: nat, left: nat,
                              trees: seq<(Tree, Tree)>, out: map<Blob, Value>)
  {
    && start <= p <= |b| && out == TextMapOf(OldViewEntries(trees))
    && ParseEntries(b, start, arg) == After(trees, ParseEntries(b, p, left))
  }

  lemma EntriesStart(b: Blob, start: nat, arg: nat)
    requires start <= |b|
    ensures EntriesRead(b, start, arg, start, arg, [], map[])
  {
    AfterNothing(ParseEntries(b, start, arg));
  }

  lemma EntriesFailed(b: Blob, start: nat, arg: nat, p: nat, left: nat,
                      trees: seq<(Tree, Tree)>, out: map<Blob, Value>)
    requires EntriesRead(b, start, arg, p, left, trees, out) && left > 0 && ParseEntry(b, p).Fail?
    ensures ParseEntries(b, start, arg) == Fail(ParseEntry(b, p).err)
  {}

  lemma EntriesTurn(b: Blob, start: nat, arg: nat, p: nat, left: nat, rest: nat,
                    trees: seq<(Tree, Tree)>, out: map<Blob, Value>)
    requires EntriesRead(b, start, arg, p, left, trees, out) && left == rest + 1 && ParseEntry(b, p).Done?
    ensures var e, q := ParseEntry(b, p).value, ParseEntry(b, p).next;
      EntriesRead(b, start, arg, q, rest, trees + [e], PutText(out, OldPair(e)))
  {
    var e, q := ParseEntry(b, p).value, ParseEntry(b, p).next;
    AfterStep(trees, e, ParseEntries(b, q, rest));
    assert (trees + [e])[..|trees|] == trees;
    var kvs := OldViewEntries(trees);
    assert (kvs + [OldPair(e)])[..|kvs|] == kvs;
  }

  lemma EntriesEnd(b: Blob, start: nat, arg: nat, p: nat, trees: seq<(Tree, Tree)>, out: map<Blob, Value>)
    requires EntriesRead(b, start, arg, p, 0, trees, out) && arg < TWO_64
    ensures OldBody(b, start, 5, arg) == Done(Map(out), p)
  {
    AfterAll(trees, p);
  }

  method StoreText(m: map<Blob, Value>, kv: Binding) returns (out: map<Blob, Value>)
    ensures out == PutText(m, kv)
  {
    out := m;
    if kv.0.Text? {
      out := out[kv.0.s := kv.1];
    }
  }

  function OldPair(e: (Tree, Tree)): Binding { (OldView(e.0), OldView(e.1)) }

  /** One key and its value. */
  method OldEntry(b: Blob, p: nat) returns (r: Decoded<Binding>)
    requires |b| < TWO_63
    ensures r == OldSeen(ParseEntry(b, p), OldPair)
    decreases |b| - p, 1
  {
    var key := OldDecode(b, p);
    if key.Fail? {
      return Fail(key.err);
    }
    var val := OldDecode(b, key.next);
    if val.Fail? {
      return Fail(val.err);
    }
    return Done((key.value, val.value), val.next);
  }

  method OldMap(b: Blob, start: nat, arg: nat) returns (r: Decoded<Value>)
    requires start <= |b| < TWO_63 && arg < TWO_64
    ensures r == OldBody(b, start, 5, arg)
    decreases |b| - start, 2
  {
    var out: map<Blob, Value> := map[];
    ghost var trees: seq<(Tree, Tree)> := [];
    var p, i := start, 0;
    ghost var left: nat := arg;
    EntriesStart(b, start, arg);
    while i < arg
      invariant i <= arg && left == arg - i && start <= p
      invariant EntriesRead(b, start, arg, p, left, trees, out)
    {
      ghost var rest: nat := left - 1;
      var kv := OldEntry(b, p);
      if kv.Fail? {
        EntriesFailed(b, start, arg, p, left, trees, out);
        return Fail(kv.err);
      }
      EntriesTurn(b, start, arg, p, left, rest, trees, out);
      out := StoreText(out, kv.value);
      trees := trees + [ParseEntry(b, p).value];
      p, i, left := kv.next, i + 1, rest;
    }
    EntriesEnd(b, start, arg, p, trees, out);
    return Done(Map(out), p);
  }

  /** What the older map loop stores: a text key under itself, later entries over earlier ones, and
      nothing for any other key. */
  lemma TextKeysStored(kvs: seq<Binding>, key: Value, v: Value)
    ensures var before, after := TextMapOf(kvs), TextMapOf(kvs + [(key, v)]);
      && (key.Text? ==> after == before[key.s := v])
      && (!key.Text? ==> after == before)
  {
    assert (kvs + [(key, v)])[..|kvs|] == kvs;
  }

  // ---------- against the checked decoder ----------

  /** No map entry of the tree, at any depth that is stored, has a byte-string key. */
  ghost predicate NoByteKey(t: Tree)
    decreases t
  {
    match t
    case Leaf(_) => true
    case Branch(ts) => forall i :: 0 <= i < |ts| ==> NoByteKey(ts[i])
    case Dict(es) =>
      forall i :: 0 <= i < |es| ==>
        && !View(es[i].0).Bytes?
        && (View(es[i].0).Text? ==> assert es[i].1 < es[i]; NoByteKey(es[i].1))
  }

  lemma {:induction false} ViewsAt(ts: seq<Tree>, i: nat)
    requires i < |ts|
    ensures Views(ts)[i] == View(ts[i])
  {
    if i > 0 {
      ViewsAt(ts[1..], i - 1);
    }
  }

  lemma {:induction false} OldViewsAt(ts: seq<Tree>, i: nat)
    requires i < |ts|
    ensures OldViews(ts)[i] == OldView(ts[i])
  {
    if i < |ts| - 1 {
      OldViewsAt(ts[..|ts| - 1], i);
    }
  }

  lemma {:induction false} ViewEntriesAt(es: seq<(Tree, Tree)>, i: nat)
    requires i < |es|
    ensures ViewEntries(es)[i] == (View(es[i].0), View(es[i].1))
  {
    if i > 0 {
      ViewEntriesAt(es[1..], i - 1);
    }
  }

  lemma {:induction false} OldViewEntriesAt(es: seq<(Tree, Tree)>, i: nat)
    requires i < |es|
    ensures OldViewEntries(es)[i] == (OldView(es[i].0), OldView(es[i].1))
  {
    if i < |es| - 1 {
      OldViewEntriesAt(es[..|es| - 1], i);
    }
  }

  /** Both views of a key are the same string, or neither is a string. */
  lemma KeyViews(t: Tree)
    ensures OldView(t).Text? <==> View(t).Text?
    ensures View(t).Text? ==> OldView(t) == View(t)
    ensures OldView(t).Bytes? <==> View(t).Bytes?
  {}

  lemma {:induction false} SameStores(kvs: seq<Binding>, olds: seq<Binding>)
    requires |kvs| == |olds|
    requires forall i :: 0 <= i < |kvs| ==>
      && !kvs[i].0.Bytes? && (kvs[i].0.Text? <==> olds[i].0.Text?) && (kvs[i].0.Text? ==> kvs[i] == olds[i])
    ensures MapOf(kvs) == TextMapOf(olds)
  {
    if kvs != [] {
      var n := |kvs| - 1;
      SameStores(kvs[..n], olds[..n]);
    }
  }

  lemma {:induction false} SameViews(t: Tree)
    requires NoByteKey(t)
    ensures OldView(t) == View(t)
    decreases t
  {
    match t
    case Leaf(_) =>
    case Branch(ts) =>
      forall i | 0 <= i < |ts| ensures OldViews(ts)[i] == Views(ts)[i] {
        SameViews(ts[i]);
        ViewsAt(ts, i);
        OldViewsAt(ts, i);
      }
      assert OldViews(ts) == Views(ts);
    case Dict(es) =>
      var kvs, olds := ViewEntries(es), OldViewEntries(es);
      forall i | 0 <= i < |es|
        ensures !kvs[i].0.Bytes? && (kvs[i].0.Text? <==> olds[i].0.Text?)
        ensures kvs[i].0.Text? ==> kvs[i] == olds[i]
      {
        assert es[i].1 < es[i];
        if View(es[i].0).Text? {
          SameViews(es[i].1);
        }
        KeyViews(es[i].0);
        ViewEntriesAt(es, i);
        OldViewEntriesAt(es, i);
      }
      SameStores(kvs, olds);
  }

  /** On every buffer: the older decoder dies exactly where the checked one dies or reports a missing
      argument byte, reports every other error alike, ends in the same place, and yields the same value
      where no byte-string key is stored. */
  lemma OlderAgainstChecked(b: Blob, p: nat)
    ensures OldDec(b, p) == Fail(Panic) <==> Dec(b, p) == Fail(Panic) || Dec(b, p) == Fail(TruncatedArg)
    ensures forall e :: e != Panic && e != TruncatedArg ==> (OldDec(b, p) == Fail(e) <==> Dec(b, p) == Fail(e))
    ensures OldDec(b, p) != Fail(TruncatedArg)
    ensures OldDec(b, p).Done? <==> Dec(b, p).Done?
    ensures Dec(b, p).Done? ==> OldDec(b, p).next == Dec(b, p).next && Parse(b, p).Done?
    ensures Dec(b, p).Done? && NoByteKey(Parse(b, p).value) ==> OldDec(b, p) == Dec(b, p)
  {
    ParseIsDec(b, p);
    if Dec(b, p).Done? && NoByteKey(Parse(b, p).value) {
      SameViews(Parse(b, p).value);
    }
  }

  /** A cut argument stops the older decoder. */
  lemma OlderStops()
    ensures OldDec([0x18], 0) == Fail(Panic) && Dec([0x18], 0) == Fail(TruncatedArg)
  {}

  lemma OneByteKey(b: Blob)
    requires b == [0xa1, 0x41, 0x01, 0x00]
    ensures Parse(b, 0) == Done(Dict([(Leaf(Bytes([1])), Leaf(UInt(0)))]), 4)
  {
    assert b[2..3] == [1];
    assert Parse(b, 1) == Done(Leaf(Bytes([1])), 3);
    assert Parse(b, 3) == Done(Leaf(UInt(0)), 4);
    var e := (Leaf(Bytes([1])), Leaf(UInt(0)));
    assert ParseEntry(b, 1) == Done(e, 4);
    assert ParseEntries(b, 4, 0) == Done([], 4) && [e] + [] == [e];
    assert ParseEntries(b, 1, 1) == Done([e], 4);
  }

  lemma StoreOne(kv: Binding)
    ensures MapOf([kv]) == Put(map[], kv) && TextMapOf([kv]) == PutText(map[], kv)
  {
    var none: seq<Binding> := [kv][..0];
    assert none == [] && MapOf(none) == map[] && TextMapOf(none) == map[];
  }

  lemma ByteKeyViews(e: (Tree, Tree))
    requires e == (Leaf(Bytes([1])), Leaf(UInt(0)))
    ensures View(Dict([e])) == Map(map[[0x30, 0x31] := UInt(0)]) && OldView(Dict([e])) == Map(map[])
  {
    var kv: Binding := (Bytes([1]), UInt(0));
    assert Hex([1]) == [0x30, 0x31];
    ViewEntriesAt([e], 0);
    OldViewEntriesAt([e], 0);
    assert ViewEntries([e]) == [kv] && OldViewEntries([e]) == [kv];
    StoreOne(kv);
    assert NameOf(kv.0).Some? && NameOf(kv.0).value == [0x30, 0x31];
  }

  /** A byte-string key is lost to the older decoder. */
  lemma OlderForgets(b: Blob)
    requires b == [0xa1, 0x41, 0x01, 0x00]
    ensures OldDec(b, 0) == Done(Map(map[]), 4) && Dec(b, 0) == Done(Map(map[[0x30, 0x31] := UInt(0)]), 4)
  {
    OneByteKey(b);
    ParseIsDec(b, 0);
    ByteKeyViews((Leaf(Bytes([1])), Leaf(UInt(0))));
  }
}
