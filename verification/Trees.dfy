/** What the bytes say before a map is stored: the item tree with its keys as they are written. A
    decoder's value is a view of that tree. */
module Trees {
  import opened Bytes
  import opened Heads
  import opened Decoder

  datatype Tree = Leaf(v: Value) | Branch(items: seq<Tree>) | Dict(entries: seq<(Tree, Tree)>)

  // ---------- reading a tree ----------

  function Parse(b: Blob, p: nat): (r: Decoded<Tree>)
    ensures r.Done? ==> p < r.next <= |b|
    decreases |b| - p, 0
  {
    match ReadHead(b, p)
    case BadHead(e) => Fail(e)
    case GoodHead(major, arg, q) => ParseBody(b, q, major, arg)
  }

  function ParseBody(b: Blob, q: nat, major: nat, arg: nat): (r: Decoded<Tree>)
    requires q <= |b| && arg < TWO_64
    ensures r.Done? ==> q <= r.next <= |b|
    decreases |b| - q, 3
  {
    if major == 4 then
      match ParseItems(b, q, arg) {
        case Fail(e) => Fail(e)
        case Done(ts, n) => Done(Branch(ts), n)
      }
    else if major == 5 then
      match ParseEntries(b, q, arg) {
        case Fail(e) => Fail(e)
        case Done(es, n) => Done(Dict(es), n)
      }
    else
      match DecBody(b, q, major, arg) {
        case Fail(e) => Fail(e)
        case Done(v, n) => Done(Leaf(v), n)
      }
  }

  function ParseItems(b: Blob, p: nat, n: nat): (r: Decoded<seq<Tree>>)
    requires p <= |b|
    ensures r.Done? ==> p <= r.next <= |b|
    decreases |b| - p, 1
  {
    if n == 0 then Done([], p)
    else
      match Parse(b, p)
      case Fail(e) => Fail(e)
      case Done(t, q) => After([t], ParseItems(b, q, n - 1))
  }

  function ParseEntry(b: Blob, p: nat): (r: Decoded<(Tree, Tree)>)
    ensures r.Done? ==> p < r.next <= |b|
    decreases |b| - p, 1
  {
    match Parse(b, p)
    case Fail(e) => Fail(e)
    case Done(k, q) =>
      match Parse(b, q)
      case Fail(e) => Fail(e)
      case Done(v, q') => Done((k, v), q')
  }

  function ParseEntries(b: Blob, p: nat, n: nat): (r: Decoded<seq<(Tree, Tree)>>)
    requires p <= |b|
    ensures r.Done? ==> p <= r.next <= |b|
    decreases |b| - p, 2
  {
    if n == 0 then Done([], p)
    else
      match ParseEntry(b, p)
      case Fail(e) => Fail(e)
      case Done(e, q) => After([e], ParseEntries(b, q, n - 1))
  }

  // ---------- the decoder's view ----------

  function View(t: Tree): Value
    decreases t, 0
  {
    match t
    case Leaf(v) => v
    case Branch(ts) => Array(Views(ts))
    case Dict(es) => Map(MapOf(ViewEntries(es)))
  }

  function Views(ts: seq<Tree>): (vs: seq<Value>)
    ensures |vs| == |ts|
    decreases ts
  {
    if ts == [] then [] else [View(ts[0])] + Views(ts[1..])
  }

  function ViewEntries(es: seq<(Tree, Tree)>): (kvs: seq<Binding>)
    ensures |kvs| == |es|
    decreases es
  {
    if es == [] then []
    else
      assert es[0].0 < es[0] && es[0].1 < es[0];
      [(View(es[0].0), View(es[0].1))] + ViewEntries(es[1..])
  }

  function Seen<S, T>(r: Decoded<S>, view: S -> T): Decoded<T>
  {
    match r
    case Fail(e) => Fail(e)
    case Done(s, n) => Done(view(s), n)
  }

  /** What is decoded is a view of the tree that is there. */
  lemma {:induction false} ParseIsDec(b: Blob, p: nat)
    ensures Dec(b, p) == Seen(Parse(b, p), View)
    decreases |b| - p, 0
  {
    var h := ReadHead(b, p);
    if h.GoodHead? {
      if h.major == 4 {
        ParseIsDecItems(b, h.next, h.arg);
      } else if h.major == 5 {
        ParseIsDecEntries(b, h.next, h.arg);
      }
    }
  }

  lemma ViewsCons(t: Tree, ts: seq<Tree>)
    ensures Views([t] + ts) == [View(t)] + Views(ts)
  {
    assert ([t] + ts)[1..] == ts;
  }

  lemma ViewEntriesCons(e: (Tree, Tree), es: seq<(Tree, Tree)>)
    ensures ViewEntries([e] + es) == [(View(e.0), View(e.1))] + ViewEntries(es)
  {
    assert ([e] + es)[1..] == es;
  }

  lemma ViewsAfter(t: Tree, r: Decoded<seq<Tree>>)
    ensures Seen(After([t], r), Views) == After([View(t)], Seen(r, Views))
  {
    if r.Done? {
      ViewsCons(t, r.value);
    }
  }

  lemma DecItemsAfter(b: Blob, p: nat, n: nat, left: nat)
    requires p <= |b| && n == left + 1 && Dec(b, p).Done?
    ensures DecItems(b, p, n) == After([Dec(b, p).value], DecItems(b, Dec(b, p).next, left))
  {}

  lemma ParseItemsAfter(b: Blob, p: nat, n: nat, left: nat)
    requires p <= |b| && n == left + 1 && Parse(b, p).Done?
    ensures ParseItems(b, p, n) == After([Parse(b, p).value], ParseItems(b, Parse(b, p).next, left))
  {}

  lemma ItemsFail(b: Blob, p: nat, n: nat)
    requires p <= |b| && n > 0 && Dec(b, p) == Seen(Parse(b, p), View) && Parse(b, p).Fail?
    ensures DecItems(b, p, n) == Seen(ParseItems(b, p, n), Views)
  {}

  /** One item in front, on both sides. */
  lemma ItemsFront(b: Blob, p: nat, n: nat, left: nat)
    requires p <= |b| && n == left + 1 && Dec(b, p) == Seen(Parse(b, p), View)
    requires Parse(b, p).Done? ==>
      DecItems(b, Parse(b, p).next, left) == Seen(ParseItems(b, Parse(b, p).next, left), Views)
    ensures DecItems(b, p, n) == Seen(ParseItems(b, p, n), Views)
  {
    var t := Parse(b, p);
    if t.Fail? {
      ItemsFail(b, p, n);
    } else {
      DecItemsAfter(b, p, n, left);
      ParseItemsAfter(b, p, n, left);
      ViewsAfter(t.value, ParseItems(b, t.next, left));
    }
  }

  lemma {:induction false} ParseIsDecItems(b: Blob, p: nat, n: nat)
    requires p <= |b|
    ensures DecItems(b, p, n) == Seen(ParseItems(b, p, n), Views)
    decreases |b| - p, 1
  {
    if n > 0 {
      var left := n - 1;
      ParseIsDec(b, p);
      if Parse(b, p).Done? {
        ParseIsDecItems(b, Parse(b, p).next, left);
      }
      ItemsFront(b, p, n, left);
    }
  }

  lemma {:induction false} ParseIsDecEntry(b: Blob, p: nat)
    ensures DecBinding(b, p) == Seen(ParseEntry(b, p), (e: (Tree, Tree)) => (View(e.0), View(e.1)))
    decreases |b| - p, 1
  {
    ParseIsDec(b, p);
    if Parse(b, p).Done? {
      ParseIsDec(b, Parse(b, p).next);
    }
  }

  lemma {:induction false} ParseIsDecEntries(b: Blob, p: nat, n: nat)
    requires p <= |b|
    ensures DecBindings(b, p, n) == Seen(ParseEntries(b, p, n), ViewEntries)
    decreases |b| - p, 2
  {
    if n > 0 {
      var left := n - 1;
      ParseIsDecEntry(b, p);
      if ParseEntry(b, p).Done? {
        ParseIsDecEntries(b, ParseEntry(b, p).next, left);
      }
      EntriesFront(b, p, n, left);
    }
  }

  lemma EntriesFront(b: Blob, p: nat, n: nat, left: nat)
    requires p <= |b| && n == left + 1
    requires DecBinding(b, p) == Seen(ParseEntry(b, p), (e: (Tree, Tree)) => (View(e.0), View(e.1)))
    requires ParseEntry(b, p).Done? ==>
      DecBindings(b, ParseEntry(b, p).next, left)
      == Seen(ParseEntries(b, ParseEntry(b, p).next, left), ViewEntries)
    ensures DecBindings(b, p, n) == Seen(ParseEntries(b, p, n), ViewEntries)
  {
    var e := ParseEntry(b, p);
    if e.Done? && ParseEntries(b, e.next, left).Done? {
      ViewEntriesCons(e.value, ParseEntries(b, e.next, left).value);
    }
  }
}
