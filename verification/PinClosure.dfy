/** The RPM pin resolver: a worklist closure over version-locked requirements, and the audit that
    judges committed groups. Package lookup and requirement inspection are parameters. */
module PinClosure {

  import opened Options

  datatype Pkg = Pkg(name: string, ver: string, rel: string)

  datatype GroupKey = GroupKey(src: string, ver: string, rel: string)

  datatype Member = Member(name: string, arch: string)

  datatype Location = Location(src: string, arch: string)

  /** The outside world: where a package is found, and which names it requires at its own
      version-release (a sorted list without repetition). */
  datatype World = World(resolve: Pkg -> Option<Location>, locked: Pkg -> seq<string>)
  {
    predicate Resolves(p: Pkg) { resolve(p).Some? }

    function KeyOf(p: Pkg): GroupKey
      requires Resolves(p)
    {
      GroupKey(resolve(p).value.src, p.ver, p.rel)
    }

    function MemberOf(p: Pkg): Member
      requires Resolves(p)
    {
      Member(p.name, resolve(p).value.arch)
    }

    /** A finite universe that contains everything its members require. */
    ghost predicate Universe(u: set<Pkg>)
    {
      forall p, d :: p in u && d in locked(p) ==> Sibling(p, d) in u
    }

    ghost predicate NoRepeats()
    {
      forall p :: Distinct(locked(p))
    }
  }

  function Sibling(p: Pkg, name: string): Pkg { Pkg(name, p.ver, p.rel) }

  ghost predicate Distinct<T(!new)>(s: seq<T>)
  {
    forall i, j :: 0 <= i < j < |s| ==> s[i] != s[j]
  }

  // ---------- the closure, declaratively ----------

  /** `s` contains every pin that resolves and, with a package, everything it requires at its own
      version that resolves. */
  ghost predicate Closed(w: World, pins: seq<Pkg>, s: set<Pkg>)
  {
    && (forall p :: p in pins && w.Resolves(p) ==> p in s)
    && (forall p, d :: p in s && d in w.locked(p) && w.Resolves(Sibling(p, d)) ==> Sibling(p, d) in s)
  }

  /** In every closed set. */
  ghost predicate Needed(w: World, pins: seq<Pkg>, p: Pkg)
  {
    forall s :: Closed(w, pins, s) ==> p in s
  }

  // ---------- what the run produces, as functions of the packages in processing order ----------

  /** The members filed under `k`. */
  function GroupOf(w: World, ps: seq<Pkg>, k: GroupKey): seq<Member>
  {
    if ps == [] then []
    else
      var p := ps[|ps| - 1];
      GroupOf(w, ps[..|ps| - 1], k) + (if w.Resolves(p) && w.KeyOf(p) == k then [w.MemberOf(p)] else [])
  }

  /** The group keys in the order they were opened. */
  function KeysOf(w: World, ps: seq<Pkg>): seq<GroupKey>
  {
    if ps == [] then []
    else
      var p, ks := ps[|ps| - 1], KeysOf(w, ps[..|ps| - 1]);
      if w.Resolves(p) && w.KeyOf(p) !in ks then ks + [w.KeyOf(p)] else ks
  }

  /** The packages that do not resolve, in order. */
  function Lost(w: World, ps: seq<Pkg>): seq<Pkg>
  {
    if ps == [] then []
    else
      Lost(w, ps[..|ps| - 1]) + (if w.Resolves(ps[|ps| - 1]) then [] else [ps[|ps| - 1]])
  }

  /** The requirements of `p` that have not been seen. */
  function Unseen(p: Pkg, names: seq<string>, seen: set<Pkg>): (extra: seq<Pkg>)
  {
    if names == [] then []
    else
      Unseen(p, names[..|names| - 1], seen)
      + (if Sibling(p, names[|names| - 1]) in seen then [] else [Sibling(p, names[|names| - 1])])
  }

  /** The packages known once the first `k` of them have been looked at, in the order in which they
      became known: the pins, then for each package in turn its requirements not known before. */
  ghost function Known(w: World, pins: seq<Pkg>, k: nat): seq<Pkg>
  {
    if k == 0 then pins
    else
      var known := Known(w, pins, k - 1);
      if k <= |known| && w.Resolves(known[k - 1])
      then known + Unseen(known[k - 1], w.locked(known[k - 1]), set p | p in known)
      else known
  }

  ghost predicate GroupsAre(w: World, groups: map<GroupKey, seq<Member>>, ps: seq<Pkg>)
  {
    && (forall k :: k in groups <==> k in KeysOf(w, ps))
    && (forall k :: k in groups ==> groups[k] == GroupOf(w, ps, k))
  }

  /** The resolved ones among the packages processed. */
  ghost function Found(w: World, ps: seq<Pkg>): set<Pkg>
  {
    set p | p in ps && w.Resolves(p)
  }

  // ---------- the worklist ----------

  /** The whole run so far: packages taken off the queue and packages still on it. */
  ghost function Whole(done: seq<Pkg>, queue: seq<(Pkg, bool)>): seq<Pkg>
  {
    done + seq(|queue|, i requires 0 <= i < |queue| => queue[i].0)
  }

  ghost predicate Elements(seen: set<Pkg>, whole: seq<Pkg>)
  {
    forall p :: p in seen <==> p in whole
  }

  /** Pins come first, every later item carries the closure mark. */
  ghost predicate PinsFirst(pins: seq<Pkg>, done: seq<Pkg>, queue: seq<(Pkg, bool)>)
  {
    && |pins| <= |Whole(done, queue)| && Whole(done, queue)[..|pins|] == pins
    && (forall i :: 0 <= i < |queue| ==> (queue[i].1 <==> |pins| <= |done| + i))
  }

  ghost predicate AllNeeded(w: World, pins: seq<Pkg>, whole: seq<Pkg>)
  {
    forall p :: p in whole && w.Resolves(p) ==> Needed(w, pins, p)
  }

  ghost predicate Expanded(w: World, done: seq<Pkg>, whole: seq<Pkg>)
  {
    forall p, d :: p in done && w.Resolves(p) && d in w.locked(p) ==> Sibling(p, d) in whole
  }

  lemma {:induction false} UnseenFacts(p: Pkg, names: seq<string>, seen: set<Pkg>)
    ensures forall q :: q in Unseen(p, names, seen) <==>
      q !in seen && q.ver == p.ver && q.rel == p.rel && q.name in names
    ensures Distinct(names) ==> Distinct(Unseen(p, names, seen))
  {
    if names != [] {
      var n := |names| - 1;
      UnseenFacts(p, names[..n], seen);
      var q := Sibling(p, names[n]);
      if Distinct(names) && q !in seen {
        assert names[n] !in names[..n];
      }
    }
  }

  lemma {:induction false} DistinctBounded(s: seq<Pkg>, u: set<Pkg>)
    requires Distinct(s) && forall p :: p in s ==> p in u
    ensures |s| <= |u|
  {
    if s != [] {
      var n := |s| - 1;
      assert s[n] !in s[..n];
      DistinctBounded(s[..n], u - {s[n]});
    }
  }

  lemma NeededStep(w: World, pins: seq<Pkg>, whole: seq<Pkg>, p: Pkg, extra: seq<Pkg>)
    requires AllNeeded(w, pins, whole) && p in whole && w.Resolves(p)
    requires forall q :: q in extra ==> q.name in w.locked(p) && q == Sibling(p, q.name)
    ensures AllNeeded(w, pins, whole + extra)
  {
    forall q | q in whole + extra && w.Resolves(q) ensures Needed(w, pins, q) {
      if q !in whole {
        forall s | Closed(w, pins, s) ensures q in s {
          assert Needed(w, pins, p);
        }
      }
    }
  }

  lemma WholeStep(done: seq<Pkg>, queue: seq<(Pkg, bool)>, extra: seq<Pkg>, queue': seq<(Pkg, bool)>)
    requires queue != []
    requires |queue'| == |queue| - 1 + |extra|
    requires forall i :: 0 <= i < |queue| - 1 ==> queue'[i] == queue[i + 1]
    requires forall i :: 0 <= i < |extra| ==> queue'[|queue| - 1 + i] == (extra[i], true)
    ensures Whole(done + [queue[0].0], queue') == Whole(done, queue) + extra
  {
    var a, b := Whole(done + [queue[0].0], queue'), Whole(done, queue) + extra;
    assert |a| == |b|;
    forall i | 0 <= i < |a| ensures a[i] == b[i] {
      if i > |done| && i < |done| + |queue| {
        assert a[i] == queue'[i - |done| - 1].0;
      } else if i >= |done| + |queue| {
        assert a[i] == queue'[|queue| - 1 + (i - |done| - |queue|)].0;
      }
    }
  }

  lemma DistinctConcat<T(!new)>(s: seq<T>, t: seq<T>)
    requires Distinct(s) && Distinct(t) && forall p :: p in t ==> p !in s
    ensures Distinct(s + t)
  {
    var u := s + t;
    forall i, j | 0 <= i < j < |u| ensures u[i] != u[j] {
      if i < |s| && |s| <= j {
        assert t[j - |s|] in t;
      }
    }
  }

  method Enqueue(queue: seq<(Pkg, bool)>, seen: set<Pkg>, extra: seq<Pkg>)
    returns (queue': seq<(Pkg, bool)>, seen': set<Pkg>)
    ensures |queue'| == |queue| + |extra| && queue'[..|queue|] == queue
    ensures forall i :: 0 <= i < |extra| ==> queue'[|queue| + i] == (extra[i], true)
    ensures forall p :: p in seen' <==> p in seen || p in extra
  {
    queue', seen' := queue, seen;
    var i := 0;
    while i < |extra|
      invariant 0 <= i <= |extra|
      invariant |queue'| == |queue| + i && queue'[..|queue|] == queue
      invariant forall j :: 0 <= j < i ==> queue'[|queue| + j] == (extra[j], true)
      invariant forall p :: p in seen' <==> p in seen || p in extra[..i]
    {
      seen' := seen' + {extra[i]};
      queue' := queue' + [(extra[i], true)];
      i := i + 1;
    }
    assert extra[..i] == extra;
  }

  method File(w: World, p: Pkg, groups: map<GroupKey, seq<Member>>, order: seq<GroupKey>, ghost ps: seq<Pkg>)
    returns (groups': map<GroupKey, seq<Member>>, order': seq<GroupKey>)
    requires w.Resolves(p) && GroupsAre(w, groups, ps) && order == KeysOf(w, ps)
    ensures GroupsAre(w, groups', ps + [p]) && order' == KeysOf(w, ps + [p])
  {
    var k := w.KeyOf(p);
    assert (ps + [p])[..|ps|] == ps;
    if k in groups {
      groups', order' := groups[k := groups[k] + [w.MemberOf(p)]], order;
    } else {
      NoKeyNoMembers(w, ps, k);
      groups', order' := groups[k := [w.MemberOf(p)]], order + [k];
    }
  }

  lemma {:induction false} NoKeyNoMembers(w: World, ps: seq<Pkg>, k: GroupKey)
    requires k !in KeysOf(w, ps)
    ensures GroupOf(w, ps, k) == []
  {
    if ps != [] {
      NoKeyNoMembers(w, ps[..|ps| - 1], k);
    }
  }

  lemma SkipPackage(w: World, p: Pkg, groups: map<GroupKey, seq<Member>>, ps: seq<Pkg>)
    requires !w.Resolves(p) && GroupsAre(w, groups, ps)
    ensures GroupsAre(w, groups, ps + [p]) && KeysOf(w, ps + [p]) == KeysOf(w, ps)
  {
    assert (ps + [p])[..|ps|] == ps;
    forall k ensures GroupOf(w, ps + [p], k) == GroupOf(w, ps, k) {
      assert GroupOf(w, ps, k) + [] == GroupOf(w, ps, k);
    }
  }

  /** What the loop keeps: nothing is queued twice, nothing is seen that a closed set could leave
      out, and what has been processed has had its requirements queued. */
  ghost predicate Running(w: World, pins: seq<Pkg>, universe: set<Pkg>, done: seq<Pkg>,
                          queue: seq<(Pkg, bool)>, seen: set<Pkg>)
  {
    var whole := Whole(done, queue);
    && Distinct(whole) && Elements(seen, whole)
    && (forall p :: p in whole ==> p in universe)
    && PinsFirst(pins, done, queue)
    && AllNeeded(w, pins, whole)
    && Expanded(w, done, whole)
    && whole == Known(w, pins, |done|)
  }

  lemma KnownGrows(w: World, pins: seq<Pkg>, done: seq<Pkg>, p: Pkg, whole: seq<Pkg>, seen: set<Pkg>)
    requires whole == Known(w, pins, |done|) && |done| < |whole| && whole[|done|] == p && Elements(seen, whole)
    ensures Known(w, pins, |done + [p]|)
         == if w.Resolves(p) then whole + Unseen(p, w.locked(p), seen) else whole
  {
    assert seen == set q | q in whole;
  }

  lemma ExtraFacts(w: World, p: Pkg, extra: seq<Pkg>, seen: set<Pkg>, whole: seq<Pkg>, universe: set<Pkg>)
    requires w.NoRepeats() && w.Universe(universe) && p in universe
    requires extra == Unseen(p, w.locked(p), seen) && Elements(seen, whole) && Distinct(whole)
    requires forall q :: q in whole ==> q in universe
    ensures Distinct(whole + extra) && forall q :: q in whole + extra ==> q in universe
    ensures forall q :: q in extra ==> q.name in w.locked(p) && q == Sibling(p, q.name)
    ensures forall d :: d in w.locked(p) ==> Sibling(p, d) in whole + extra
  {
    UnseenFacts(p, w.locked(p), seen);
    DistinctConcat(whole, extra);
    forall q | q in extra ensures q in universe {
      assert Sibling(p, q.name) == q;
    }
  }

  lemma PinsFirstStep(pins: seq<Pkg>, done: seq<Pkg>, queue: seq<(Pkg, bool)>, extra: seq<Pkg>,
                      queue': seq<(Pkg, bool)>)
    requires queue != [] && PinsFirst(pins, done, queue)
    requires |queue'| == |queue| - 1 + |extra|
    requires forall i :: 0 <= i < |queue| - 1 ==> queue'[i] == queue[i + 1]
    requires forall i :: 0 <= i < |extra| ==> queue'[|queue| - 1 + i] == (extra[i], true)
    ensures PinsFirst(pins, done + [queue[0].0], queue')
  {
    WholeStep(done, queue, extra, queue');
    forall i | 0 <= i < |queue'| ensures queue'[i].1 <==> |pins| <= |done| + 1 + i {
      if i >= |queue| - 1 {
        var j := i - (|queue| - 1);
        assert queue'[|queue| - 1 + j] == (extra[j], true);
        assert |pins| <= |done| + |queue|;
      }
    }
  }

  /** One turn of the loop that resolves its package. */
  lemma ResolvedStep(w: World, pins: seq<Pkg>, universe: set<Pkg>, done: seq<Pkg>,
                     queue: seq<(Pkg, bool)>, seen: set<Pkg>, extra: seq<Pkg>,
                     queue': seq<(Pkg, bool)>, seen': set<Pkg>)
    requires w.NoRepeats() && w.Universe(universe)
    requires Running(w, pins, universe, done, queue, seen) && queue != [] && w.Resolves(queue[0].0)
    requires extra == Unseen(queue[0].0, w.locked(queue[0].0), seen)
    requires |queue'| == |queue| - 1 + |extra|
    requires forall i :: 0 <= i < |queue| - 1 ==> queue'[i] == queue[i + 1]
    requires forall i :: 0 <= i < |extra| ==> queue'[|queue| - 1 + i] == (extra[i], true)
    requires forall p :: p in seen' <==> p in seen || p in extra
    ensures Running(w, pins, universe, done + [queue[0].0], queue', seen')
  {
    var p, whole := queue[0].0, Whole(done, queue);
    assert whole[|done|] == p;
    WholeStep(done, queue, extra, queue');
    ExtraFacts(w, p, extra, seen, whole, universe);
    NeededStep(w, pins, whole, p, extra);
    PinsFirstStep(pins, done, queue, extra, queue');
    ExpandedStep(w, done, whole, p, extra);
    KnownGrows(w, pins, done, p, whole, seen);
  }

  lemma ExpandedStep(w: World, done: seq<Pkg>, whole: seq<Pkg>, p: Pkg, extra: seq<Pkg>)
    requires Expanded(w, done, whole)
    requires w.Resolves(p) ==> forall d :: d in w.locked(p) ==> Sibling(p, d) in whole + extra
    ensures Expanded(w, done + [p], whole + extra)
  {}

  method Expand(w: World, ghost pins: seq<Pkg>, ghost universe: set<Pkg>, ghost done: seq<Pkg>,
                queue: seq<(Pkg, bool)>, seen: set<Pkg>)
    returns (queue': seq<(Pkg, bool)>, seen': set<Pkg>)
    requires w.NoRepeats() && w.Universe(universe)
    requires Running(w, pins, universe, done, queue, seen) && queue != [] && w.Resolves(queue[0].0)
    ensures Running(w, pins, universe, done + [queue[0].0], queue', seen')
    ensures |Whole(done, queue)| <= |Whole(done + [queue[0].0], queue')| <= |universe|
    ensures |Whole(done, queue)| == |Whole(done + [queue[0].0], queue')| ==> |queue'| < |queue|
  {
    var p := queue[0].0;
    var extra := Unseen(p, w.locked(p), seen);
    var rest := queue[1..];
    queue', seen' := Enqueue(rest, seen, extra);
    assert forall i :: 0 <= i < |rest| ==> queue'[i] == queue'[..|rest|][i];
    ResolvedStep(w, pins, universe, done, queue, seen, extra, queue', seen');
    WholeStep(done, queue, extra, queue');
    DistinctBounded(Whole(done + [p], queue'), universe);
  }

  /** One turn of the loop that does not resolve its package. */
  lemma Dequeue(w: World, pins: seq<Pkg>, universe: set<Pkg>, done: seq<Pkg>,
                queue: seq<(Pkg, bool)>, seen: set<Pkg>)
    requires Running(w, pins, universe, done, queue, seen) && queue != [] && !w.Resolves(queue[0].0)
    ensures Running(w, pins, universe, done + [queue[0].0], queue[1..], seen)
    ensures |Whole(done + [queue[0].0], queue[1..])| == |Whole(done, queue)| <= |universe|
  {
    var p, whole := queue[0].0, Whole(done, queue);
    assert whole[|done|] == p;
    KnownGrows(w, pins, done, p, whole, seen);
    WholeStep(done, queue, [], queue[1..]);
    assert whole + [] == whole;
    PinsFirstStep(pins, done, queue, [], queue[1..]);
    ExpandedStep(w, done, whole, p, []);
    DistinctBounded(whole, universe);
  }

  ghost function PinsDone(pins: seq<Pkg>, done: seq<Pkg>): seq<Pkg>
  {
    if |done| <= |pins| then done else pins
  }

  lemma PinsDoneStep(w: World, pins: seq<Pkg>, done: seq<Pkg>, queue: seq<(Pkg, bool)>)
    requires queue != [] && PinsFirst(pins, done, queue)
    ensures Lost(w, PinsDone(pins, done + [queue[0].0]))
         == Lost(w, PinsDone(pins, done))
          + (if w.Resolves(queue[0].0) || queue[0].1 then [] else [queue[0].0])
  {
    var p, whole := queue[0].0, Whole(done, queue);
    assert whole[..|done|] == done && whole[|done|] == p;
    if |done| < |pins| {
      assert (done + [p])[..|done|] == done;
    } else {
      assert Lost(w, pins) + [] == Lost(w, pins);
      if |done| == |pins| {
        assert done == pins;
      }
    }
  }

  /** At the end of a run the resolved packages are the least closed set. */
  lemma RunEnds(w: World, pins: seq<Pkg>, universe: set<Pkg>, done: seq<Pkg>, seen: set<Pkg>)
    requires Running(w, pins, universe, done, [], seen)
    ensures Distinct(done) && pins <= done && PinsDone(pins, done) == pins
    ensures done == Known(w, pins, |done|)
    ensures Closed(w, pins, Found(w, done))
    ensures forall p :: p in Found(w, done) <==> Needed(w, pins, p)
  {
    assert Whole(done, []) == done;
    assert pins <= done;
    if |done| == |pins| {
      assert done[..|pins|] == done;
    }
    forall p | p in pins && w.Resolves(p) ensures p in Found(w, done) {
      assert p in done[..|pins|];
    }
  }

  /** The run: `done` lists every package taken off the queue, each once, the pins first. What the
      groups hold is the least closed set; the result is 0 exactly when every pin resolved. */
  method Emit(w: World, pins: seq<Pkg>, ghost universe: set<Pkg>)
    returns (groups: map<GroupKey, seq<Member>>, order: seq<GroupKey>, unresolved: seq<Pkg>, rc: int,
             ghost done: seq<Pkg>)
    requires Distinct(pins) && w.NoRepeats()
    requires w.Universe(universe) && forall p :: p in pins ==> p in universe
    ensures Distinct(done) && pins <= done && done == Known(w, pins, |done|)
    ensures GroupsAre(w, groups, done) && order == KeysOf(w, done)
    ensures Closed(w, pins, Found(w, done))
    ensures forall p :: p in Found(w, done) <==> Needed(w, pins, p)
    ensures unresolved == Lost(w, pins)
    ensures rc == 0 <==> forall p :: p in pins ==> w.Resolves(p)
  {
    groups, order, unresolved, done := map[], [], [], [];
    var queue := seq(|pins|, i requires 0 <= i < |pins| => (pins[i], false));
    var seen := set p | p in pins;
    assert Whole(done, queue) == pins;
    while |queue| > 0
      invariant Running(w, pins, universe, done, queue, seen)
      invariant GroupsAre(w, groups, done) && order == KeysOf(w, done)
      invariant unresolved == Lost(w, PinsDone(pins, done))
      decreases |universe| - |Whole(done, queue)|, |queue|
    {
      PinsDoneStep(w, pins, done, queue);
      var (p, fromClosure) := queue[0];
      if !w.Resolves(p) {
        SkipPackage(w, p, groups, done);
        Dequeue(w, pins, universe, done, queue, seen);
        queue := queue[1..];
        if !fromClosure {
          unresolved := unresolved + [p];
        }
      } else {
        groups, order := File(w, p, groups, order, done);
        queue, seen := Expand(w, pins, universe, done, queue, seen);
      }
      done := done + [p];
    }
    RunEnds(w, pins, universe, done, seen);
    rc := if unresolved == [] then 0 else 1;
    LostNone(w, pins);
  }

  lemma {:induction false} LostNone(w: World, ps: seq<Pkg>)
    ensures Lost(w, ps) == [] <==> forall p :: p in ps ==> w.Resolves(p)
  {
    if ps != [] {
      LostNone(w, ps[..|ps| - 1]);
      assert ps == ps[..|ps| - 1] + [ps[|ps| - 1]];
    }
  }

  // ---------- each package once, under its own key ----------

  lemma {:induction false} GroupMembers(w: World, ps: seq<Pkg>, k: GroupKey)
    requires Distinct(ps)
    ensures forall m :: m in GroupOf(w, ps, k) <==>
      exists p :: p in ps && w.Resolves(p) && w.KeyOf(p) == k && w.MemberOf(p) == m
    ensures Distinct(GroupOf(w, ps, k))
    ensures forall i, j :: 0 <= i < j < |GroupOf(w, ps, k)| ==> GroupOf(w, ps, k)[i].name != GroupOf(w, ps, k)[j].name
  {
    if ps != [] {
      var n := |ps| - 1;
      var t, p := ps[..n], ps[n];
      assert ps == t + [p];
      GroupMembers(w, t, k);
      var g := GroupOf(w, t, k);
      if w.Resolves(p) && w.KeyOf(p) == k {
        forall i | 0 <= i < |g| ensures g[i].name != p.name {
          assert g[i] in g;
          var q :| q in t && w.Resolves(q) && w.KeyOf(q) == k && w.MemberOf(q) == g[i];
          assert q.ver == p.ver && q.rel == p.rel && p !in t;
        }
      }
    }
  }

  lemma {:induction false} KeysFacts(w: World, ps: seq<Pkg>)
    ensures Distinct(KeysOf(w, ps))
    ensures forall k :: k in KeysOf(w, ps) <==> exists p :: p in ps && w.Resolves(p) && w.KeyOf(p) == k
  {
    if ps != [] {
      var n := |ps| - 1;
      assert ps == ps[..n] + [ps[n]];
      KeysFacts(w, ps[..n]);
    }
  }

  /** Processing more packages adds behind what was printed: groups stand in the order in which they
      were opened, members and unresolved packages in the order in which they were processed. */
  lemma {:induction false} AddedBehind(w: World, s: seq<Pkg>, t: seq<Pkg>, k: GroupKey)
    ensures KeysOf(w, s) <= KeysOf(w, s + t)
    ensures GroupOf(w, s, k) <= GroupOf(w, s + t, k)
    ensures Lost(w, s) <= Lost(w, s + t)
  {
    if t == [] {
      assert s + t == s;
    } else {
      var n := |t| - 1;
      AddedBehind(w, s, t[..n], k);
      assert (s + t)[..|s + t| - 1] == s + t[..n];
    }
  }

  lemma {:induction false} LostAre(w: World, ps: seq<Pkg>, p: Pkg)
    ensures p in Lost(w, ps) <==> p in ps && !w.Resolves(p)
  {
    if ps != [] {
      var n := |ps| - 1;
      LostAre(w, ps[..n], p);
      assert ps == ps[..n] + [ps[n]];
    }
  }

  /** A found package appears in its own group, once, and no other group of its version and release
      has a member of its name. */
  lemma FiledOnce(w: World, groups: map<GroupKey, seq<Member>>, done: seq<Pkg>, p: Pkg)
    requires Distinct(done) && GroupsAre(w, groups, done)
    ensures p in Found(w, done) <==>
      exists k :: k in groups && k.ver == p.ver && k.rel == p.rel && w.Resolves(p)
               && k == w.KeyOf(p) && w.MemberOf(p) in groups[k]
    ensures forall k :: k in groups ==> Distinct(groups[k])
    ensures forall k, m :: k in groups && m in groups[k] && Pkg(m.name, k.ver, k.rel) == p ==>
      w.Resolves(p) && k == w.KeyOf(p) && m == w.MemberOf(p)
  {
    KeysFacts(w, done);
    forall k, m | k in groups && m in groups[k] && Pkg(m.name, k.ver, k.rel) == p
      ensures w.Resolves(p) && k == w.KeyOf(p) && m == w.MemberOf(p)
    {
      GroupMembers(w, done, k);
      var q :| q in done && w.Resolves(q) && w.KeyOf(q) == k && w.MemberOf(q) == m;
      assert q == p;
    }
    forall k | k in groups ensures Distinct(groups[k]) {
      GroupMembers(w, done, k);
    }
    if p in Found(w, done) {
      var k := w.KeyOf(p);
      GroupMembers(w, done, k);
      assert k in groups && w.MemberOf(p) in groups[k];
    }
    if k :| k in groups && w.Resolves(p) && k == w.KeyOf(p) && w.MemberOf(p) in groups[k] {
      GroupMembers(w, done, k);
      var q :| q in done && w.Resolves(q) && w.KeyOf(q) == k && w.MemberOf(q) == w.MemberOf(p);
      assert q == p;
    }
  }

  // ---------- the audit ----------

  datatype Group = Group(ver: string, rel: string, names: seq<string>)

  /** Requirements of a pinned name that are real packages and not among `have`. */
  function Missing(w: World, g: Group, name: string, have: set<string>): seq<string>
  {
    var p := Pkg(name, g.ver, g.rel);
    if w.Resolves(p) then MissingOf(w, p, w.locked(p), have) else []
  }

  function MissingOf(w: World, p: Pkg, deps: seq<string>, have: set<string>): seq<string>
  {
    if deps == [] then []
    else
      var d := deps[|deps| - 1];
      MissingOf(w, p, deps[..|deps| - 1], have)
      + (if d !in have && w.Resolves(Sibling(p, d)) then [d] else [])
  }

  /** What one group's lines report, name by name, with `have` growing by what was reported. */
  function Reports(w: World, g: Group, names: seq<string>, have: set<string>): seq<(string, seq<string>)>
  {
    if names == [] then []
    else
      var m := Missing(w, g, names[0], have);
      (if m == [] then [] else [(names[0], m)])
      + Reports(w, g, names[1..], have + SetOf(m))
  }

  function SetOf(names: seq<string>): set<string>
  {
    set n | n in names
  }

  function AllReports(w: World, gs: seq<Group>): seq<(string, seq<string>)>
  {
    if gs == [] then []
    else AllReports(w, gs[..|gs| - 1])
         + Reports(w, gs[|gs| - 1], gs[|gs| - 1].names, SetOf(gs[|gs| - 1].names))
  }

  method FindMissing(w: World, p: Pkg, have: set<string>) returns (missing: seq<string>)
    ensures missing == MissingOf(w, p, w.locked(p), have)
  {
    missing := [];
    var deps := w.locked(p);
    var i := 0;
    while i < |deps|
      invariant 0 <= i <= |deps| && missing == MissingOf(w, p, deps[..i], have)
    {
      assert deps[..i + 1][..i] == deps[..i];
      var dep := deps[i];
      if dep !in have {
        if w.Resolves(Sibling(p, dep)) {
          missing := missing + [dep];
        }
      }
      i := i + 1;
    }
    assert deps[..i] == deps;
  }

  lemma ReportsStep(w: World, g: Group, names: seq<string>, i: nat, have: set<string>,
                    lines: seq<(string, seq<string>)>)
    requires i < |names|
    ensures var m := Missing(w, g, names[i], have);
      lines + Reports(w, g, names[i..], have)
        == (if m == [] then lines else lines + [(names[i], m)]) + Reports(w, g, names[i + 1..], have + SetOf(m))
  {
    var m := Missing(w, g, names[i], have);
    var rest := Reports(w, g, names[i + 1..], have + SetOf(m));
    assert names[i..][0] == names[i] && names[i..][1..] == names[i + 1..];
    if m == [] {
      assert [] + rest == rest;
    } else {
      assert lines + ([(names[i], m)] + rest) == lines + [(names[i], m)] + rest;
    }
  }

  /** The loop's state after the names in front of `i`. */
  ghost predicate Audited(w: World, g: Group, i: nat, have: set<string>, lines: seq<(string, seq<string>)>)
  {
    && i <= |g.names|
    && Reports(w, g, g.names, SetOf(g.names)) == lines + Reports(w, g, g.names[i..], have)
  }

  lemma AuditStarts(w: World, g: Group)
    ensures Audited(w, g, 0, SetOf(g.names), [])
  {
    assert g.names[0..] == g.names;
    var all := Reports(w, g, g.names, SetOf(g.names));
    assert [] + all == all;
  }

  lemma AuditTurn(w: World, g: Group, i: nat, have: set<string>, lines: seq<(string, seq<string>)>,
                  missing: seq<string>)
    requires Audited(w, g, i, have, lines) && i < |g.names| && missing == Missing(w, g, g.names[i], have)
    ensures missing == [] ==> Audited(w, g, i + 1, have, lines)
    ensures missing != [] ==> Audited(w, g, i + 1, have + SetOf(missing), lines + [(g.names[i], missing)])
  {
    ReportsStep(w, g, g.names, i, have, lines);
    if missing == [] {
      assert have + SetOf(missing) == have;
    }
  }

  lemma AuditEnds(w: World, g: Group, have: set<string>, lines: seq<(string, seq<string>)>)
    requires Audited(w, g, |g.names|, have, lines)
    ensures lines == Reports(w, g, g.names, SetOf(g.names))
  {
    assert g.names[|g.names|..] == [] && lines + [] == lines;
  }

  method AuditGroup(w: World, g: Group) returns (lines: seq<(string, seq<string>)>)
    ensures lines == Reports(w, g, g.names, SetOf(g.names))
  {
    lines := [];
    var have := set n | n in g.names;
    var i := 0;
    AuditStarts(w, g);
    while i < |g.names|
      invariant Audited(w, g, i, have, lines)
    {
      var name := g.names[i];
      if !w.Resolves(Pkg(name, g.ver, g.rel)) {
        AuditTurn(w, g, i, have, lines, []);
      } else {
        var missing := FindMissing(w, Pkg(name, g.ver, g.rel), have);
        AuditTurn(w, g, i, have, lines, missing);
        if |missing| > 0 {
          lines := lines + [(name, missing)];
          have := have + (set d | d in missing);
        }
      }
      i := i + 1;
    }
    AuditEnds(w, g, have, lines);
  }

  method Audit(w: World, gs: seq<Group>) returns (bad: nat, rc: int)
    ensures bad == |AllReports(w, gs)|
    ensures rc == 0 <==> bad == 0
  {
    bad := 0;
    var i := 0;
    while i < |gs|
      invariant 0 <= i <= |gs| && bad == |AllReports(w, gs[..i])|
    {
      assert gs[..i + 1][..i] == gs[..i];
      var lines := AuditGroup(w, gs[i]);
      bad := bad + |lines|;
      i := i + 1;
    }
    assert gs[..i] == gs;
    rc := if bad > 0 then 1 else 0;
  }

  // ---------- what a clean audit means ----------

  /** Every resolvable locked requirement of a pinned name that resolves is pinned in the group. */
  ghost predicate GroupComplete(w: World, g: Group)
  {
    forall n :: n in g.names && w.Resolves(Pkg(n, g.ver, g.rel)) ==>
      forall d :: d in w.locked(Pkg(n, g.ver, g.rel)) && w.Resolves(Pkg(d, g.ver, g.rel)) ==> d in g.names
  }

  lemma {:induction false} MissingMembers(w: World, p: Pkg, deps: seq<string>, have: set<string>)
    ensures forall d :: d in MissingOf(w, p, deps, have) <==> d in deps && d !in have && w.Resolves(Sibling(p, d))
    ensures Distinct(deps) ==> Distinct(MissingOf(w, p, deps, have))
  {
    if deps != [] {
      var n := |deps| - 1;
      assert deps == deps[..n] + [deps[n]];
      MissingMembers(w, p, deps[..n], have);
    }
  }

  /** No line is reported exactly when every name's requirements are among what is pinned, although
      `have` grows while the names are gone through. */
  lemma {:induction false} NoReports(w: World, g: Group, names: seq<string>, have: set<string>)
    ensures Reports(w, g, names, have) == [] <==> forall n :: n in names ==> Missing(w, g, n, have) == []
  {
    if names != [] {
      var m := Missing(w, g, names[0], have);
      assert names == [names[0]] + names[1..];
      if m == [] {
        assert have + SetOf(m) == have;
        NoReports(w, g, names[1..], have);
      }
    }
  }

  lemma GroupClean(w: World, g: Group)
    ensures Reports(w, g, g.names, SetOf(g.names)) == [] <==> GroupComplete(w, g)
  {
    var have := SetOf(g.names);
    NoReports(w, g, g.names, have);
    forall n | n in g.names
      ensures Missing(w, g, n, have) == [] <==>
        (w.Resolves(Pkg(n, g.ver, g.rel)) ==>
          forall d :: d in w.locked(Pkg(n, g.ver, g.rel)) && w.Resolves(Pkg(d, g.ver, g.rel)) ==> d in g.names)
    {
      var p := Pkg(n, g.ver, g.rel);
      MissingMembers(w, p, w.locked(p), have);
      var m := MissingOf(w, p, w.locked(p), have);
      if m != [] {
        assert m[0] in m;
      }
    }
  }

  /** The audit reports nothing exactly when every group is complete. */
  lemma {:induction false} AuditExact(w: World, gs: seq<Group>)
    ensures AllReports(w, gs) == [] <==> forall g :: g in gs ==> GroupComplete(w, g)
  {
    if gs != [] {
      var n := |gs| - 1;
      assert gs == gs[..n] + [gs[n]];
      AuditExact(w, gs[..n]);
      GroupClean(w, gs[n]);
    }
  }

  function Flatten(lines: seq<(string, seq<string>)>): seq<string>
  {
    if lines == [] then [] else lines[0].1 + Flatten(lines[1..])
  }

  /** Some pinned name of the list needs `d`. */
  ghost predicate Wanted(w: World, g: Group, names: seq<string>, d: string)
  {
    exists n :: n in names && d in Missing(w, g, n, {})
  }

  lemma FlattenReports(w: World, g: Group, names: seq<string>, have: set<string>)
    requires names != []
    ensures var m := Missing(w, g, names[0], have);
      Flatten(Reports(w, g, names, have)) == m + Flatten(Reports(w, g, names[1..], have + SetOf(m)))
  {
    var m := Missing(w, g, names[0], have);
    var rest := Reports(w, g, names[1..], have + SetOf(m));
    if m == [] {
      assert [] + rest == rest && [] + Flatten(rest) == Flatten(rest);
    } else {
      assert ([(names[0], m)] + rest)[1..] == rest;
    }
  }

  lemma MissingWanted(w: World, g: Group, n: string, have: set<string>)
    requires w.NoRepeats()
    ensures Distinct(Missing(w, g, n, have))
    ensures forall d :: d in Missing(w, g, n, have) <==> d !in have && d in Missing(w, g, n, {})
  {
    var p := Pkg(n, g.ver, g.rel);
    MissingMembers(w, p, w.locked(p), have);
    MissingMembers(w, p, w.locked(p), {});
  }

  /** Within a group no requirement is reported twice, and those reported are exactly the ones some
      pinned name needs and the group lacks. */
  lemma {:induction false} ReportedOnce(w: World, g: Group, names: seq<string>, have: set<string>)
    requires w.NoRepeats()
    ensures Distinct(Flatten(Reports(w, g, names, have)))
    ensures forall d :: d in Flatten(Reports(w, g, names, have)) <==> d !in have && Wanted(w, g, names, d)
  {
    if names != [] {
      var m := Missing(w, g, names[0], have);
      var tail := Flatten(Reports(w, g, names[1..], have + SetOf(m)));
      FlattenReports(w, g, names, have);
      MissingWanted(w, g, names[0], have);
      ReportedOnce(w, g, names[1..], have + SetOf(m));
      DistinctConcat(m, tail);
      forall d ensures d in m + tail <==> d !in have && Wanted(w, g, names, d) {
        WantedCons(w, g, names, d);
        assert d in SetOf(m) <==> d in m;
      }
    }
  }

  lemma WantedCons(w: World, g: Group, names: seq<string>, d: string)
    requires names != []
    ensures Wanted(w, g, names, d) <==> d in Missing(w, g, names[0], {}) || Wanted(w, g, names[1..], d)
  {
    assert names == [names[0]] + names[1..];
  }

  /** A pinned name that resolves is locked to `d`, and `d` is a real package. */
  ghost predicate Needs(w: World, g: Group, name: string, d: string)
  {
    && w.Resolves(Pkg(name, g.ver, g.rel)) && d in w.locked(Pkg(name, g.ver, g.rel))
    && w.Resolves(Pkg(d, g.ver, g.rel))
  }

  /** The `i`-th name is the first that needs `d`, which is not at hand. */
  ghost predicate FirstNeeds(w: World, g: Group, names: seq<string>, have: set<string>, i: nat, d: string)
  {
    && i < |names| && d !in have && Needs(w, g, names[i], d)
    && forall j :: 0 <= j < i ==> !Needs(w, g, names[j], d)
  }

  /** The line stands under the `i`-th name and holds exactly what that name is the first to need. */
  ghost predicate Charges(w: World, g: Group, names: seq<string>, have: set<string>, i: nat,
                          l: (string, seq<string>))
  {
    i < |names| && names[i] == l.0 && forall d :: d in l.1 <==> FirstNeeds(w, g, names, have, i, d)
  }

  lemma MissingNeeds(w: World, g: Group, name: string, have: set<string>)
    requires w.NoRepeats()
    ensures forall d :: d in Missing(w, g, name, have) <==> d !in have && Needs(w, g, name, d)
  {
    var p := Pkg(name, g.ver, g.rel);
    MissingMembers(w, p, w.locked(p), have);
  }

  lemma FirstNeedsCons(w: World, g: Group, names: seq<string>, have: set<string>, i: nat, d: string)
    requires w.NoRepeats() && 0 < i < |names|
    ensures FirstNeeds(w, g, names, have, i, d)
       <==> FirstNeeds(w, g, names[1..], have + SetOf(Missing(w, g, names[0], have)), i - 1, d)
  {
    MissingNeeds(w, g, names[0], have);
    forall j | 0 < j < |names| ensures names[1..][j - 1] == names[j] {}
    if FirstNeeds(w, g, names[1..], have + SetOf(Missing(w, g, names[0], have)), i - 1, d) {
      forall j | 0 <= j < i ensures !Needs(w, g, names[j], d) {
        if j > 0 {
          assert names[j] == names[1..][j - 1];
        }
      }
    }
  }

  lemma ChargesCons(w: World, g: Group, names: seq<string>, have: set<string>, i: nat, l: (string, seq<string>))
    requires w.NoRepeats() && names != []
    requires Charges(w, g, names[1..], have + SetOf(Missing(w, g, names[0], have)), i, l)
    ensures Charges(w, g, names, have, i + 1, l)
  {
    forall d ensures d in l.1 <==> FirstNeeds(w, g, names, have, i + 1, d) {
      FirstNeedsCons(w, g, names, have, i + 1, d);
    }
  }

  /** A requirement the group lacks is reported under the first pinned name that needs it, and a line
      holds nothing else. */
  lemma {:induction false} ReportedUnder(w: World, g: Group, names: seq<string>, have: set<string>)
    requires w.NoRepeats()
    ensures forall l :: l in Reports(w, g, names, have) ==>
      l.1 != [] && exists i: nat :: Charges(w, g, names, have, i, l)
    ensures forall i, d :: 0 <= i < |names| && FirstNeeds(w, g, names, have, i, d) ==>
      exists l :: l in Reports(w, g, names, have) && l.0 == names[i] && d in l.1
  {
    if names != [] {
      var m := Missing(w, g, names[0], have);
      var more, rest := have + SetOf(m), Reports(w, g, names[1..], have + SetOf(m));
      MissingNeeds(w, g, names[0], have);
      ReportedUnder(w, g, names[1..], more);
      forall l | l in Reports(w, g, names, have)
        ensures l.1 != [] && exists i: nat :: Charges(w, g, names, have, i, l)
      {
        if m != [] && l == (names[0], m) {
          assert Charges(w, g, names, have, 0, l);
        } else {
          var i: nat :| Charges(w, g, names[1..], more, i, l);
          ChargesCons(w, g, names, have, i, l);
        }
      }
      forall i, d | 0 <= i < |names| && FirstNeeds(w, g, names, have, i, d)
        ensures exists l :: l in Reports(w, g, names, have) && l.0 == names[i] && d in l.1
      {
        if i == 0 {
          assert (names[0], m) in Reports(w, g, names, have);
        } else {
          FirstNeedsCons(w, g, names, have, i, d);
          var l :| l in rest && l.0 == names[1..][i - 1] && d in l.1;
          assert l in Reports(w, g, names, have);
        }
      }
    }
  }

  // ---------- the audit of what the resolver prints ----------

  function Names(ms: seq<Member>): (ns: seq<string>)
    ensures |ns| == |ms| && forall i :: 0 <= i < |ms| ==> ns[i] == ms[i].name
  {
    seq(|ms|, i requires 0 <= i < |ms| => ms[i].name)
  }

  function Printed(groups: map<GroupKey, seq<Member>>, order: seq<GroupKey>): (gs: seq<Group>)
    requires forall k :: k in order ==> k in groups
    ensures |gs| == |order|
    ensures forall i :: 0 <= i < |order| ==> gs[i] == Group(order[i].ver, order[i].rel, Names(groups[order[i]]))
  {
    seq(|order|, i requires 0 <= i < |order| => Group(order[i].ver, order[i].rel, Names(groups[order[i]])))
  }

  /** Everything a found package locks, and that resolves, resolves to the same source package. */
  ghost predicate SameSource(w: World, found: set<Pkg>)
  {
    forall p, d :: p in found && d in w.locked(p) && w.Resolves(p) && w.Resolves(Sibling(p, d)) ==>
      w.resolve(Sibling(p, d)).value.src == w.resolve(p).value.src
  }

  lemma NamedInGroup(w: World, done: seq<Pkg>, k: GroupKey, n: string)
    requires Distinct(done)
    ensures n in Names(GroupOf(w, done, k)) <==>
      Pkg(n, k.ver, k.rel) in Found(w, done) && w.KeyOf(Pkg(n, k.ver, k.rel)) == k
  {
    var g, p := GroupOf(w, done, k), Pkg(n, k.ver, k.rel);
    GroupMembers(w, done, k);
    if n in Names(g) {
      var i :| 0 <= i < |g| && Names(g)[i] == n;
      assert g[i] in g;
      var q :| q in done && w.Resolves(q) && w.KeyOf(q) == k && w.MemberOf(q) == g[i];
      assert q == p;
    }
    if p in Found(w, done) && w.KeyOf(p) == k {
      assert w.MemberOf(p) in g;
      var i :| 0 <= i < |g| && g[i] == w.MemberOf(p);
      assert Names(g)[i] == n;
    }
  }

  /** The audit accepts the groups the resolver prints if and only if locked requirements resolve to
      their requirer's own source package: a requirement found under another source is printed in
      another group, and the audit asks for it in this one. */
  lemma AuditAcceptsEmit(w: World, pins: seq<Pkg>, done: seq<Pkg>, groups: map<GroupKey, seq<Member>>)
    requires Distinct(done) && GroupsAre(w, groups, done) && Closed(w, pins, Found(w, done))
    ensures AllReports(w, Printed(groups, KeysOf(w, done))) == [] <==> SameSource(w, Found(w, done))
  {
    var order := KeysOf(w, done);
    var gs := Printed(groups, order);
    AuditExact(w, gs);
    KeysFacts(w, done);
    if SameSource(w, Found(w, done)) {
      forall g | g in gs ensures GroupComplete(w, g) {
        var i :| 0 <= i < |gs| && gs[i] == g;
        assert order[i] in order;
        CompleteIfSameSource(w, pins, done, order[i]);
      }
    }
    if forall g :: g in gs ==> GroupComplete(w, g) {
      forall p, d | p in Found(w, done) && d in w.locked(p) && w.Resolves(Sibling(p, d))
        ensures w.resolve(Sibling(p, d)).value.src == w.resolve(p).value.src
      {
        var k := w.KeyOf(p);
        assert k in order;
        var i :| 0 <= i < |order| && order[i] == k;
        assert GroupComplete(w, gs[i]);
        NamedInGroup(w, done, k, p.name);
        NamedInGroup(w, done, k, d);
      }
    }
  }

  lemma CompleteIfSameSource(w: World, pins: seq<Pkg>, done: seq<Pkg>, k: GroupKey)
    requires Distinct(done) && Closed(w, pins, Found(w, done)) && SameSource(w, Found(w, done))
    ensures GroupComplete(w, Group(k.ver, k.rel, Names(GroupOf(w, done, k))))
  {
    var g := Group(k.ver, k.rel, Names(GroupOf(w, done, k)));
    forall n, d | n in g.names && w.Resolves(Pkg(n, g.ver, g.rel)) && d in w.locked(Pkg(n, g.ver, g.rel))
      && w.Resolves(Pkg(d, g.ver, g.rel))
      ensures d in g.names
    {
      NamedInGroup(w, done, k, n);
      NamedInGroup(w, done, k, d);
      assert Pkg(d, g.ver, g.rel) == Sibling(Pkg(n, g.ver, g.rel), d);
    }
  }

  // ---------- a run the audit rejects ----------

  /** Package "a" requires "b" at its own version, and the two come from different sources. */
  function SplitWorld(): World
  {
    World((p: Pkg) => if p.name == "a" then Some(Location("s1", "noarch"))
               else if p.name == "b" then Some(Location("s2", "noarch")) else None,
          (p: Pkg) => if p.name == "a" then ["b"] else [])
  }

  const PINNED := Pkg("a", "1", "1")

  lemma SplitRejected(done: seq<Pkg>, groups: map<GroupKey, seq<Member>>)
    requires Distinct(done) && GroupsAre(SplitWorld(), groups, done)
    requires Closed(SplitWorld(), [PINNED], Found(SplitWorld(), done))
    ensures AllReports(SplitWorld(), Printed(groups, KeysOf(SplitWorld(), done))) != []
  {
    var w := SplitWorld();
    AuditAcceptsEmit(w, [PINNED], done, groups);
    assert PINNED in [PINNED] && w.Resolves(PINNED);
    assert "b" in w.locked(PINNED) && w.Resolves(Sibling(PINNED, "b"));
  }

  /** The resolver reports success on "a" and the audit rejects the groups it prints. */
  method RejectedRun() returns (emitted: int, audited: int)
    ensures emitted == 0 && audited != 0
  {
    var w := SplitWorld();
    ghost var universe := {PINNED, Sibling(PINNED, "b")};
    var groups, order, unresolved, rc, done := Emit(w, [PINNED], universe);
    SplitRejected(done, groups);
    KeysFacts(w, done);
    var bad, verdict := Audit(w, Printed(groups, order));
    return rc, verdict;
  }
}
