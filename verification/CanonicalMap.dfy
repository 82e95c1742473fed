/** The canonical map encoder: an in-place stable sort by encoded key, keep-first removal of
    duplicate keys, and the finite map that alone decides the bytes. */
module CanonicalMap {
  import opened Options
  import opened Bytes
  import opened Heads

  datatype Pair = Pair(k: Blob, v: Blob)

  function Txt(s: Blob): Blob { Head(3, |s|) + s }

  function Bstr(s: Blob): Blob { Head(2, |s|) + s }

  // ---------- what the encoder computes ----------

  /** Put `p` behind every pair of `s` whose key is not greater, moving it from the right end. */
  function Insert(s: seq<Pair>, p: Pair): (t: seq<Pair>)
    ensures |t| == |s| + 1
  {
    if s == [] || !KeyLess(p.k, s[|s| - 1].k) then s + [p]
    else Insert(s[..|s| - 1], p) + [s[|s| - 1]]
  }

  function Sorted(ps: seq<Pair>): (t: seq<Pair>)
    ensures |t| == |ps|
  {
    if ps == [] then [] else Insert(Sorted(ps[..|ps| - 1]), ps[|ps| - 1])
  }

  /** Drop every pair whose key equals that of the pair right before it. */
  function Dedup(s: seq<Pair>): (t: seq<Pair>)
    ensures |t| <= |s| && (s != [] ==> t != [])
  {
    if |s| < 2 then s
    else if s[|s| - 1].k == s[|s| - 2].k then Dedup(s[..|s| - 1])
    else Dedup(s[..|s| - 1]) + [s[|s| - 1]]
  }

  /** Put `p` in its place in a list of strictly ascending keys, unless its key is there already. */
  function PutFirst(s: seq<Pair>, p: Pair): (t: seq<Pair>)
    ensures |t| <= |s| + 1
  {
    if s == [] || KeyLess(s[|s| - 1].k, p.k) then s + [p]
    else if s[|s| - 1].k == p.k then s
    else PutFirst(s[..|s| - 1], p) + [s[|s| - 1]]
  }

  /** The finite map of the pairs, the first binding of a key winning, in key order. */
  function Canonical(ps: seq<Pair>): (c: seq<Pair>)
    ensures |c| <= |ps|
  {
    if ps == [] then [] else PutFirst(Canonical(ps[..|ps| - 1]), ps[|ps| - 1])
  }

  function Flatten(ps: seq<Pair>): Blob
  {
    if ps == [] then [] else ps[0].k + ps[0].v + Flatten(ps[1..])
  }

  function CMap(ps: seq<Pair>): Blob
  {
    Head(5, |Canonical(ps)|) + Flatten(Canonical(ps))
  }

  /** The encoder of the older probe, which does not remove duplicates. */
  function CMapKeepingAll(ps: seq<Pair>): Blob
  {
    Head(5, |ps|) + Flatten(Sorted(ps))
  }

  // ---------- the encoder as it runs ----------

  /** `s` with `x` between its first `j` pairs and the following ones up to `i`; `s[i]` is gone. */
  ghost function Moved(s: seq<Pair>, x: Pair, j: nat, i: nat): seq<Pair>
    requires j <= i < |s|
  {
    s[..j] + [x] + s[j..i] + s[i + 1..]
  }

  lemma InsertStep(s: seq<Pair>, x: Pair, j: nat, i: nat)
    requires 0 < j <= i <= |s| && KeyLess(x.k, s[j - 1].k)
    ensures Insert(s[..j], x) + s[j..i] == Insert(s[..j - 1], x) + s[j - 1..i]
  {
    assert s[..j][..j - 1] == s[..j - 1];
    assert s[j - 1..i] == [s[j - 1]] + s[j..i];
    var left := Insert(s[..j - 1], x);
    assert left + [s[j - 1]] + s[j..i] == left + ([s[j - 1]] + s[j..i]);
  }

  lemma MovedStep(s: seq<Pair>, x: Pair, j: nat, i: nat)
    requires 0 < j <= i < |s|
    ensures Moved(s, x, j, i)[j - 1 := x][j := s[j - 1]] == Moved(s, x, j - 1, i)
  {
    var m, m' := Moved(s, x, j, i)[j - 1 := x][j := s[j - 1]], Moved(s, x, j - 1, i);
    forall n | 0 <= n < |m| ensures m[n] == m'[n] {
      if n > j {}
    }
  }

  /** Swap the pair at `i` to the left as long as its key is less than its neighbour's. */
  method SiftLeft(a: array<Pair>, i: nat)
    requires i < a.Length
    modifies a
    ensures a[..] == Insert(old(a[..i]), old(a[i])) + old(a[i + 1..])
  {
    ghost var s := a[..];
    var j := i;
    while j > 0 && KeyLess(a[j].k, a[j - 1].k)
      invariant 0 <= j <= i
      invariant a[..] == Moved(s, s[i], j, i)
      invariant Insert(s[..j], s[i]) + s[j..i] == Insert(s[..i], s[i])
    {
      ghost var t := a[..];
      assert a[j] == t[j] == s[i] && a[j - 1] == t[j - 1] == s[j - 1];
      InsertStep(s, s[i], j, i);
      MovedStep(s, s[i], j, i);
      a[j - 1], a[j] := a[j], a[j - 1];
      assert a[..] == t[j - 1 := s[i]][j := s[j - 1]];
      j := j - 1;
    }
    ghost var t := a[..];
    assert a[j] == t[j] == s[i];
    assert j > 0 ==> a[j - 1] == t[j - 1] == s[j - 1] == s[..j][j - 1];
    assert Insert(s[..j], s[i]) == s[..j] + [s[i]];
  }

  /** The three parts of `u` followed by what stands in `was` from position `i` on. */
  lemma PartsAt(t: seq<Pair>, u: seq<Pair>, was: seq<Pair>, i: nat)
    requires i < |was| && |u| == i && t == u + was[i..]
    ensures |t| == |was| && t[..i] == u && t[i] == was[i] && t[i + 1..] == was[i + 1..]
  {
    forall k | i < k < |was| ensures t[k] == was[k] {}
  }

  lemma SortedStep(was: seq<Pair>, i: nat)
    requires i < |was|
    ensures Sorted(was[..i + 1]) == Insert(Sorted(was[..i]), was[i])
  {
    assert was[..i + 1][..i] == was[..i];
  }

  /** Insertion sort in place. */
  method StableSort(a: array<Pair>)
    modifies a
    ensures a[..] == Sorted(old(a[..]))
  {
    ghost var was := a[..];
    var i := 0;
    while i < a.Length
      invariant 0 <= i <= a.Length
      invariant a[..] == Sorted(was[..i]) + was[i..]
    {
      ghost var t := a[..];
      assert a[..i] == t[..i] && a[i] == t[i] && a[i + 1..] == t[i + 1..];
      PartsAt(t, Sorted(was[..i]), was, i);
      SortedStep(was, i);
      SiftLeft(a, i);
      i := i + 1;
    }
    assert was[..i] == was && was[i..] == [];
  }

  lemma EmitStep(out: Blob, ps: seq<Pair>)
    requires ps != []
    ensures out + Flatten(ps) == out + ps[0].k + ps[0].v + Flatten(ps[1..])
  {
    var k, v, f := ps[0].k, ps[0].v, Flatten(ps[1..]);
    assert out + (k + v + f) == out + k + v + f;
  }

  /** Concatenate the encoded pairs behind the map head. */
  method Emit(uniq: seq<Pair>) returns (out: Blob)
    requires |uniq| < TWO_64
    ensures out == Head(5, |uniq|) + Flatten(uniq)
  {
    out := WriteHead(5, |uniq|);
    ghost var rest := uniq;
    var j := 0;
    while j < |uniq|
      invariant 0 <= j <= |uniq| && rest == uniq[j..]
      invariant out + Flatten(rest) == Head(5, |uniq|) + Flatten(uniq)
    {
      EmitStep(out, rest);
      out := out + uniq[j].k;
      out := out + uniq[j].v;
      rest := rest[1..];
      j := j + 1;
    }
    assert out + [] == out;
  }

  /** The encoder with its package-level counter of dropped pairs. */
  class Encoder {
    var dedupDropped: nat

    constructor ()
      ensures dedupDropped == 0
    {
      dedupDropped := 0;
    }

    method DropDuplicates(ps: array<Pair>) returns (uniq: seq<Pair>)
      modifies this
      ensures uniq == Dedup(ps[..])
      ensures dedupDropped == old(dedupDropped) + (ps.Length - |uniq|)
    {
      uniq := [];
      var i := 0;
      while i < ps.Length
        invariant 0 <= i <= ps.Length
        invariant uniq == Dedup(ps[..i])
        invariant dedupDropped == old(dedupDropped) + (i - |uniq|)
      {
        assert ps[..i + 1][..i] == ps[..i];
        if i > 0 && ps[i].k == ps[i - 1].k {
          dedupDropped := dedupDropped + 1;
        } else {
          uniq := uniq + [ps[i]];
        }
        i := i + 1;
      }
      assert ps[..i] == ps[..];
    }

    /** Sorts the caller's slice in place and returns a fresh buffer. */
    method Encode(ps: array<Pair>) returns (out: Blob)
      requires ps.Length < TWO_64
      modifies ps, this
      ensures ps[..] == Sorted(old(ps[..]))
      ensures out == CMap(old(ps[..]))
      ensures dedupDropped == old(dedupDropped) + (|old(ps[..])| - |Canonical(old(ps[..]))|)
    {
      StableSort(ps);
      var uniq := DropDuplicates(ps);
      SortThenDedup(old(ps[..]));
      out := Emit(uniq);
    }

    /** A call that lists its pairs one by one: they arrive in a slice made for the call. */
    method EncodeArguments(args: seq<Pair>) returns (out: Blob)
      requires |args| < TWO_64
      modifies this
      ensures out == CMap(args)
      ensures dedupDropped == old(dedupDropped) + (|args| - |Canonical(args)|)
    {
      var ps := SliceOf(args);
      out := Encode(ps);
    }
  }

  // ---------- slices of pairs ----------

  /** A slice literal. */
  method SliceOf(ps: seq<Pair>) returns (a: array<Pair>)
    ensures fresh(a) && a[..] == ps
  {
    a := new Pair[|ps|](i requires 0 <= i < |ps| => ps[i]);
    assert a[..] == ps;
  }

  /** `append` on a slice whose backing array nobody else appends to. */
  method Append(a: array<Pair>, p: Pair) returns (r: array<Pair>)
    ensures fresh(r) && r[..] == a[..] + [p]
  {
    r := AppendAll(a, [p]);
  }

  method AppendAll(a: array<Pair>, ps: seq<Pair>) returns (r: array<Pair>)
    ensures fresh(r) && r[..] == a[..] + ps
  {
    ghost var all := a[..] + ps;
    r := new Pair[a.Length + |ps|](i requires 0 <= i < a.Length + |ps| reads a =>
      if i < a.Length then a[i] else ps[i - a.Length]);
    assert forall i :: 0 <= i < |all| ==> r[i] == all[i];
    assert r[..] == all;
  }

  // ---------- stability ----------

  /** The values filed under `k`, in order. */
  function WithKey(ps: seq<Pair>, k: Blob): (vs: seq<Blob>)
  {
    if ps == [] then []
    else WithKey(ps[..|ps| - 1], k) + (if ps[|ps| - 1].k == k then [ps[|ps| - 1].v] else [])
  }

  ghost predicate Ascending(s: seq<Pair>)
  {
    forall i, j :: 0 <= i < j < |s| ==> !KeyLess(s[j].k, s[i].k)
  }

  ghost predicate StrictlyAscending(s: seq<Pair>)
  {
    forall i, j :: 0 <= i < j < |s| ==> KeyLess(s[i].k, s[j].k)
  }

  lemma WithKeyAppend(s: seq<Pair>, p: Pair, k: Blob)
    ensures WithKey(s + [p], k) == WithKey(s, k) + (if p.k == k then [p.v] else [])
  {
    assert (s + [p])[..|s|] == s;
  }

  lemma {:induction false} WithKeyConcat(s: seq<Pair>, t: seq<Pair>, k: Blob)
    ensures WithKey(s + t, k) == WithKey(s, k) + WithKey(t, k)
  {
    if t == [] {
      assert s + t == s;
    } else {
      var n := |t| - 1;
      assert s + t == (s + t[..n]) + [t[n]] && t == t[..n] + [t[n]];
      WithKeyConcat(s, t[..n], k);
      WithKeyAppend(s + t[..n], t[n], k);
      WithKeyAppend(t[..n], t[n], k);
    }
  }

  lemma WithKeyPrepend(p: Pair, ps: seq<Pair>, k: Blob)
    ensures WithKey([p] + ps, k) == (if p.k == k then [p.v] else []) + WithKey(ps, k)
  {
    WithKeyConcat([p], ps, k);
    assert [p] == [] + [p];
    WithKeyAppend([], p, k);
  }

  lemma {:induction false} WithKeyInsert(s: seq<Pair>, p: Pair, k: Blob)
    ensures WithKey(Insert(s, p), k) == WithKey(s + [p], k)
  {
    WithKeyAppend(s, p, k);
    if s != [] && KeyLess(p.k, s[|s| - 1].k) {
      var t, e := s[..|s| - 1], s[|s| - 1];
      WithKeyInsert(t, p, k);
      KeyOrderTotal(p.k, e.k);
      assert s == t + [e];
      WithKeySwap(t, e, p, Insert(t, p), k);
    }
  }

  /** Pairs with different keys may change places. */
  lemma WithKeySwap(t: seq<Pair>, e: Pair, p: Pair, u: seq<Pair>, k: Blob)
    requires p.k != e.k && WithKey(u, k) == WithKey(t + [p], k)
    ensures WithKey(u + [e], k) == WithKey(t + [e] + [p], k)
  {
    WithKeyAppend(u, e, k);
    WithKeyAppend(t, p, k);
    WithKeyAppend(t, e, k);
    WithKeyAppend(t + [e], p, k);
  }

  /** Sorting keeps, for every key, the values and their order. */
  lemma {:induction false} SortIsStable(ps: seq<Pair>, k: Blob)
    ensures WithKey(Sorted(ps), k) == WithKey(ps, k)
  {
    if ps != [] {
      var t, e := ps[..|ps| - 1], ps[|ps| - 1];
      assert ps == t + [e];
      SortIsStable(t, k);
      WithKeyInsert(Sorted(t), e, k);
      WithKeyAppend(Sorted(t), e, k);
      WithKeyAppend(t, e, k);
    }
  }

  lemma NotLessTransitive(a: Blob, b: Blob, c: Blob)
    requires !KeyLess(b, a) && !KeyLess(c, b)
    ensures !KeyLess(c, a)
  {
    KeyOrderTotal(a, b);
    KeyOrderTotal(b, c);
    if KeyLess(c, a) && a != b && b != c {
      KeyOrderTransitive(a, b, c);
      KeyOrderTotal(a, c);
    }
  }

  lemma {:induction false} InsertAscending(s: seq<Pair>, p: Pair)
    requires Ascending(s)
    ensures Ascending(Insert(s, p))
    ensures forall x :: x in Insert(s, p) ==> x in s || x == p
  {
    if s != [] {
      var n := |s| - 1;
      if KeyLess(p.k, s[n].k) {
        InsertAscending(s[..n], p);
        KeyOrderTotal(p.k, s[n].k);
        var t := Insert(s[..n], p);
        forall i | 0 <= i < |t| ensures !KeyLess(s[n].k, t[i].k) {
          assert t[i] in t;
          assert t[i] in s[..n] || t[i] == p;
        }
      } else {
        forall i | 0 <= i <= n ensures !KeyLess(p.k, s[i].k) {
          if i < n {
            NotLessTransitive(s[i].k, s[n].k, p.k);
          }
        }
      }
    }
  }

  lemma {:induction false} SortedIsAscending(ps: seq<Pair>)
    ensures Ascending(Sorted(ps))
  {
    if ps != [] {
      SortedIsAscending(ps[..|ps| - 1]);
      InsertAscending(Sorted(ps[..|ps| - 1]), ps[|ps| - 1]);
    }
  }

  lemma {:induction false} WithKeyNonempty(s: seq<Pair>, k: Blob)
    ensures WithKey(s, k) != [] <==> exists i :: 0 <= i < |s| && s[i].k == k
  {
    if s != [] {
      var n := |s| - 1;
      WithKeyNonempty(s[..n], k);
      if WithKey(s[..n], k) != [] {
        var i :| 0 <= i < n && s[..n][i].k == k;
        assert s[i].k == k;
      }
      if exists i :: 0 <= i < |s| && s[i].k == k {
        var i :| 0 <= i < |s| && s[i].k == k;
        if i < n {
          assert s[..n][i].k == k;
        }
      }
    }
  }

  /** The last key of an ascending list is at least every key that occurs in it. */
  lemma LastIsGreatest(s: seq<Pair>, k: Blob)
    requires Ascending(s) && WithKey(s, k) != []
    ensures s != [] && !KeyLess(s[|s| - 1].k, k)
  {
    WithKeyNonempty(s, k);
    var i :| 0 <= i < |s| && s[i].k == k;
    KeyOrderTotal(k, k);
  }

  /** There is only one ascending list with given values per key: every stable sort, whatever its
      algorithm, returns what the insertion sort above returns. */
  lemma {:induction false} StableSortUnique(s: seq<Pair>, t: seq<Pair>)
    requires Ascending(s) && Ascending(t)
    requires forall k :: WithKey(s, k) == WithKey(t, k)
    ensures s == t
  {
    if s == [] || t == [] {
      if s != [] {
        WithKeyNonempty(s, s[0].k);
        WithKeyNonempty(t, s[0].k);
      }
      if t != [] {
        WithKeyNonempty(t, t[0].k);
        WithKeyNonempty(s, t[0].k);
      }
    } else {
      var a, b := s[|s| - 1], t[|t| - 1];
      var s', t' := s[..|s| - 1], t[..|t| - 1];
      assert s == s' + [a] && t == t' + [b];
      WithKeyAppend(s', a, a.k);
      WithKeyAppend(t', b, b.k);
      assert WithKey(s, a.k) != [] && WithKey(t, b.k) != [];
      LastIsGreatest(t, a.k);
      LastIsGreatest(s, b.k);
      KeyOrderTotal(a.k, b.k);
      assert a.k == b.k;
      var w := WithKey(s, a.k);
      assert w[|w| - 1] == a.v == b.v;
      forall k ensures WithKey(s', k) == WithKey(t', k) {
        WithKeyAppend(s', a, k);
        WithKeyAppend(t', b, k);
        AppendCancels(WithKey(s', k), WithKey(t', k), if a.k == k then [a.v] else []);
      }
      StableSortUnique(s', t');
    }
  }

  lemma AppendCancels<T>(x: seq<T>, y: seq<T>, z: seq<T>)
    requires x + z == y + z
    ensures x == y
  {
    assert |x + z| == |y + z|;
    assert x == (x + z)[..|x|] && y == (y + z)[..|y|];
  }

  // ---------- keep-first ----------

  /** The value a finite map read left to right, first binding wins, has at `k`. */
  function FirstValue(ps: seq<Pair>, k: Blob): Option<Blob>
  {
    var w := WithKey(ps, k);
    if w == [] then None else Some(w[0])
  }

  ghost predicate SameBindings(ps: seq<Pair>, qs: seq<Pair>)
  {
    forall k :: FirstValue(ps, k) == FirstValue(qs, k)
  }

  /** The first of some values, if there is one. */
  function FirstOnly(vs: seq<Blob>): seq<Blob>
  {
    if vs == [] then [] else [vs[0]]
  }

  /** One more pair behind a list whose removal is known. */
  lemma DedupStep(t: seq<Pair>, e: Pair, k: Blob)
    requires t != [] && Ascending(t + [e]) && WithKey(Dedup(t), k) == FirstOnly(WithKey(t, k))
    ensures WithKey(Dedup(t + [e]), k) == FirstOnly(WithKey(t + [e], k))
  {
    var s := t + [e];
    assert s[..|t|] == t && s[|t| - 1] == t[|t| - 1];
    WithKeyAppend(t, e, k);
    if e.k == t[|t| - 1].k {
      if e.k == k {
        WithKeyNonempty(t, k);
      }
    } else {
      WithKeyAppend(Dedup(t), e, k);
      NewKeyIsNew(t, e);
    }
  }

  lemma {:induction false} DedupKeepsFirst(s: seq<Pair>, k: Blob)
    requires Ascending(s)
    ensures WithKey(Dedup(s), k) == FirstOnly(WithKey(s, k))
  {
    if |s| == 1 {
      assert s == [] + [s[0]];
      WithKeyAppend([], s[0], k);
    } else if |s| > 1 {
      var t, e := s[..|s| - 1], s[|s| - 1];
      DedupKeepsFirst(t, k);
      assert s == t + [e];
      DedupStep(t, e, k);
    }
  }

  /** In an ascending list a key that differs from the one before it has not occurred. */
  lemma NewKeyIsNew(t: seq<Pair>, e: Pair)
    requires t != [] && Ascending(t + [e]) && e.k != t[|t| - 1].k
    ensures WithKey(t, e.k) == []
  {
    var s := t + [e];
    forall i, j | 0 <= i < j < |t| ensures !KeyLess(t[j].k, t[i].k) {
      assert s[i] == t[i] && s[j] == t[j];
    }
    if WithKey(t, e.k) != [] {
      LastIsGreatest(t, e.k);
      assert s[|t| - 1] == t[|t| - 1] && s[|t|] == e;
      KeyOrderTotal(e.k, t[|t| - 1].k);
    }
  }

  lemma {:induction false} DedupStrict(s: seq<Pair>)
    requires Ascending(s)
    ensures StrictlyAscending(Dedup(s))
    ensures s != [] ==> Dedup(s) != [] && Dedup(s)[|Dedup(s)| - 1].k == s[|s| - 1].k
  {
    if |s| > 1 {
      var n := |s| - 1;
      DedupStrict(s[..n]);
      var d := Dedup(s[..n]);
      if s[n].k != s[n - 1].k {
        KeyOrderTotal(s[n].k, s[n - 1].k);
        forall i | 0 <= i < |d| ensures KeyLess(d[i].k, s[n].k) {
          if i < |d| - 1 {
            KeyOrderTransitive(d[i].k, d[|d| - 1].k, s[n].k);
          }
        }
      }
    }
  }

  lemma StrictIsAscending(s: seq<Pair>)
    requires StrictlyAscending(s)
    ensures Ascending(s)
  {
    forall i, j | 0 <= i < j < |s| ensures !KeyLess(s[j].k, s[i].k) {
      KeyOrderTotal(s[i].k, s[j].k);
    }
  }

  lemma {:induction false} PutFirstStrict(s: seq<Pair>, p: Pair)
    requires StrictlyAscending(s)
    ensures StrictlyAscending(PutFirst(s, p))
    ensures forall x :: x in PutFirst(s, p) ==> x in s || x == p
  {
    if s != [] {
      var n := |s| - 1;
      var front, last := s[..n], s[n];
      if KeyLess(last.k, p.k) {
        forall i | 0 <= i < n ensures KeyLess(s[i].k, p.k) {
          KeyOrderTransitive(s[i].k, last.k, p.k);
        }
      } else if last.k != p.k {
        KeyOrderTotal(last.k, p.k);
        PutFirstStrict(front, p);
        var t := PutFirst(front, p);
        forall i | 0 <= i < |t| ensures KeyLess(t[i].k, last.k) {
          assert t[i] in t;
        }
      }
    }
  }

  lemma {:induction false} PutFirstValues(s: seq<Pair>, p: Pair, k: Blob)
    requires StrictlyAscending(s)
    ensures WithKey(PutFirst(s, p), k)
         == if p.k == k && WithKey(s, k) == [] then [p.v] else WithKey(s, k)
  {
    if s == [] {
      WithKeyAppend([], p, k);
    } else {
      var n := |s| - 1;
      var front, last := s[..n], s[n];
      assert s == front + [last];
      WithKeyAppend(front, last, k);
      if KeyLess(last.k, p.k) {
        WithKeyAppend(s, p, k);
        PutFirstStrict(s, p);
        StrictIsAscending(s + [p]);
        KeyOrderTotal(last.k, p.k);
        NewKeyIsNew(s, p);
      } else if last.k != p.k {
        PutFirstValues(front, p, k);
        WithKeyAppend(PutFirst(front, p), last, k);
      }
    }
  }

  /** The encoded pairs are in strictly ascending key order, and each key keeps exactly the value
      that came first in the input. */
  lemma {:induction false} CanonicalFacts(ps: seq<Pair>)
    ensures StrictlyAscending(Canonical(ps))
    ensures forall k :: WithKey(Canonical(ps), k)
                     == if FirstValue(ps, k).None? then [] else [FirstValue(ps, k).value]
    ensures SameBindings(Canonical(ps), ps)
  {
    if ps != [] {
      var n := |ps| - 1;
      var front, last := ps[..n], ps[n];
      assert ps == front + [last];
      CanonicalFacts(front);
      PutFirstStrict(Canonical(front), last);
      forall k
        ensures WithKey(Canonical(ps), k)
             == if FirstValue(ps, k).None? then [] else [FirstValue(ps, k).value]
      {
        PutFirstValues(Canonical(front), last, k);
        WithKeyAppend(front, last, k);
      }
    }
  }

  /** What the running encoder does, a stable sort followed by the removal of neighbours with equal
      keys, computes that finite map in key order. */
  lemma SortThenDedup(ps: seq<Pair>)
    ensures Dedup(Sorted(ps)) == Canonical(ps)
  {
    var d, c := Dedup(Sorted(ps)), Canonical(ps);
    SortedIsAscending(ps);
    DedupStrict(Sorted(ps));
    CanonicalFacts(ps);
    StrictIsAscending(d);
    StrictIsAscending(c);
    forall k ensures WithKey(d, k) == WithKey(c, k) {
      SortIsStable(ps, k);
      DedupKeepsFirst(Sorted(ps), k);
    }
    StableSortUnique(d, c);
  }

  lemma SameBindingsSameCanonical(ps: seq<Pair>, qs: seq<Pair>)
    requires SameBindings(ps, qs)
    ensures Canonical(ps) == Canonical(qs)
  {
    CanonicalFacts(ps);
    CanonicalFacts(qs);
    StrictIsAscending(Canonical(ps));
    StrictIsAscending(Canonical(qs));
    forall k ensures WithKey(Canonical(ps), k) == WithKey(Canonical(qs), k) {
      assert FirstValue(ps, k) == FirstValue(qs, k);
    }
    StableSortUnique(Canonical(ps), Canonical(qs));
  }

  lemma SameCanonicalSameBindings(ps: seq<Pair>, qs: seq<Pair>)
    requires Canonical(ps) == Canonical(qs)
    ensures SameBindings(ps, qs)
  {
    CanonicalFacts(ps);
    CanonicalFacts(qs);
    forall k ensures FirstValue(ps, k) == FirstValue(qs, k) {
      assert FirstValue(Canonical(ps), k) == FirstValue(ps, k);
      assert FirstValue(Canonical(qs), k) == FirstValue(qs, k);
    }
  }

  /** The encoded pairs are a function of the finite map, and determine it. */
  lemma CanonicalDependsOnBindings(ps: seq<Pair>, qs: seq<Pair>)
    ensures Canonical(ps) == Canonical(qs) <==> SameBindings(ps, qs)
  {
    if SameBindings(ps, qs) {
      SameBindingsSameCanonical(ps, qs);
    } else if Canonical(ps) == Canonical(qs) {
      SameCanonicalSameBindings(ps, qs);
    }
  }

  lemma {:induction false} WithKeyStrict(s: seq<Pair>, i: nat)
    requires StrictlyAscending(s) && i < |s|
    ensures WithKey(s, s[i].k) == [s[i].v]
  {
    var n := |s| - 1;
    var t := s[..n];
    assert s == t + [s[n]];
    WithKeyAppend(t, s[n], s[i].k);
    if i == n {
      WithKeyNonempty(t, s[n].k);
      if WithKey(t, s[n].k) != [] {
        var j :| 0 <= j < n && t[j].k == s[n].k;
        KeyOrderTotal(s[n].k, s[n].k);
      }
    } else {
      KeyOrderTotal(s[n].k, s[i].k);
      WithKeyStrict(t, i);
      assert t[i] == s[i];
    }
  }

  /** No earlier pair has the key of the pair at `i`. */
  ghost predicate FirstOfItsKey(ps: seq<Pair>, i: nat)
    requires i < |ps|
  {
    forall j :: 0 <= j < i ==> ps[j].k != ps[i].k
  }

  lemma {:induction false} FirstValueExactly(ps: seq<Pair>, i: nat)
    requires i < |ps| && FirstOfItsKey(ps, i)
    ensures FirstValue(ps, ps[i].k) == Some(ps[i].v)
  {
    var front, rest, k := ps[..i], ps[i..], ps[i].k;
    assert ps == front + rest && rest == [ps[i]] + ps[i + 1..];
    WithKeyNonempty(front, k);
    WithKeyConcat(front, rest, k);
    WithKeyPrepend(ps[i], ps[i + 1..], k);
  }

  lemma {:induction false} FirstPlace(ps: seq<Pair>, k: Blob) returns (i: nat)
    requires FirstValue(ps, k).Some?
    ensures i < |ps| && ps[i].k == k && FirstOfItsKey(ps, i)
  {
    WithKeyNonempty(ps, k);
    i := 0;
    while ps[i].k != k
      invariant i < |ps| && forall j :: 0 <= j < i ==> ps[j].k != k
      decreases |ps| - i
    {
      i := i + 1;
    }
  }

  /** The encoded pairs are those of the input whose key has not come before, in the order spelled
      out: shorter keys first, equally long ones by the first byte that differs. */
  lemma CanonicalMeaning(ps: seq<Pair>)
    ensures var c := Canonical(ps);
      && (forall i, j :: 0 <= i < j < |c| ==> KeyBefore(c[i].k, c[j].k))
      && (forall e :: e in c <==> exists i :: 0 <= i < |ps| && ps[i] == e && FirstOfItsKey(ps, i))
  {
    var c := Canonical(ps);
    CanonicalFacts(ps);
    forall i, j | 0 <= i < j < |c| ensures KeyBefore(c[i].k, c[j].k) {
      KeyOrderExactly(c[i].k, c[j].k);
    }
    forall e | e in c ensures exists i :: 0 <= i < |ps| && ps[i] == e && FirstOfItsKey(ps, i) {
      var n :| 0 <= n < |c| && c[n] == e;
      WithKeyStrict(c, n);
      var i := FirstPlace(ps, e.k);
      FirstValueExactly(ps, i);
      assert ps[i] == e;
    }
    forall i | 0 <= i < |ps| && FirstOfItsKey(ps, i) ensures ps[i] in c {
      FirstValueExactly(ps, i);
      assert WithKey(c, ps[i].k) == [ps[i].v];
      WithKeyNonempty(c, ps[i].k);
      var n :| 0 <= n < |c| && c[n].k == ps[i].k;
      WithKeyStrict(c, n);
    }
  }

  /** Already canonical pairs are left alone. */
  lemma CanonicalFixpoint(s: seq<Pair>)
    ensures Canonical(s) == s <==> StrictlyAscending(s)
  {
    CanonicalFacts(s);
    if StrictlyAscending(s) {
      var c := Canonical(s);
      StrictIsAscending(s);
      StrictIsAscending(c);
      forall k ensures WithKey(c, k) == WithKey(s, k) {
        WithKeyNonempty(s, k);
        if WithKey(s, k) != [] {
          var i :| 0 <= i < |s| && s[i].k == k;
          WithKeyStrict(s, i);
        }
      }
      StableSortUnique(c, s);
    }
  }

  lemma CanonicalIdempotent(ps: seq<Pair>)
    ensures Canonical(Canonical(ps)) == Canonical(ps)
  {
    CanonicalFacts(ps);
    CanonicalFixpoint(Canonical(ps));
  }

  // ---------- against the encoder that keeps duplicates ----------

  ghost predicate DistinctKeys(ps: seq<Pair>)
  {
    forall k :: |WithKey(ps, k)| <= 1
  }

  /** Without a repeated key nothing is dropped. */
  lemma DistinctKeepsAll(ps: seq<Pair>)
    requires DistinctKeys(ps)
    ensures Canonical(ps) == Sorted(ps) && |Canonical(ps)| == |ps|
  {
    CanonicalFacts(ps);
    SortedIsAscending(ps);
    StrictIsAscending(Canonical(ps));
    forall k ensures WithKey(Canonical(ps), k) == WithKey(Sorted(ps), k) {
      SortIsStable(ps, k);
      assert |WithKey(ps, k)| <= 1;
    }
    StableSortUnique(Canonical(ps), Sorted(ps));
  }

  /** The two encoders agree exactly on lists without a repeated key. */
  lemma DedupMattersExactlyOnDuplicates(ps: seq<Pair>)
    requires |ps| < TWO_64
    ensures CMap(ps) == CMapKeepingAll(ps) <==> DistinctKeys(ps)
  {
    var s, c := Sorted(ps), Canonical(ps);
    CanonicalFacts(ps);
    if DistinctKeys(ps) {
      DistinctKeepsAll(ps);
    }
    if CMap(ps) == CMapKeepingAll(ps) {
      var b := CMap(ps);
      ReadWrittenHead(5, |c|, b, 0);
      ReadWrittenHead(5, |s|, b, 0);
      assert |c| == |s|;
      SortThenDedup(ps);
      DedupFullIsIdentity(s);
      forall k ensures |WithKey(ps, k)| <= 1 {
        SortIsStable(ps, k);
        assert WithKey(c, k) == WithKey(s, k);
      }
    }
  }

  lemma {:induction false} DedupFullIsIdentity(s: seq<Pair>)
    requires |Dedup(s)| == |s|
    ensures Dedup(s) == s
  {
    if |s| >= 2 {
      DedupFullIsIdentity(s[..|s| - 1]);
    }
  }

  // ---------- key order on encodings is key order on contents ----------

  /** Comparing encoded keys of one string type is comparing their contents, across all head
      sizes. */
  lemma KeyOrderOnContents(a: Blob, b: Blob)
    ensures KeyLess(Txt(a), Txt(b)) <==> KeyBefore(a, b)
    ensures KeyLess(Bstr(a), Bstr(b)) <==> KeyBefore(a, b)
  {
    KeyOrderExactly(a, b);
    if |a| == |b| {
      LexCommonPrefix(Head(3, |a|), a, b);
      LexCommonPrefix(Head(2, |a|), a, b);
    } else if |a| < |b| {
      HeadLengthMonotone(3, 3, |a|, |b|);
      HeadLengthMonotone(2, 2, |a|, |b|);
    } else {
      HeadLengthMonotone(3, 3, |b|, |a|);
      HeadLengthMonotone(2, 2, |b|, |a|);
    }
  }
}
