/** Comparing two check reports severity by severity, with a key that is total over the checks. */
module SweepVerify {
  import opened Options

  datatype Check = Check(category: string, name: string, severity: string)

  type Name = (string, string)

  type Key = (string, string, nat)

  function NameOf(c: Check): Name { (c.category, c.name) }

  /** The severities reported under one (category, name), in report order. */
  function Severities(checks: seq<Check>, n: Name): seq<string>
  {
    if checks == [] then []
    else
      var c := checks[|checks| - 1];
      Severities(checks[..|checks| - 1], n) + (if NameOf(c) == n then [c.severity] else [])
  }

  /** The map has exactly the ordinals 0, 1, ... of every (category, name), each with the severity
      that came at that place. */
  ghost predicate Faithful(m: map<Key, string>, checks: seq<Check>)
  {
    && (forall k: Key :: k in m <==> k.2 < |Severities(checks, (k.0, k.1))|)
    && (forall k: Key :: k in m ==> m[k] == Severities(checks, (k.0, k.1))[k.2])
  }

  lemma SeveritiesAppend(checks: seq<Check>, c: Check, n: Name)
    ensures Severities(checks + [c], n) == Severities(checks, n) + (if NameOf(c) == n then [c.severity] else [])
  {
    assert (checks + [c])[..|checks|] == checks;
  }

  function CountOf(seen: map<Name, nat>, n: Name): nat
  {
    if n in seen then seen[n] else 0
  }

  /** The next ordinal of every (category, name). */
  ghost predicate Counts(seen: map<Name, nat>, checks: seq<Check>)
  {
    forall n: Name :: CountOf(seen, n) == |Severities(checks, n)|
  }

  lemma CountStep(seen: map<Name, nat>, checks: seq<Check>, c: Check)
    requires Counts(seen, checks)
    ensures Counts(seen[NameOf(c) := CountOf(seen, NameOf(c)) + 1], checks + [c])
  {
    var seen' := seen[NameOf(c) := CountOf(seen, NameOf(c)) + 1];
    forall n: Name ensures CountOf(seen', n) == |Severities(checks + [c], n)| {
      SeveritiesAppend(checks, c, n);
      assert CountOf(seen, n) == |Severities(checks, n)|;
    }
  }

  /** The loop's state after a prefix of the checks. */
  ghost predicate Tracks(m: map<Key, string>, seen: map<Name, nat>, prefix: seq<Check>)
  {
    Faithful(m, prefix) && |m| == |prefix| && Counts(seen, prefix)
  }

  lemma TracksNothing()
    ensures Tracks(map[], map[], [])
  {}

  lemma PrefixGrows(checks: seq<Check>, i: nat)
    requires i < |checks|
    ensures checks[..i + 1] == checks[..i] + [checks[i]]
  {}

  /** One turn of the loop. */
  lemma TracksStep(m: map<Key, string>, seen: map<Name, nat>, prefix: seq<Check>, c: Check, n: nat)
    requires Tracks(m, seen, prefix) && n == CountOf(seen, NameOf(c))
    ensures Tracks(m[(c.category, c.name, n) := c.severity], seen[NameOf(c) := n + 1], prefix + [c])
  {
    var k: Key := (c.category, c.name, n);
    CountStep(seen, prefix, c);
    AddedEntry(m, prefix, c, n);
    OneMore(m, k, c.severity);
  }

  lemma OneMore(m: map<Key, string>, k: Key, v: string)
    requires k !in m
    ensures |m[k := v]| == |m| + 1
  {}

  /** One entry per check: nothing collapses, and nothing is invented. */
  method SevMap(checks: seq<Check>) returns (m: map<Key, string>)
    ensures Faithful(m, checks)
    ensures |m| == |checks|
  {
    m := map[];
    var seen: map<Name, nat> := map[];
    TracksNothing();
    var i := 0;
    while i < |checks|
      invariant 0 <= i <= |checks| && Tracks(m, seen, checks[..i])
    {
      var c := checks[i];
      var key := NameOf(c);
      var n := CountOf(seen, key);
      TracksStep(m, seen, checks[..i], c, n);
      PrefixGrows(checks, i);
      seen := seen[key := n + 1];
      m := m[(c.category, c.name, n) := c.severity];
      i := i + 1;
    }
    assert checks[..i] == checks;
  }

  lemma AddedEntry(m: map<Key, string>, checks: seq<Check>, c: Check, n: nat)
    requires Faithful(m, checks) && n == |Severities(checks, NameOf(c))|
    ensures (c.category, c.name, n) !in m
    ensures Faithful(m[(c.category, c.name, n) := c.severity], checks + [c])
  {
    var k0: Key := (c.category, c.name, n);
    var m' := m[k0 := c.severity];
    forall k: Key
      ensures k in m' <==> k.2 < |Severities(checks + [c], (k.0, k.1))|
      ensures k in m' ==> m'[k] == Severities(checks + [c], (k.0, k.1))[k.2]
    {
      SeveritiesAppend(checks, c, (k.0, k.1));
      if (k.0, k.1) == NameOf(c) && k.2 == n {
        assert k == k0;
      }
    }
  }

  function Get(m: map<Key, string>, k: Key): Option<string>
  {
    if k in m then Some(m[k]) else None
  }

  /** Keys whose severity differs, an absent key counting as different from every present one. */
  function Moved(a: map<Key, string>, b: map<Key, string>): set<Key>
  {
    set k | k in a.Keys + b.Keys && Get(a, k) != Get(b, k)
  }

  /** For every (category, name) the two reports carry the same severities in the same order. */
  ghost predicate SameSeverities(recent: seq<Check>, base: seq<Check>)
  {
    forall n: Name :: Severities(recent, n) == Severities(base, n)
  }

  /** Nothing moved exactly when, for every (category, name), the two reports carry the same list of
      severities in the same order. */
  lemma MovedExactly(recent: seq<Check>, base: seq<Check>, a: map<Key, string>, b: map<Key, string>)
    requires Faithful(a, recent) && Faithful(b, base)
    ensures Moved(a, b) == {} <==> SameSeverities(recent, base)
  {
    if Moved(a, b) == {} {
      forall n: Name ensures Severities(recent, n) == Severities(base, n) {
        SameList(recent, base, a, b, n);
      }
    }
    if SameSeverities(recent, base) {
      forall k: Key ensures Get(a, k) == Get(b, k) {
        var n: Name := (k.0, k.1);
        assert Severities(recent, n) == Severities(base, n);
      }
      assert Moved(a, b) == {};
    }
  }

  lemma SamePlace(recent: seq<Check>, base: seq<Check>, a: map<Key, string>, b: map<Key, string>, n: Name, i: nat)
    requires Faithful(a, recent) && Faithful(b, base) && Moved(a, b) == {}
    ensures i < |Severities(recent, n)| <==> i < |Severities(base, n)|
    ensures i < |Severities(recent, n)| ==> Severities(recent, n)[i] == Severities(base, n)[i]
  {
    var k: Key := (n.0, n.1, i);
    assert (k.0, k.1) == n;
    assert k !in Moved(a, b);
    assert Get(a, k) == Get(b, k);
  }

  lemma SameList(recent: seq<Check>, base: seq<Check>, a: map<Key, string>, b: map<Key, string>, n: Name)
    requires Faithful(a, recent) && Faithful(b, base) && Moved(a, b) == {}
    ensures Severities(recent, n) == Severities(base, n)
  {
    var s, t := Severities(recent, n), Severities(base, n);
    SamePlace(recent, base, a, b, n, |s|);
    SamePlace(recent, base, a, b, n, |t|);
    forall i: nat | i < |s| ensures s[i] == t[i] {
      SamePlace(recent, base, a, b, n, i);
    }
  }

  // ---------- the comparison ----------

  datatype Report = Report(checks: seq<Check>, starved: bool, failed: nat)

  /** A report that does not exist, fresh or baseline, is never ok. */
  method Compare(freshFile: Option<Report>, baseFile: Option<Report>) returns (ok: bool)
    ensures ok <==>
      && freshFile.Some? && baseFile.Some?
      && var recent, base := freshFile.value, baseFile.value;
         && recent.checks != [] && base.checks != []
         && !recent.starved && recent.failed == 0
         && SameSeverities(recent.checks, base.checks)
  {
    if freshFile.None? {
      return false;
    }
    if baseFile.None? {
      return false;
    }
    var recent, base := freshFile.value, baseFile.value;
    var a := SevMap(recent.checks);
    var b := SevMap(base.checks);
    if |b| == 0 || |a| == 0 {
      return false;
    }
    ok := true;
    if recent.starved {
      ok := false;
    }
    var shared := a.Keys * b.Keys;
    var least := if |a| <= |b| then |a| else |b|;
    if |shared| as real < 0.9 * least as real {
      ok := false;
    }
    var moved := Moved(a, b);
    if moved != {} {
      ok := false;
    } else {
      NothingMovedSharesAll(a, b);
    }
    if recent.failed > 0 {
      ok := false;
    }
    MovedExactly(recent.checks, base.checks, a, b);
  }

  /** When nothing moved the coverage test cannot fire: the two maps have the same keys. */
  lemma NothingMovedSharesAll(a: map<Key, string>, b: map<Key, string>)
    requires Moved(a, b) == {}
    ensures a.Keys == b.Keys && |a.Keys * b.Keys| == |a| == |b|
  {
    forall k ensures k in a.Keys <==> k in b.Keys {
      if k in a.Keys + b.Keys {
        assert k !in Moved(a, b);
      }
    }
    assert a.Keys * b.Keys == a.Keys;
  }

  /** The keys of a map without ordinals. */
  function NamesSeen(checks: seq<Check>): (names: set<Name>)
    ensures forall n :: n in names <==> exists i :: 0 <= i < |checks| && NameOf(checks[i]) == n
  {
    set i | 0 <= i < |checks| :: NameOf(checks[i])
  }

  /** No two checks share their (category, name). */
  ghost predicate NoneRepeats(checks: seq<Check>)
  {
    forall i, j :: 0 <= i < j < |checks| ==> NameOf(checks[i]) != NameOf(checks[j])
  }

  lemma RepeatsAppend(checks: seq<Check>, c: Check)
    ensures NoneRepeats(checks + [c]) <==> NoneRepeats(checks) && NameOf(c) !in NamesSeen(checks)
  {
    var all, n := checks + [c], |checks|;
    if NoneRepeats(all) {
      forall i | 0 <= i < n ensures NameOf(checks[i]) != NameOf(c) {
        assert NameOf(all[i]) != NameOf(all[n]);
      }
      forall i, j | 0 <= i < j < n ensures NameOf(checks[i]) != NameOf(checks[j]) {
        assert NameOf(all[i]) != NameOf(all[j]);
      }
    }
  }

  /** A map keyed by (category, name) alone has one entry per check exactly when no pair repeats;
      otherwise it has fewer, and some check's severity is lost from the comparison. */
  lemma {:induction false} OrdinalIsNeeded(checks: seq<Check>)
    ensures |NamesSeen(checks)| <= |checks|
    ensures |NamesSeen(checks)| == |checks| <==> NoneRepeats(checks)
  {
    if checks != [] {
      var n := |checks| - 1;
      OrdinalIsNeeded(checks[..n]);
      SeenAppend(checks[..n], checks[n]);
      RepeatsAppend(checks[..n], checks[n]);
      assert checks == checks[..n] + [checks[n]];
    }
  }

  lemma SeenAppend(checks: seq<Check>, c: Check)
    ensures NamesSeen(checks + [c]) == NamesSeen(checks) + {NameOf(c)}
  {
    forall n | n in NamesSeen(checks + [c]) ensures n in NamesSeen(checks) + {NameOf(c)} {
      var i :| 0 <= i < |checks| + 1 && NameOf((checks + [c])[i]) == n;
      assert i < |checks| ==> NameOf(checks[i]) == n;
    }
    forall n | n in NamesSeen(checks) + {NameOf(c)} ensures n in NamesSeen(checks + [c]) {
      if n == NameOf(c) {
        assert NameOf((checks + [c])[|checks|]) == n;
      } else {
        var i :| 0 <= i < |checks| && NameOf(checks[i]) == n;
        assert NameOf((checks + [c])[i]) == n;
      }
    }
  }
}
