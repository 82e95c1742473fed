/** The decoder without its values: one linear scan with a count of the items still owed. It decides
    where an item ends, whether it decodes, and exactly when the decoder dies. */
module Skimming {
  import opened Bytes
  import opened Heads
  import opened Decoder

  datatype Step = Stop(err: DecError) | Onward(next: nat, owed: nat)

  datatype Skimmed = Dead(err: DecError) | Past(next: nat)

  /** One item head at `p`, with `n + 1` items owed: a string is jumped over, an array or a map
      owes its elements. */
  function StepOver(b: Blob, p: nat, n: nat): (s: Step)
    ensures s.Onward? ==> p < s.next <= |b|
  {
    match ReadHead(b, p)
    case BadHead(e) => Stop(e)
    case GoodHead(major, arg, q) =>
      if major == 2 || major == 3 then
        match ReadString(b, q, arg, if major == 2 then TruncatedBytes else TruncatedText) {
          case Fail(e) => Stop(e)
          case Done(_, end) => Onward(end, n)
        }
      else if major == 4 then Onward(q, arg + n)
      else if major == 5 then Onward(q, 2 * arg + n)
      else if major == 6 then Stop(Unsupported(6))
      else Onward(q, n)
  }

  /** Skim `n` items from `p` on. */
  function Skim(b: Blob, p: nat, n: nat): Skimmed
    decreases |b| - p
  {
    if n == 0 then Past(p)
    else
      match StepOver(b, p, n - 1)
      case Stop(e) => Dead(e)
      case Onward(q, owed) => Skim(b, q, owed)
  }

  /** The scan for `n` items from `p` on looks for an item at `at`. */
  predicate Reaches(b: Blob, p: nat, n: nat, at: nat)
    decreases |b| - p
  {
    n > 0 &&
    (at == p || (StepOver(b, p, n - 1).Onward? &&
                 Reaches(b, StepOver(b, p, n - 1).next, StepOver(b, p, n - 1).owed, at)))
  }

  function Then(s: Skimmed, b: Blob, n: nat): Skimmed
  {
    if s.Past? then Skim(b, s.next, n) else s
  }

  lemma StepMore(b: Blob, p: nat, m: nat, n: nat, all: nat)
    requires all == m + n
    ensures var s := StepOver(b, p, m);
      StepOver(b, p, all) == if s.Onward? then Onward(s.next, s.owed + n) else s
  {}

  lemma {:induction false} SkimSplit(b: Blob, p: nat, m: nat, n: nat, all: nat)
    requires all == m + n
    ensures Skim(b, p, all) == Then(Skim(b, p, m), b, n)
    decreases |b| - p
  {
    if m > 0 {
      var one := m - 1;
      var s := StepOver(b, p, one);
      if s.Onward? {
        var owed := s.owed + n;
        SkimSplit(b, s.next, s.owed, n, owed);
      }
      SplitStep(b, p, one, m, n, one + n, all);
    }
  }

  lemma SplitStep(b: Blob, p: nat, one: nat, m: nat, n: nat, some: nat, all: nat)
    requires m == one + 1 && some == one + n && all == some + 1
    requires var s := StepOver(b, p, one);
      s.Onward? ==> Skim(b, s.next, s.owed + n) == Then(Skim(b, s.next, s.owed), b, n)
    ensures Skim(b, p, all) == Then(Skim(b, p, m), b, n)
  {
    StepMore(b, p, one, n, some);
    SkimOnce(b, p, one, m);
    SkimOnce(b, p, some, all);
  }

  lemma SkimOnce(b: Blob, p: nat, n: nat, n': nat)
    requires n' == n + 1
    ensures var s := StepOver(b, p, n);
      Skim(b, p, n') == if s.Onward? then Skim(b, s.next, s.owed) else Dead(s.err)
  {}

  /** Where the decoder's result ends, or its error. */
  function Erase<T>(r: Decoded<T>): Skimmed
  {
    match r
    case Fail(e) => Dead(e)
    case Done(_, n) => Past(n)
  }

  /** The recursive decoder succeeds, ends and fails exactly as the linear scan does. */
  lemma {:induction false} SkimIsDec(b: Blob, p: nat)
    ensures Skim(b, p, 1) == Erase(Dec(b, p))
    decreases |b| - p, 0
  {
    var h := ReadHead(b, p);
    if h.GoodHead? {
      if h.major == 4 {
        SkimIsDecItems(b, h.next, h.arg);
      } else if h.major == 5 {
        SkimIsDecBindings(b, h.next, h.arg);
      }
    }
  }

  /** One item off the front of the scan. */
  lemma SkimFirst(b: Blob, p: nat, n: nat, left: nat)
    requires n == left + 1
    ensures Skim(b, p, n) == Then(Skim(b, p, 1), b, left)
  {
    SkimSplit(b, p, 1, left, n);
  }

  lemma ItemsFirst(b: Blob, p: nat, n: nat, left: nat)
    requires p <= |b| && n == left + 1
    ensures var r := Dec(b, p);
      Erase(DecItems(b, p, n)) == if r.Done? then Erase(DecItems(b, r.next, left)) else Dead(r.err)
  {}

  lemma BindingsFirst(b: Blob, p: nat, n: nat, left: nat)
    requires p <= |b| && n == left + 1
    ensures var r := DecBinding(b, p);
      Erase(DecBindings(b, p, n)) == if r.Done? then Erase(DecBindings(b, r.next, left)) else Dead(r.err)
  {}

  lemma {:induction false} SkimIsDecItems(b: Blob, p: nat, n: nat)
    requires p <= |b|
    ensures Skim(b, p, n) == Erase(DecItems(b, p, n))
    decreases |b| - p, 2
  {
    if n > 0 {
      var left := n - 1;
      SkimIsDec(b, p);
      SkimFirst(b, p, n, left);
      ItemsFirst(b, p, n, left);
      if Dec(b, p).Done? {
        SkimIsDecItems(b, Dec(b, p).next, left);
      }
    }
  }

  lemma {:induction false} SkimIsDecBinding(b: Blob, p: nat)
    ensures Skim(b, p, 2) == Erase(DecBinding(b, p))
    decreases |b| - p, 1
  {
    SkimIsDec(b, p);
    SkimFirst(b, p, 2, 1);
    if Dec(b, p).Done? {
      SkimIsDec(b, Dec(b, p).next);
    }
  }

  lemma {:induction false} SkimIsDecBindings(b: Blob, p: nat, n: nat)
    requires p <= |b|
    ensures Skim(b, p, 2 * n) == Erase(DecBindings(b, p, n))
    decreases |b| - p, 2
  {
    if n > 0 {
      var left := n - 1;
      SkimIsDecBinding(b, p);
      SkimSplit(b, p, 2, 2 * left, 2 * n);
      BindingsFirst(b, p, n, left);
      if DecBinding(b, p).Done? {
        SkimIsDecBindings(b, DecBinding(b, p).next, left);
      }
    }
  }

  // ---------- when the running decoder dies ----------

  /** At `at` stands the head of a string whose end is not representable in an `int`. */
  predicate LongString(b: Blob, at: nat)
  {
    var h := ReadHead(b, at);
    h.GoodHead? && h.major in {2, 3} && h.next + h.arg >= TWO_63
  }

  lemma {:induction false} SkimDiesExactlyWhen(b: Blob, p: nat, n: nat)
    requires |b| < TWO_63
    ensures Skim(b, p, n) == Dead(Panic) <==> exists at :: Reaches(b, p, n, at) && LongString(b, at)
    decreases |b| - p
  {
    if n > 0 {
      var s := StepOver(b, p, n - 1);
      assert Reaches(b, p, n, p);
      if s.Onward? {
        SkimDiesExactlyWhen(b, s.next, s.owed);
        assert forall at :: Reaches(b, s.next, s.owed, at) ==> Reaches(b, p, n, at);
        assert !LongString(b, p);
      } else {
        assert s.err == Panic <==> LongString(b, p);
      }
    }
  }

  /** The decoder dies exactly when its scan reaches the head of such a string; on every other buffer
      it returns a value or an error. */
  lemma DecDiesExactlyWhen(b: Blob, p: nat)
    requires |b| < TWO_63
    ensures Dec(b, p) == Fail(Panic) <==> exists at :: Reaches(b, p, 1, at) && LongString(b, at)
  {
    SkimIsDec(b, p);
    SkimDiesExactlyWhen(b, p, 1);
  }

  lemma {:induction false} ReachesForward(b: Blob, p: nat, n: nat, at: nat)
    requires Reaches(b, p, n, at)
    ensures p <= at
    decreases |b| - p
  {
    if at != p {
      var s := StepOver(b, p, n - 1);
      ReachesForward(b, s.next, s.owed, at);
    }
  }

  /** A check that needs no scan: without such a head at or behind `p`, the decoder does not die. */
  lemma NoLongStringNoPanic(b: Blob, p: nat)
    requires |b| < TWO_63 && forall at :: p <= at < |b| ==> !LongString(b, at)
    ensures Dec(b, p) != Fail(Panic)
  {
    DecDiesExactlyWhen(b, p);
    if at :| Reaches(b, p, 1, at) && LongString(b, at) {
      ReachesForward(b, p, 1, at);
    }
  }

  /** Nine bytes that stop the program: the head of a byte string of length 2^63 - 1. */
  lemma PanicWitness()
    ensures |Head(2, TWO_63 - 1)| == 9 && Dec(Head(2, TWO_63 - 1), 0) == Fail(Panic)
  {
    ReadOwnHead(2, TWO_63 - 1);
  }
}
