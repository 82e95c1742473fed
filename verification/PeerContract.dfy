/** A peer's contract report: requirement rows computed from evidence, the verdict over them, and the
    checker that recomputes both from a committed report. */
module PeerContract {
  import opened Options

  // ---------- evidence ----------

  datatype Requirement = Requirement(name: string, level: string, evidence: string,
                                     cases: seq<string>, minTests: int, supersedes: seq<string>)

  datatype Registry = Registry(controls: seq<string>, requirements: seq<Requirement>)

  datatype Case = Case(id: string, pass: bool, observed: string)

  datatype TestOutcome = Ok | FAILED | Ignored

  datatype Evidence = Evidence(cases: seq<Case>, local: map<string, seq<TestOutcome>>,
                               declined: map<string, string>)

  // ---------- rows ----------

  datatype RowCase = RowCase(id: string, pass: bool, control: bool, observed: string)

  /** What the reason text of a row says. */
  datatype Reason =
    | NotMeasured(missing: seq<string>)
    | FailedCases(ids: seq<string>)
    | NoControlHeld
    | FailedTests(names: set<string>)
    | NoTestRan(prefix: string)
    | TooFewRan(ran: nat, least: int)
    | DeclinedWith(text: string)

  datatype Row = Row(name: string, level: string, evidence: string, supersedes: seq<string>,
                     verdict: string, reason: Option<Reason>,
                     cases: seq<RowCase>, tests: set<string>, testsRun: nat, minTests: int,
                     measured: Option<string>)

  /** The last record with the given id: the dictionary comprehension keeps the last. */
  function ById(cases: seq<Case>, id: string): Option<Case>
  {
    if cases == [] then None
    else if cases[|cases| - 1].id == id then Some(cases[|cases| - 1])
    else ById(cases[..|cases| - 1], id)
  }

  function Present(cases: seq<Case>, listed: seq<string>): seq<Case>
  {
    if listed == [] then []
    else
      Present(cases, listed[..|listed| - 1])
      + (match ById(cases, listed[|listed| - 1]) case Some(c) => [c] case None => [])
  }

  /** Listed ids without a record, in order. */
  function Unrecorded(cases: seq<Case>, listed: seq<string>): seq<string>
  {
    if listed == [] then []
    else
      Unrecorded(cases, listed[..|listed| - 1])
      + (if ById(cases, listed[|listed| - 1]).None? then [listed[|listed| - 1]] else [])
  }

  /** Ids of the records that do not pass, in order. */
  function FailedIds(present: seq<Case>): seq<string>
  {
    if present == [] then []
    else
      FailedIds(present[..|present| - 1])
      + (if present[|present| - 1].pass then [] else [present[|present| - 1].id])
  }

  /** Ids of the records that pass and are controls, in order. */
  function HeldIds(present: seq<Case>, controls: seq<string>): seq<string>
  {
    if present == [] then []
    else
      var c := present[|present| - 1];
      HeldIds(present[..|present| - 1], controls) + (if c.pass && c.id in controls then [c.id] else [])
  }

  lemma {:induction false} NoneUnrecorded(cases: seq<Case>, listed: seq<string>)
    ensures Unrecorded(cases, listed) == [] <==> forall id :: id in listed ==> ById(cases, id).Some?
  {
    if listed != [] {
      var n := |listed| - 1;
      NoneUnrecorded(cases, listed[..n]);
      assert listed == listed[..n] + [listed[n]];
      assert listed[n] in listed;
      assert forall id :: id in listed[..n] ==> id in listed;
    }
  }

  lemma {:induction false} NoneFailed(present: seq<Case>)
    ensures FailedIds(present) == [] <==> forall c :: c in present ==> c.pass
  {
    if present != [] {
      var n := |present| - 1;
      NoneFailed(present[..n]);
      assert present == present[..n] + [present[n]];
    }
  }

  lemma {:induction false} NoneHeld(present: seq<Case>, controls: seq<string>)
    ensures HeldIds(present, controls) == [] <==> forall c :: c in present ==> !(c.pass && c.id in controls)
  {
    if present != [] {
      var n := |present| - 1;
      NoneHeld(present[..n], controls);
      assert present == present[..n] + [present[n]];
    }
  }

  /** `name.replace(".", "_") + "__"` */
  function TestPrefix(name: string): string
  {
    seq(|name|, i requires 0 <= i < |name| => if name[i] == '.' then '_' else name[i]) + "__"
  }

  /** Test names with the requirement's prefix of which some run ended ok or FAILED. */
  function Ran(local: map<string, seq<TestOutcome>>, prefix: string): set<string>
  {
    set n | n in local && prefix <= n && (Ok in local[n] || FAILED in local[n])
  }

  function Bad(local: map<string, seq<TestOutcome>>, prefix: string): set<string>
  {
    set n | n in Ran(local, prefix) && FAILED in local[n]
  }

  function RowCases(present: seq<Case>, controls: seq<string>): (rs: seq<RowCase>)
    ensures |rs| == |present|
    ensures forall i :: 0 <= i < |rs| ==>
      rs[i] == RowCase(present[i].id, present[i].pass, present[i].id in controls, present[i].observed)
  {
    seq(|present|, i requires 0 <= i < |present| =>
      RowCase(present[i].id, present[i].pass, present[i].id in controls, present[i].observed))
  }

  function DriverVerdict(reg: Registry, req: Requirement, ev: Evidence): string
  {
    var present := Present(ev.cases, req.cases);
    if exists id :: id in req.cases && ById(ev.cases, id).None? then "unknown"
    else if exists c :: c in present && !c.pass then "fail"
    else if !exists c :: c in present && c.pass && c.id in reg.controls then "fail"
    else "pass"
  }

  function LocalVerdict(req: Requirement, ev: Evidence): string
  {
    var ran := Ran(ev.local, TestPrefix(req.name));
    if Bad(ev.local, TestPrefix(req.name)) != {} then "fail"
    else if ran == {} then "unknown"
    else if |ran| < req.minTests then "fail"
    else "pass"
  }

  /** The reason that goes with a driver verdict; none with a pass. */
  function DriverReason(reg: Registry, req: Requirement, ev: Evidence): Option<Reason>
  {
    var missing, failed := Unrecorded(ev.cases, req.cases), FailedIds(Present(ev.cases, req.cases));
    if missing != [] then Some(NotMeasured(missing))
    else if failed != [] then Some(FailedCases(failed))
    else if HeldIds(Present(ev.cases, req.cases), reg.controls) == [] then Some(NoControlHeld)
    else None
  }

  function LocalReason(req: Requirement, ev: Evidence): Option<Reason>
  {
    var prefix := TestPrefix(req.name);
    var ran, bad := Ran(ev.local, prefix), Bad(ev.local, prefix);
    if bad != {} then Some(FailedTests(bad))
    else if ran == {} then Some(NoTestRan(prefix))
    else if |ran| < req.minTests then Some(TooFewRan(|ran|, req.minTests))
    else None
  }

  function MeasuredReason(reg: Registry, req: Requirement, ev: Evidence): Option<Reason>
  {
    if req.evidence == "driver" then DriverReason(reg, req, ev) else LocalReason(req, ev)
  }

  function Measured(reg: Registry, req: Requirement, ev: Evidence): string
  {
    if req.evidence == "driver" then DriverVerdict(reg, req, ev) else LocalVerdict(req, ev)
  }

  function Declines(req: Requirement, ev: Evidence, measured: string): bool
  {
    req.level == "MODULE" && measured != "pass" && req.name in ev.declined
  }

  function EvaluateOne(reg: Registry, req: Requirement, ev: Evidence): Row
  {
    var measured := Measured(reg, req, ev);
    var declines := Declines(req, ev, measured);
    Row(req.name, req.level, req.evidence, req.supersedes,
        if declines then "declined" else measured,
        if declines then Some(DeclinedWith(ev.declined[req.name])) else MeasuredReason(reg, req, ev),
        if req.evidence == "driver" then RowCases(Present(ev.cases, req.cases), reg.controls) else [],
        if req.evidence == "driver" then {} else Ran(ev.local, TestPrefix(req.name)),
        if req.evidence == "driver" then 0 else |Ran(ev.local, TestPrefix(req.name))|,
        req.minTests,
        if declines then Some(measured) else None)
  }

  function Rows(reg: Registry, ev: Evidence): (rows: seq<Row>)
    ensures |rows| == |reg.requirements|
    ensures forall i :: 0 <= i < |rows| ==> rows[i] == EvaluateOne(reg, reg.requirements[i], ev)
  {
    seq(|reg.requirements|, i requires 0 <= i < |reg.requirements| => EvaluateOne(reg, reg.requirements[i], ev))
  }

  /** Builds one row per requirement, in registry order. */
  method Evaluate(reg: Registry, ev: Evidence) returns (rows: seq<Row>)
    ensures rows == Rows(reg, ev)
  {
    rows := [];
    ghost var all := Rows(reg, ev);
    var i := 0;
    while i < |reg.requirements|
      invariant 0 <= i <= |reg.requirements|
      invariant rows == all[..i]
    {
      var row := EvaluateRow(reg, reg.requirements[i], ev);
      PrefixStep(all, i);
      rows := rows + [row];
      i := i + 1;
    }
    WholePrefix(all);
  }

  lemma PrefixStep(rows: seq<Row>, i: nat)
    requires i < |rows|
    ensures rows[..i + 1] == rows[..i] + [rows[i]]
  {}

  lemma WholePrefix(rows: seq<Row>)
    ensures rows[..|rows|] == rows
  {}

  method EvaluateRow(reg: Registry, req: Requirement, ev: Evidence) returns (row: Row)
    ensures row == EvaluateOne(reg, req, ev)
  {
    var verdict, reason;
    var cases, tests := [], {};
    if req.evidence == "driver" {
      verdict, reason, cases := EvaluateDriver(reg, req, ev);
    } else {
      verdict, reason, tests := EvaluateLocal(req, ev);
    }
    row := Row(req.name, req.level, req.evidence, req.supersedes, verdict, reason, cases, tests, |tests|,
               req.minTests, None);
    if req.level == "MODULE" && verdict != "pass" && req.name in ev.declined {
      row := row.(measured := Some(verdict), verdict := "declined",
                  reason := Some(DeclinedWith(ev.declined[req.name])));
    }
  }

  /** The branches on the three lists are the branches of the rule. */
  lemma DriverBranches(reg: Registry, req: Requirement, ev: Evidence, missing: bool, failed: bool, held: bool)
    requires missing <==> Unrecorded(ev.cases, req.cases) != []
    requires failed <==> FailedIds(Present(ev.cases, req.cases)) != []
    requires held <==> HeldIds(Present(ev.cases, req.cases), reg.controls) != []
    ensures DriverVerdict(reg, req, ev)
         == if missing then "unknown" else if failed || !held then "fail" else "pass"
  {
    NoneUnrecorded(ev.cases, req.cases);
    NoneFailed(Present(ev.cases, req.cases));
    NoneHeld(Present(ev.cases, req.cases), reg.controls);
  }

  method EvaluateDriver(reg: Registry, req: Requirement, ev: Evidence)
    returns (verdict: string, reason: Option<Reason>, cases: seq<RowCase>)
    ensures verdict == DriverVerdict(reg, req, ev) && reason == DriverReason(reg, req, ev)
    ensures cases == RowCases(Present(ev.cases, req.cases), reg.controls)
  {
    var present, missing, failed, held := SplitCases(req.cases, ev.cases, reg.controls);
    DriverBranches(reg, req, ev, missing != [], failed != [], held != []);
    cases := RowCases(present, reg.controls);
    if |missing| > 0 {
      verdict, reason := "unknown", Some(NotMeasured(missing));
    } else if |failed| > 0 {
      verdict, reason := "fail", Some(FailedCases(failed));
    } else if |held| == 0 {
      verdict, reason := "fail", Some(NoControlHeld);
    } else {
      verdict, reason := "pass", None;
    }
  }

  method EvaluateLocal(req: Requirement, ev: Evidence)
    returns (verdict: string, reason: Option<Reason>, ran: set<string>)
    ensures verdict == LocalVerdict(req, ev) && reason == LocalReason(req, ev)
    ensures ran == Ran(ev.local, TestPrefix(req.name))
  {
    var prefix := TestPrefix(req.name);
    ran := Ran(ev.local, prefix);
    var bad := Bad(ev.local, prefix);
    if bad != {} {
      verdict, reason := "fail", Some(FailedTests(bad));
    } else if ran == {} {
      verdict, reason := "unknown", Some(NoTestRan(prefix));
    } else if |ran| < req.minTests {
      verdict, reason := "fail", Some(TooFewRan(|ran|, req.minTests));
    } else {
      verdict, reason := "pass", None;
    }
  }

  lemma FailedStep(present: seq<Case>, c: Case)
    ensures FailedIds(present + [c]) == FailedIds(present) + (if c.pass then [] else [c.id])
  {
    assert (present + [c])[..|present|] == present;
  }

  lemma HeldStep(present: seq<Case>, controls: seq<string>, c: Case)
    ensures HeldIds(present + [c], controls)
         == HeldIds(present, controls) + (if c.pass && c.id in controls then [c.id] else [])
  {
    assert (present + [c])[..|present|] == present;
  }

  lemma ListedStep(cases: seq<Case>, listed: seq<string>, i: nat)
    requires i < |listed|
    ensures var c := ById(cases, listed[i]);
      && Present(cases, listed[..i + 1]) == Present(cases, listed[..i]) + (if c.Some? then [c.value] else [])
      && Unrecorded(cases, listed[..i + 1]) == Unrecorded(cases, listed[..i]) + (if c.None? then [listed[i]] else [])
  {
    assert listed[..i + 1][..i] == listed[..i];
  }

  /** The list comprehensions over a requirement's listed cases. */
  method SplitCases(listed: seq<string>, cases: seq<Case>, controls: seq<string>)
    returns (present: seq<Case>, missing: seq<string>, failed: seq<string>, held: seq<string>)
    ensures present == Present(cases, listed) && missing == Unrecorded(cases, listed)
    ensures failed == FailedIds(present) && held == HeldIds(present, controls)
  {
    present, missing, failed, held := [], [], [], [];
    var i := 0;
    while i < |listed|
      invariant 0 <= i <= |listed|
      invariant present == Present(cases, listed[..i]) && missing == Unrecorded(cases, listed[..i])
      invariant failed == FailedIds(present) && held == HeldIds(present, controls)
    {
      ListedStep(cases, listed, i);
      match ById(cases, listed[i]) {
        case None =>
          missing := missing + [listed[i]];
        case Some(c) =>
          FailedStep(present, c);
          HeldStep(present, controls, c);
          present := present + [c];
          failed := failed + (if c.pass then [] else [c.id]);
          held := held + (if c.pass && c.id in controls then [c.id] else []);
      }
      i := i + 1;
    }
    assert listed[..i] == listed;
  }

  // ---------- the verdict ----------

  predicate Certifies(rows: seq<Row>, coreOk: bool)
  {
    && coreOk
    && (forall r :: r in rows && r.level == "REQUIRED" ==> r.verdict == "pass")
    && (forall r :: r in rows && r.level == "MODULE" ==> r.verdict == "pass" || r.verdict == "declined")
  }

  function Certify(rows: seq<Row>, coreOk: bool): string
  {
    if Certifies(rows, coreOk) then "certified" else "not-certified"
  }

  // ---------- the checker ----------

  datatype Report = Report(generatedBy: string, digest: string, verdict: string, coreOk: bool, rows: seq<Row>)

  datatype CheckError =
    | NotGenerated
    | CasesDoNotSupport(name: string)
    | TooFewTests(name: string)
    | MissingRows(names: set<string>)
    | WrongVerdict(claimed: string, computed: string)

  const GENERATOR := "tools/peer-contract/report.py"

  /** The row's own cases bear its claim: not empty, all passing, at least one passing control. */
  predicate CasesSupport(cases: seq<RowCase>)
  {
    && cases != []
    && (forall c :: c in cases ==> c.pass)
    && (exists c :: c in cases && c.control && c.pass)
  }

  function RowErrors(r: Row): seq<CheckError>
  {
    (if r.evidence == "driver" && r.verdict == "pass" && !CasesSupport(r.cases)
     then [CasesDoNotSupport(r.name)] else [])
    + (if r.evidence == "local" && r.verdict == "pass" && r.testsRun < r.minTests
       then [TooFewTests(r.name)] else [])
  }

  function AllRowErrors(rows: seq<Row>): seq<CheckError>
  {
    if rows == [] then [] else AllRowErrors(rows[..|rows| - 1]) + RowErrors(rows[|rows| - 1])
  }

  function NamesMissing(reg: Registry, rows: seq<Row>): set<string>
  {
    (set q | q in reg.requirements :: q.name) - (set r | r in rows :: r.name)
  }

  /** A report the checker has nothing to say against. */
  ghost predicate Accepted(doc: Report, reg: Registry, current: string)
  {
    && doc.generatedBy == GENERATOR
    && AllRowErrors(doc.rows) == []
    && !(doc.digest == current && NamesMissing(reg, doc.rows) != {})
    && doc.verdict == Certify(doc.rows, doc.coreOk)
  }

  method CheckReport(doc: Report, reg: Registry, current: string) returns (errors: seq<CheckError>)
    ensures errors == [] <==> Accepted(doc, reg, current)
    ensures doc.generatedBy != GENERATOR ==> errors == [NotGenerated]
    ensures doc.generatedBy == GENERATOR ==>
      var missing := NamesMissing(reg, doc.rows);
      var lacks := doc.digest == current && missing != {};
      var want := if lacks then "not-certified" else Certify(doc.rows, doc.coreOk);
      errors == AllRowErrors(doc.rows) + (if lacks then [MissingRows(missing)] else [])
              + (if doc.verdict != want then [WrongVerdict(doc.verdict, want)] else [])
  {
    if doc.generatedBy != GENERATOR {
      return [NotGenerated];
    }
    errors := [];
    var i := 0;
    while i < |doc.rows|
      invariant 0 <= i <= |doc.rows| && errors == AllRowErrors(doc.rows[..i])
    {
      assert doc.rows[..i + 1][..i] == doc.rows[..i];
      var r := doc.rows[i];
      ghost var before := errors;
      if r.evidence == "driver" && r.verdict == "pass" && !CasesSupport(r.cases) {
        errors := errors + [CasesDoNotSupport(r.name)];
      }
      if r.evidence == "local" && r.verdict == "pass" && r.testsRun < r.minTests {
        errors := errors + [TooFewTests(r.name)];
      }
      assert errors == before + RowErrors(r);
      i := i + 1;
    }
    assert doc.rows[..i] == doc.rows;
    var missing := NamesMissing(reg, doc.rows);
    var want := Certify(doc.rows, doc.coreOk);
    if doc.digest == current && missing != {} {
      errors := errors + [MissingRows(missing)];
      want := "not-certified";
    }
    if doc.verdict != want {
      errors := errors + [WrongVerdict(doc.verdict, want)];
    }
  }

  // ---------- the checker accepts what the evaluator produces ----------

  lemma {:induction false} NoRowErrors(rows: seq<Row>)
    ensures AllRowErrors(rows) == [] <==> forall r :: r in rows ==> RowErrors(r) == []
  {
    if rows != [] {
      var n := |rows| - 1;
      NoRowErrors(rows[..n]);
      assert rows == rows[..n] + [rows[n]];
    }
  }

  lemma CasesAreSupport(present: seq<Case>, controls: seq<string>)
    requires forall c :: c in present ==> c.pass
    requires exists c :: c in present && c.pass && c.id in controls
    ensures CasesSupport(RowCases(present, controls))
  {
    var rs := RowCases(present, controls);
    var c :| c in present && c.pass && c.id in controls;
    var i :| 0 <= i < |present| && present[i] == c;
    assert rs[i] in rs;
    forall rc | rc in rs ensures rc.pass {
      var j :| 0 <= j < |rs| && rs[j] == rc;
      assert present[j] in present;
    }
  }

  /** A measured pass is borne by the row's own evidence. */
  lemma PassIsSupported(reg: Registry, req: Requirement, ev: Evidence)
    ensures RowErrors(EvaluateOne(reg, req, ev)) == []
  {
    if req.evidence == "driver" && DriverVerdict(reg, req, ev) == "pass" {
      CasesAreSupport(Present(ev.cases, req.cases), reg.controls);
    }
  }

  /** Rows computed from any evidence, with the verdict computed over them, are accepted, at the
      current contract and at any other. */
  lemma CheckerAcceptsEvaluator(reg: Registry, ev: Evidence, coreOk: bool, digest: string, current: string)
    ensures Accepted(Report(GENERATOR, digest, Certify(Rows(reg, ev), coreOk), coreOk, Rows(reg, ev)), reg, current)
  {
    var rows := Rows(reg, ev);
    NoRowErrors(rows);
    forall r | r in rows ensures RowErrors(r) == [] {
      var i :| 0 <= i < |rows| && rows[i] == r;
      PassIsSupported(reg, reg.requirements[i], ev);
    }
    forall q | q in reg.requirements ensures exists r :: r in rows && r.name == q.name {
      var i :| 0 <= i < |reg.requirements| && reg.requirements[i] == q;
      assert rows[i] in rows && rows[i].name == q.name;
    }
    assert NamesMissing(reg, rows) == {};
  }

  /** What an accepted certificate at the current contract guarantees: the core is ok, every
      requirement of the registry has a row, and every REQUIRED row passes on its own evidence. */
  lemma AcceptedCertificate(doc: Report, reg: Registry, current: string)
    requires Accepted(doc, reg, current) && doc.digest == current && doc.verdict == "certified"
    ensures doc.coreOk
    ensures forall q :: q in reg.requirements ==> exists r :: r in doc.rows && r.name == q.name
    ensures forall r :: r in doc.rows && r.level == "REQUIRED" ==>
      && r.verdict == "pass"
      && (r.evidence == "driver" ==> CasesSupport(r.cases))
      && (r.evidence == "local" ==> r.testsRun >= r.minTests)
  {
    NoRowErrors(doc.rows);
    forall q | q in reg.requirements ensures exists r :: r in doc.rows && r.name == q.name {
      assert q.name !in NamesMissing(reg, doc.rows);
    }
    forall r | r in doc.rows ensures RowErrors(r) == [] {}
  }

  // ---------- what a certificate says of the registry ----------

  /** What a row says about itself that the checker never compares with the registry. */
  datatype Label = Label(name: string, level: string, evidence: string, minTests: int,
                         ids: seq<string>, tests: set<string>)

  function CaseIds(cases: seq<RowCase>): (ids: seq<string>)
    ensures |ids| == |cases| && forall i :: 0 <= i < |cases| ==> ids[i] == cases[i].id
  {
    seq(|cases|, i requires 0 <= i < |cases| => cases[i].id)
  }

  function LabelOf(r: Row): Label
  {
    Label(r.name, r.level, r.evidence, r.minTests, CaseIds(r.cases), r.tests)
  }

  function Labels(rows: seq<Row>): (ls: seq<Label>)
    ensures |ls| == |rows| && forall i :: 0 <= i < |rows| ==> ls[i] == LabelOf(rows[i])
  {
    seq(|rows|, i requires 0 <= i < |rows| => LabelOf(rows[i]))
  }

  ghost predicate PassesCase(cases: seq<RowCase>, id: string)
  {
    exists c :: c in cases && c.id == id && c.pass
  }

  /** The rule for driver requirements: every listed case recorded and passing, and one of them a
      control of the registry. */
  ghost predicate BorneByCases(cases: seq<RowCase>, q: Requirement, controls: seq<string>)
  {
    && (forall id :: id in q.cases ==> PassesCase(cases, id))
    && (exists id :: id in q.cases && id in controls && PassesCase(cases, id))
  }

  /** The tests that carry the requirement's prefix. */
  function Named(tests: set<string>, q: Requirement): set<string>
  {
    set n | n in tests && TestPrefix(q.name) <= n
  }

  predicate Enough(n: int, q: Requirement)
  {
    n >= 1 && n >= q.minTests
  }

  /** The rule for the others: of the tests with the requirement's prefix some ran, and at least the
      required number. */
  predicate BorneByTests(r: Row, q: Requirement)
  {
    Enough(r.testsRun, q) && Enough(|Named(r.tests, q)|, q)
  }

  /** The row passes, and what it records satisfies the requirement's own rule. */
  ghost predicate Bears(r: Row, q: Requirement, controls: seq<string>)
  {
    && r.verdict == "pass"
    && (if q.evidence == "driver" then BorneByCases(r.cases, q, controls) else BorneByTests(r, q))
  }

  ghost predicate BearsAll(rows: seq<Row>, reg: Registry)
  {
    forall r, q :: r in rows && q in reg.requirements && q.level == "REQUIRED" && r.name == q.name ==>
      Bears(r, q, reg.controls)
  }

  ghost predicate CertifiedWith(doc: Report, reg: Registry, current: string, labels: seq<Label>)
  {
    && Accepted(doc, reg, current) && doc.digest == current && doc.verdict == "certified"
    && Labels(doc.rows) == labels
  }

  /** Whatever certificate is accepted with these labels, its rows bear the REQUIRED requirements of
      their names. */
  ghost predicate Guarantees(reg: Registry, current: string, labels: seq<Label>)
  {
    forall doc :: CertifiedWith(doc, reg, current, labels) ==> BearsAll(doc.rows, reg)
  }

  predicate Agrees(l: Label, q: Requirement, controls: seq<string>)
  {
    && l.level == "REQUIRED"
    && if q.evidence == "driver" then
         && l.evidence == "driver"
         && (forall id :: id in q.cases ==> id in l.ids)
         && (exists id :: id in q.cases && id in controls)
       else
         l.evidence == "local" && Enough(l.minTests, q) && Enough(|Named(l.tests, q)|, q)
  }

  ghost predicate LabelsAgree(labels: seq<Label>, reg: Registry)
  {
    forall l, q :: l in labels && q in reg.requirements && q.level == "REQUIRED" && l.name == q.name ==>
      Agrees(l, q, reg.controls)
  }

  predicate Passable(l: Label)
  {
    l.level == "REQUIRED" && l.evidence == "driver" ==> l.ids != []
  }

  /** Every requirement has a row, and no REQUIRED driver row is without cases: otherwise nothing is
      accepted as a certificate at the current contract. */
  predicate Certifiable(labels: seq<Label>, reg: Registry)
  {
    && (forall q :: q in reg.requirements ==> exists l :: l in labels && l.name == q.name)
    && (forall l :: l in labels ==> Passable(l))
  }

  /** The exact condition. The checker compares no row's level, evidence, threshold, case ids, control
      flags or test names with the registry, so an accepted certificate means that every REQUIRED requirement
      is borne by its own rule if and only if those labels agree with the registry. */
  lemma CertificateMeansExactly(reg: Registry, current: string, labels: seq<Label>)
    ensures Guarantees(reg, current, labels) <==> Certifiable(labels, reg) ==> LabelsAgree(labels, reg)
  {
    forall doc | CertifiedWith(doc, reg, current, labels)
      ensures Certifiable(labels, reg) && (LabelsAgree(labels, reg) ==> BearsAll(doc.rows, reg))
    {
      AcceptedIsCertifiable(doc, reg, current);
      AgreeingLabelsSuffice(doc, reg, current);
    }
    if Certifiable(labels, reg) && !LabelsAgree(labels, reg) {
      var l, q :| l in labels && q in reg.requirements && q.level == "REQUIRED" && l.name == q.name
        && !Agrees(l, q, reg.controls);
      MisledIsCertified(labels, l, q, reg, current);
      MisledBearsNot(labels, l, q, reg, current);
    }
  }

  lemma LabelIn(rows: seq<Row>, r: Row)
    requires r in rows
    ensures LabelOf(r) in Labels(rows)
  {
    var i :| 0 <= i < |rows| && rows[i] == r;
    assert Labels(rows)[i] == LabelOf(r);
  }

  lemma AcceptedIsCertifiable(doc: Report, reg: Registry, current: string)
    requires Accepted(doc, reg, current) && doc.digest == current && doc.verdict == "certified"
    ensures Certifiable(Labels(doc.rows), reg)
  {
    var labels := Labels(doc.rows);
    AcceptedCertificate(doc, reg, current);
    forall q | q in reg.requirements ensures exists l :: l in labels && l.name == q.name {
      var r :| r in doc.rows && r.name == q.name;
      LabelIn(doc.rows, r);
    }
    forall l | l in labels ensures Passable(l) {
      var i :| 0 <= i < |labels| && labels[i] == l;
      assert doc.rows[i] in doc.rows;
      assert l.level == "REQUIRED" && l.evidence == "driver" ==> CasesSupport(doc.rows[i].cases);
    }
  }

  /** Where all cases pass, every recorded id has a passing case. */
  lemma RecordedPasses(cases: seq<RowCase>, id: string)
    requires CasesSupport(cases) && id in CaseIds(cases)
    ensures PassesCase(cases, id)
  {
    var i :| 0 <= i < |cases| && CaseIds(cases)[i] == id;
    assert cases[i] in cases;
  }

  lemma AgreeingRowBears(r: Row, q: Requirement, controls: seq<string>)
    requires Agrees(LabelOf(r), q, controls) && r.verdict == "pass"
    requires r.evidence == "driver" ==> CasesSupport(r.cases)
    requires r.evidence == "local" ==> r.testsRun >= r.minTests
    ensures Bears(r, q, controls)
  {
    if q.evidence == "driver" {
      forall id | id in q.cases ensures PassesCase(r.cases, id) {
        RecordedPasses(r.cases, id);
      }
      var id :| id in q.cases && id in controls;
      assert PassesCase(r.cases, id);
    }
  }

  lemma AgreeingLabelsSuffice(doc: Report, reg: Registry, current: string)
    requires Accepted(doc, reg, current) && doc.digest == current && doc.verdict == "certified"
    ensures LabelsAgree(Labels(doc.rows), reg) ==> BearsAll(doc.rows, reg)
  {
    AcceptedCertificate(doc, reg, current);
    if LabelsAgree(Labels(doc.rows), reg) {
      forall r, q | r in doc.rows && q in reg.requirements && q.level == "REQUIRED" && r.name == q.name
        ensures Bears(r, q, reg.controls)
      {
        LabelIn(doc.rows, r);
        assert Agrees(LabelOf(r), q, reg.controls);
        AgreeingRowBears(r, q, reg.controls);
      }
    }
  }

  // ---------- a certificate that does not mean it ----------

  /** Cases with the given ids, all passing or all failing, all calling themselves controls. */
  function SomeCases(ids: seq<string>, pass: bool): (cases: seq<RowCase>)
    ensures |cases| == |ids|
    ensures forall i :: 0 <= i < |ids| ==> cases[i] == RowCase(ids[i], pass, true, "")
  {
    seq(|ids|, i requires 0 <= i < |ids| => RowCase(ids[i], pass, true, ""))
  }

  /** A row with this label that the checker accepts: passing where it has to. */
  function GoodRow(l: Label): Row
  {
    Row(l.name, l.level, l.evidence, [], if l.level == "REQUIRED" then "pass" else "declined", None,
        SomeCases(l.ids, true), l.tests,
        if l.minTests > 0 then l.minTests else 0, l.minTests, None)
  }

  /** A row whose label does not agree with the requirement, and that does not bear it. */
  function BadRow(l: Label, q: Requirement): Row
  {
    if q.evidence == "driver" && l.evidence != "driver" then GoodRow(l).(cases := SomeCases(l.ids, false))
    else if q.evidence != "driver" && l.evidence != "local" then GoodRow(l).(testsRun := 0)
    else GoodRow(l)
  }

  function MisledRows(labels: seq<Label>, l: Label, q: Requirement): (rows: seq<Row>)
    ensures |rows| == |labels|
    ensures forall i :: 0 <= i < |labels| ==>
      rows[i] == if labels[i] == l then BadRow(l, q) else GoodRow(labels[i])
  {
    seq(|labels|, i requires 0 <= i < |labels| => if labels[i] == l then BadRow(l, q) else GoodRow(labels[i]))
  }

  function Misled(labels: seq<Label>, l: Label, q: Requirement, current: string): Report
  {
    Report(GENERATOR, current, "certified", true, MisledRows(labels, l, q))
  }

  lemma RowLabels(l: Label, q: Requirement)
    ensures LabelOf(GoodRow(l)) == l && LabelOf(BadRow(l, q)) == l
  {
    assert CaseIds(SomeCases(l.ids, true)) == l.ids;
    assert CaseIds(SomeCases(l.ids, false)) == l.ids;
  }

  lemma MisledLabels(labels: seq<Label>, l: Label, q: Requirement)
    ensures Labels(MisledRows(labels, l, q)) == labels
  {
    var rows := MisledRows(labels, l, q);
    forall i | 0 <= i < |labels| ensures Labels(rows)[i] == labels[i] {
      RowLabels(labels[i], q);
    }
  }

  lemma AllPassingSupport(ids: seq<string>)
    requires ids != []
    ensures CasesSupport(SomeCases(ids, true))
  {
    assert SomeCases(ids, true)[0] in SomeCases(ids, true);
  }

  lemma MisledRowAccepted(l: Label, q: Requirement)
    requires Passable(l)
    ensures forall r :: r in {GoodRow(l), BadRow(l, q)} ==>
      RowErrors(r) == [] && r.name == l.name && r.level == l.level
      && r.verdict == (if l.level == "REQUIRED" then "pass" else "declined")
  {
    if l.ids != [] {
      AllPassingSupport(l.ids);
    }
  }

  lemma BadRowBearsNot(l: Label, q: Requirement, controls: seq<string>)
    requires !Agrees(l, q, controls)
    ensures !Bears(BadRow(l, q), q, controls)
  {
    var cases := BadRow(l, q).cases;
    forall id ensures PassesCase(cases, id) ==> id in l.ids {
      if c :| c in cases && c.id == id && c.pass {
        var i :| 0 <= i < |cases| && cases[i] == c;
        assert l.ids[i] == id;
      }
    }
  }

  lemma NothingMissing(reg: Registry, rows: seq<Row>)
    requires forall q :: q in reg.requirements ==> exists r :: r in rows && r.name == q.name
    ensures NamesMissing(reg, rows) == {}
  {}

  lemma MisledNames(labels: seq<Label>, l: Label, q: Requirement, reg: Registry)
    requires Certifiable(labels, reg)
    ensures NamesMissing(reg, MisledRows(labels, l, q)) == {}
  {
    var rows := MisledRows(labels, l, q);
    forall req | req in reg.requirements ensures exists r :: r in rows && r.name == req.name {
      var m :| m in labels && m.name == req.name;
      var i :| 0 <= i < |labels| && labels[i] == m;
      RowLabels(m, q);
      assert rows[i] in rows && rows[i].name == m.name;
    }
    NothingMissing(reg, rows);
  }

  lemma MisledIsCertified(labels: seq<Label>, l: Label, q: Requirement, reg: Registry, current: string)
    requires Certifiable(labels, reg)
    ensures CertifiedWith(Misled(labels, l, q, current), reg, current, labels)
  {
    var rows := MisledRows(labels, l, q);
    NoRowErrors(rows);
    MisledLabels(labels, l, q);
    MisledNames(labels, l, q, reg);
    forall r | r in rows
      ensures RowErrors(r) == []
      ensures r.verdict == if r.level == "REQUIRED" then "pass" else "declined"
    {
      var i :| 0 <= i < |rows| && rows[i] == r;
      assert labels[i] in labels;
      MisledRowAccepted(labels[i], q);
    }
  }

  lemma MisledBearsNot(labels: seq<Label>, l: Label, q: Requirement, reg: Registry, current: string)
    requires l in labels && q in reg.requirements && q.level == "REQUIRED" && l.name == q.name
    requires !Agrees(l, q, reg.controls)
    ensures !BearsAll(Misled(labels, l, q, current).rows, reg)
  {
    var rows := MisledRows(labels, l, q);
    var i :| 0 <= i < |labels| && labels[i] == l;
    assert rows[i] in rows && rows[i] == BadRow(l, q);
    BadRowBearsNot(l, q, reg.controls);
  }

  /** A report that relabels its one REQUIRED requirement as a module and declines it is accepted as
      a certificate. */
  lemma RelabelledCertificate(current: string) returns (reg: Registry, doc: Report)
    ensures reg == Registry(["c"], [Requirement("r", "REQUIRED", "driver", ["c"], 1, [])])
    ensures Labels(doc.rows) == [Label("r", "MODULE", "driver", 1, ["c"], {})]
    ensures CertifiedWith(doc, reg, current, Labels(doc.rows)) && !BearsAll(doc.rows, reg)
  {
    var q := Requirement("r", "REQUIRED", "driver", ["c"], 1, []);
    reg := Registry(["c"], [q]);
    doc := MisledWitness(reg, q, Label("r", "MODULE", "driver", 1, ["c"], {}), current);
  }

  /** And so is one with the right label whose passing control is a case the requirement does not
      list: case "c" was never recorded. */
  lemma UnlistedCaseCertificate(current: string) returns (reg: Registry, doc: Report)
    ensures reg == Registry(["c"], [Requirement("r", "REQUIRED", "driver", ["c"], 1, [])])
    ensures |doc.rows| == 1 && doc.rows[0].level == "REQUIRED" && doc.rows[0].verdict == "pass"
    ensures doc.rows[0].cases == [RowCase("other", true, true, "")]
    ensures CertifiedWith(doc, reg, current, Labels(doc.rows)) && !BearsAll(doc.rows, reg)
  {
    var q, l := Requirement("r", "REQUIRED", "driver", ["c"], 1, []),
                Label("r", "REQUIRED", "driver", 1, ["other"], {});
    reg := Registry(["c"], [q]);
    assert "c" in q.cases && "c" !in l.ids;
    doc := MisledWitness(reg, q, l, current);
  }

  /** And one whose counted test is another requirement's: no test of "r" ran. */
  lemma UnrelatedTestCertificate(current: string) returns (reg: Registry, doc: Report)
    ensures reg == Registry([], [Requirement("r", "REQUIRED", "local", [], 1, [])])
    ensures |doc.rows| == 1 && doc.rows[0].level == "REQUIRED" && doc.rows[0].verdict == "pass"
    ensures doc.rows[0].tests == {"other__t"} && doc.rows[0].testsRun == doc.rows[0].minTests == 1
    ensures CertifiedWith(doc, reg, current, Labels(doc.rows)) && !BearsAll(doc.rows, reg)
  {
    var q, l := Requirement("r", "REQUIRED", "local", [], 1, []),
                Label("r", "REQUIRED", "local", 1, [], {"other__t"});
    reg := Registry([], [q]);
    assert TestPrefix("r")[0] == 'r' && "other__t"[0] == 'o';
    assert Named(l.tests, q) == {};
    doc := MisledWitness(reg, q, l, current);
  }

  lemma MisledWitness(reg: Registry, q: Requirement, l: Label, current: string) returns (doc: Report)
    requires reg.requirements == [q] && q.level == "REQUIRED" && l.name == q.name && Passable(l)
    requires !Agrees(l, q, reg.controls)
    ensures doc == Misled([l], l, q, current)
    ensures Labels(doc.rows) == [l] && doc.rows == [BadRow(l, q)]
    ensures CertifiedWith(doc, reg, current, Labels(doc.rows)) && !BearsAll(doc.rows, reg)
  {
    doc := Misled([l], l, q, current);
    assert l in [l] && q in reg.requirements;
    MisledIsCertified([l], l, q, reg, current);
    MisledBearsNot([l], l, q, reg, current);
    assert doc.rows == [BadRow(l, q)];
  }

  // ---------- what the evaluator's own reports say ----------

  lemma PresentPasses(reg: Registry, cases: seq<Case>, listed: seq<string>, id: string)
    requires id in listed && ById(cases, id).Some? && ById(cases, id).value.pass
    ensures PassesCase(RowCases(Present(cases, listed), reg.controls), id)
  {
    var c := ById(cases, id).value;
    ByIdImproves(cases, cases, id);
    assert Recorded(cases, listed, c);
    PresentMember(cases, listed, c);
    var present := Present(cases, listed);
    var i :| 0 <= i < |present| && present[i] == c;
    var rs := RowCases(present, reg.controls);
    assert rs[i] in rs && rs[i].id == id && rs[i].pass;
  }

  /** A row the evaluator passes bears its requirement by the full rule. */
  lemma EvaluatedPassBears(reg: Registry, q: Requirement, ev: Evidence)
    requires EvaluateOne(reg, q, ev).verdict == "pass"
    ensures Bears(EvaluateOne(reg, q, ev), q, reg.controls)
  {
    var row := EvaluateOne(reg, q, ev);
    if q.evidence == "driver" {
      DriverPassExactly(reg, q, ev);
      forall id | id in q.cases ensures PassesCase(row.cases, id) {
        PresentPasses(reg, ev.cases, q.cases, id);
      }
    } else {
      var n :| n in Ran(ev.local, TestPrefix(q.name));
      assert |Ran(ev.local, TestPrefix(q.name))| >= 1;
      assert Named(row.tests, q) == row.tests;
    }
  }

  /** So a report the evaluator wrote, over requirements of different names, does mean what its
      certificate says. */
  lemma EvaluatedCertificateBears(reg: Registry, ev: Evidence, coreOk: bool)
    requires Certify(Rows(reg, ev), coreOk) == "certified"
    requires forall q, q' :: q in reg.requirements && q' in reg.requirements && q.name == q'.name ==> q == q'
    ensures BearsAll(Rows(reg, ev), reg)
  {
    var rows := Rows(reg, ev);
    forall r, q | r in rows && q in reg.requirements && q.level == "REQUIRED" && r.name == q.name
      ensures Bears(r, q, reg.controls)
    {
      var i :| 0 <= i < |rows| && rows[i] == r;
      assert reg.requirements[i] in reg.requirements && r == EvaluateOne(reg, q, ev);
      EvaluatedPassBears(reg, q, ev);
    }
  }

  // ---------- better evidence never loses a certificate ----------

  predicate NoWorse(a: TestOutcome, b: TestOutcome)
  {
    a == b || b == Ok
  }

  /** Every case record passes where it passed, every test outcome is as it was or ok, and the same
      modules are declined. */
  ghost predicate Improves(a: Evidence, b: Evidence)
  {
    && |a.cases| == |b.cases|
    && (forall i :: 0 <= i < |a.cases| ==> b.cases[i].id == a.cases[i].id && (a.cases[i].pass ==> b.cases[i].pass))
    && a.local.Keys == b.local.Keys
    && (forall n :: n in a.local ==> |a.local[n]| == |b.local[n]|)
    && (forall n, i :: n in a.local && 0 <= i < |a.local[n]| ==> NoWorse(a.local[n][i], b.local[n][i]))
    && a.declined == b.declined
  }

  lemma {:induction false} ByIdImproves(a: seq<Case>, b: seq<Case>, id: string)
    requires |a| == |b|
    requires forall i :: 0 <= i < |a| ==> b[i].id == a[i].id && (a[i].pass ==> b[i].pass)
    ensures ById(a, id).Some? <==> ById(b, id).Some?
    ensures ById(a, id).Some? ==>
      ById(a, id).value.id == ById(b, id).value.id == id && (ById(a, id).value.pass ==> ById(b, id).value.pass)
  {
    if a != [] {
      ByIdImproves(a[..|a| - 1], b[..|b| - 1], id);
    }
  }

  /** Some listed id has `c` as its record. */
  ghost predicate Recorded(cases: seq<Case>, listed: seq<string>, c: Case)
  {
    exists id :: id in listed && ById(cases, id) == Some(c)
  }

  lemma {:induction false} PresentMember(cases: seq<Case>, listed: seq<string>, c: Case)
    ensures c in Present(cases, listed) <==> Recorded(cases, listed, c)
  {
    if listed != [] {
      var n := |listed| - 1;
      PresentMember(cases, listed[..n], c);
      assert listed == listed[..n] + [listed[n]];
      if Recorded(cases, listed, c) {
        var id :| id in listed && ById(cases, id) == Some(c);
        assert id in listed[..n] || id == listed[n];
      }
      if Recorded(cases, listed[..n], c) {
        var id :| id in listed[..n] && ById(cases, id) == Some(c);
        assert id in listed;
      }
    }
  }

  /** The rule for driver requirements: every listed case recorded and passing, and at least one
      listed control among them; a listed case without a record is unknown, whatever the others. */
  lemma DriverPassExactly(reg: Registry, req: Requirement, ev: Evidence)
    ensures DriverVerdict(reg, req, ev) == "pass" <==>
      && (forall id :: id in req.cases ==> ById(ev.cases, id).Some? && ById(ev.cases, id).value.pass)
      && (exists id :: id in req.cases && id in reg.controls)
    ensures DriverVerdict(reg, req, ev) == "unknown" <==>
      exists id :: id in req.cases && ById(ev.cases, id).None?
    ensures DriverVerdict(reg, req, ev) in {"pass", "unknown", "fail"}
  {
    var present := Present(ev.cases, req.cases);
    forall c ensures c in present <==> Recorded(ev.cases, req.cases, c) {
      PresentMember(ev.cases, req.cases, c);
    }
    forall id | id in req.cases && ById(ev.cases, id).Some?
      ensures ById(ev.cases, id).value in present && ById(ev.cases, id).value.id == id
    {
      ByIdImproves(ev.cases, ev.cases, id);
      assert Recorded(ev.cases, req.cases, ById(ev.cases, id).value);
    }
    if c :| c in present && c.pass && c.id in reg.controls {
      var id :| id in req.cases && ById(ev.cases, id) == Some(c);
      ByIdImproves(ev.cases, ev.cases, id);
    }
  }

  /** The record used for an id is the last one that has it. */
  lemma {:induction false} LastRecord(cases: seq<Case>, i: nat)
    requires i < |cases| && forall j :: i < j < |cases| ==> cases[j].id != cases[i].id
    ensures ById(cases, cases[i].id) == Some(cases[i])
  {
    if i < |cases| - 1 {
      LastRecord(cases[..|cases| - 1], i);
    }
  }

  lemma {:induction false} NoRecord(cases: seq<Case>, id: string)
    ensures ById(cases, id).None? <==> forall c :: c in cases ==> c.id != id
  {
    if cases != [] {
      var n := |cases| - 1;
      NoRecord(cases[..n], id);
      assert cases == cases[..n] + [cases[n]];
    }
  }

  /** The name with dots replaced, then two underscores, in front of a test's name. */
  predicate NamedFor(test: string, name: string)
  {
    && |test| >= |name| + 2
    && (forall i :: 0 <= i < |name| ==> test[i] == if name[i] == '.' then '_' else name[i])
    && test[|name|] == '_' && test[|name| + 1] == '_'
  }

  lemma PrefixSpelled(test: string, name: string)
    ensures TestPrefix(name) <= test <==> NamedFor(test, name)
  {
    var p := TestPrefix(name);
    assert |p| == |name| + 2;
    assert forall i :: 0 <= i < |name| ==> p[i] == if name[i] == '.' then '_' else name[i];
    assert p[|name|] == '_' && p[|name| + 1] == '_';
    if p <= test {
      assert forall i :: 0 <= i < |p| ==> test[i] == p[i];
    } else if NamedFor(test, name) {
      assert forall i :: 0 <= i < |p| ==> test[i] == p[i];
    }
  }

  /** The rule for local requirements, over test names spelled out: of the tests named for the
      requirement some ended ok or FAILED, at least the required number did, and none FAILED; it is
      unknown where none did, and fails otherwise. */
  lemma LocalPassExactly(req: Requirement, ev: Evidence)
    ensures var ran := set n | n in ev.local && NamedFor(n, req.name)
                               && (Ok in ev.local[n] || FAILED in ev.local[n]);
      && (LocalVerdict(req, ev) == "pass" <==>
            (forall n :: n in ran ==> FAILED !in ev.local[n]) && |ran| >= 1 && |ran| >= req.minTests)
      && (LocalVerdict(req, ev) == "unknown" <==> ran == {})
    ensures LocalVerdict(req, ev) in {"pass", "unknown", "fail"}
  {
    var p := TestPrefix(req.name);
    var ran := set n | n in ev.local && NamedFor(n, req.name) && (Ok in ev.local[n] || FAILED in ev.local[n]);
    forall n ensures n in ran <==> n in Ran(ev.local, p) {
      PrefixSpelled(n, req.name);
    }
    assert ran == Ran(ev.local, p);
    if ran != {} {
      var n :| n in ran;
      assert |ran| >= 1;
    }
    if Bad(ev.local, p) != {} {
      var n :| n in Bad(ev.local, p);
      assert n in ran && FAILED in ev.local[n];
    } else {
      assert forall n :: n in ran ==> n !in Bad(ev.local, p);
    }
  }

  /** The row of a requirement, field by field. */
  lemma RowExactly(reg: Registry, q: Requirement, ev: Evidence)
    ensures var row := EvaluateOne(reg, q, ev);
      var measured := if q.evidence == "driver" then DriverVerdict(reg, q, ev) else LocalVerdict(q, ev);
      && row.name == q.name && row.level == q.level && row.evidence == q.evidence
      && row.supersedes == q.supersedes && row.minTests == q.minTests
      && (row.verdict == "declined" <==> q.level == "MODULE" && measured != "pass" && q.name in ev.declined)
      && (row.verdict == "declined" ==>
            row.measured == Some(measured) && row.reason == Some(DeclinedWith(ev.declined[q.name])))
      && (row.verdict != "declined" ==> row.verdict == measured && row.measured == None)
      && (row.verdict == "pass" <==> row.reason == None)
      && (q.evidence == "driver" ==> row.tests == {} && row.cases == RowCases(Present(ev.cases, q.cases), reg.controls))
      && (q.evidence != "driver" ==> row.cases == [] && row.testsRun == |row.tests|)
      && (q.evidence != "driver" ==>
            forall n :: n in row.tests <==>
              n in ev.local && NamedFor(n, q.name) && (Ok in ev.local[n] || FAILED in ev.local[n]))
  {
    forall n ensures TestPrefix(q.name) <= n <==> NamedFor(n, q.name) {
      PrefixSpelled(n, q.name);
    }
    if q.evidence == "driver" {
      DriverPassExactly(reg, q, ev);
      DriverReasonExactly(reg, q, ev);
    } else {
      LocalPassExactly(q, ev);
    }
  }

  lemma {:induction false} UnrecordedIds(cases: seq<Case>, listed: seq<string>, id: string)
    ensures id in Unrecorded(cases, listed) <==> id in listed && ById(cases, id).None?
  {
    if listed != [] {
      var n := |listed| - 1;
      UnrecordedIds(cases, listed[..n], id);
      assert listed == listed[..n] + [listed[n]];
    }
  }

  lemma {:induction false} FailedIdsAre(present: seq<Case>, id: string)
    ensures id in FailedIds(present) <==> exists c :: c in present && c.id == id && !c.pass
  {
    if present != [] {
      var n := |present| - 1;
      FailedIdsAre(present[..n], id);
      assert present == present[..n] + [present[n]];
    }
  }

  /** What a driver row gives as its reason: the listed ids without a record; else the ids of the
      recorded cases that failed; else that no control held; and nothing with a pass. */
  lemma DriverReasonExactly(reg: Registry, q: Requirement, ev: Evidence)
    ensures var verdict, reason := DriverVerdict(reg, q, ev), DriverReason(reg, q, ev);
      && (verdict == "pass" <==> reason == None)
      && (verdict == "unknown" <==> reason.Some? && reason.value.NotMeasured?)
      && (verdict == "fail" <==> reason.Some? && (reason.value.FailedCases? || reason.value.NoControlHeld?))
      && (reason.Some? && reason.value.NotMeasured? ==>
            forall id :: id in reason.value.missing <==> id in q.cases && ById(ev.cases, id).None?)
      && (reason.Some? && reason.value.FailedCases? ==>
            forall id :: id in reason.value.ids <==>
              exists c :: c in Present(ev.cases, q.cases) && c.id == id && !c.pass)
  {
    var present := Present(ev.cases, q.cases);
    DriverBranches(reg, q, ev, Unrecorded(ev.cases, q.cases) != [], FailedIds(present) != [],
                   HeldIds(present, reg.controls) != []);
    forall id ensures id in Unrecorded(ev.cases, q.cases) <==> id in q.cases && ById(ev.cases, id).None? {
      UnrecordedIds(ev.cases, q.cases, id);
    }
    forall id ensures id in FailedIds(present) <==> exists c :: c in present && c.id == id && !c.pass {
      FailedIdsAre(present, id);
    }
  }

  /** What a local row gives as its reason: the tests that FAILED; else that none named for the
      requirement ran; else how many did and how many are asked for; and nothing with a pass. */
  lemma LocalReasonExactly(q: Requirement, ev: Evidence)
    ensures var verdict, reason := LocalVerdict(q, ev), LocalReason(q, ev);
      && (verdict == "pass" <==> reason == None)
      && (verdict == "unknown" <==> reason == Some(NoTestRan(TestPrefix(q.name))))
      && (verdict == "fail" <==> reason.Some? && (reason.value.FailedTests? || reason.value.TooFewRan?))
      && (reason.Some? && reason.value.FailedTests? ==>
            && reason.value.names != {}
            && forall n :: n in reason.value.names <==>
                 n in ev.local && NamedFor(n, q.name) && FAILED in ev.local[n])
      && (reason.Some? && reason.value.TooFewRan? ==>
            reason.value.ran < reason.value.least == q.minTests)
  {
    LocalPassExactly(q, ev);
    forall n ensures TestPrefix(q.name) <= n <==> NamedFor(n, q.name) {
      PrefixSpelled(n, q.name);
    }
  }

  /** The verdict over the rows, spelled out. */
  lemma CertifyExactly(rows: seq<Row>, coreOk: bool)
    ensures Certify(rows, coreOk) in {"certified", "not-certified"}
    ensures Certify(rows, coreOk) == "not-certified" <==>
      || !coreOk
      || (exists i :: 0 <= i < |rows| && rows[i].level == "REQUIRED" && rows[i].verdict != "pass")
      || (exists i :: 0 <= i < |rows| && rows[i].level == "MODULE" && rows[i].verdict !in {"pass", "declined"})
  {
    forall r | r in rows ensures exists i :: 0 <= i < |rows| && rows[i] == r {}
  }

  /** What the checker says against a row's own evidence, spelled out. */
  lemma RowErrorsExactly(r: Row)
    ensures CasesDoNotSupport(r.name) in RowErrors(r) <==>
      && r.evidence == "driver" && r.verdict == "pass"
      && (r.cases == [] || (exists i :: 0 <= i < |r.cases| && !r.cases[i].pass)
          || (forall i :: 0 <= i < |r.cases| ==> !(r.cases[i].control && r.cases[i].pass)))
    ensures TooFewTests(r.name) in RowErrors(r) <==>
      r.evidence == "local" && r.verdict == "pass" && r.testsRun < r.minTests
    ensures forall e :: e in RowErrors(r) ==> e in {CasesDoNotSupport(r.name), TooFewTests(r.name)}
  {
    if r.cases != [] && !CasesSupport(r.cases) {
      assert r.cases[0] in r.cases;
    }
  }

  lemma DriverMonotone(reg: Registry, req: Requirement, a: Evidence, b: Evidence)
    requires Improves(a, b) && DriverVerdict(reg, req, a) == "pass"
    ensures DriverVerdict(reg, req, b) == "pass"
  {
    var pa, pb := Present(a.cases, req.cases), Present(b.cases, req.cases);
    forall c ensures c in pa <==> Recorded(a.cases, req.cases, c) {
      PresentMember(a.cases, req.cases, c);
    }
    forall c ensures c in pb <==> Recorded(b.cases, req.cases, c) {
      PresentMember(b.cases, req.cases, c);
    }
    forall id | id in req.cases ensures ById(b.cases, id).Some? && ById(b.cases, id).value.pass {
      ByIdImproves(a.cases, b.cases, id);
      assert ById(a.cases, id).Some?;
      assert ById(a.cases, id).value in pa;
    }
    var c :| c in pa && c.pass && c.id in reg.controls;
    var id :| id in req.cases && ById(a.cases, id) == Some(c);
    ByIdImproves(a.cases, b.cases, id);
    assert ById(b.cases, id).value in pb;
  }

  lemma LocalMonotone(req: Requirement, a: Evidence, b: Evidence)
    requires Improves(a, b) && LocalVerdict(req, a) == "pass"
    ensures LocalVerdict(req, b) == "pass"
  {
    var p := TestPrefix(req.name);
    forall n | n in Ran(a.local, p) ensures n in Ran(b.local, p) {
      var i :| 0 <= i < |a.local[n]| && (a.local[n][i] == Ok || a.local[n][i] == FAILED);
      assert NoWorse(a.local[n][i], b.local[n][i]);
      assert b.local[n][i] in b.local[n];
    }
    forall n | n in Ran(b.local, p) ensures FAILED !in b.local[n] {
      assert n !in Bad(a.local, p);
    }
    assert Bad(b.local, p) == {};
    SubsetCount(Ran(a.local, p), Ran(b.local, p));
    var n :| n in Ran(a.local, p);
    assert n in Ran(b.local, p);
  }

  lemma SubsetCount(s: set<string>, t: set<string>)
    requires s <= t
    ensures |s| <= |t|
  {
    assert t == s + (t - s);
  }

  /** Turning failing cases into passing ones, or failed and ignored tests into ok ones, never loses
      a certificate. */
  lemma CertificationMonotone(reg: Registry, a: Evidence, b: Evidence, coreOk: bool)
    requires Improves(a, b) && Certify(Rows(reg, a), coreOk) == "certified"
    ensures Certify(Rows(reg, b), coreOk) == "certified"
  {
    var ra, rb := Rows(reg, a), Rows(reg, b);
    forall i | 0 <= i < |rb|
      ensures ra[i].verdict == "pass" ==> rb[i].verdict == "pass"
      ensures rb[i].level == "MODULE" && ra[i].verdict == "declined" ==> rb[i].verdict in {"pass", "declined"}
    {
      var req := reg.requirements[i];
      assert rb[i] == EvaluateOne(reg, req, b) && ra[i] == EvaluateOne(reg, req, a);
      if ra[i].verdict == "pass" {
        if req.evidence == "driver" {
          DriverMonotone(reg, req, a, b);
        } else {
          LocalMonotone(req, a, b);
        }
      }
    }
    forall r | r in rb
      ensures r.level == "REQUIRED" ==> r.verdict == "pass"
      ensures r.level == "MODULE" ==> r.verdict in {"pass", "declined"}
    {
      var i :| 0 <= i < |rb| && rb[i] == r;
      assert ra[i] in ra && ra[i].level == rb[i].level;
    }
  }
}
