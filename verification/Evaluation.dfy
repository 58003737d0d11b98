/** Accumulating provider assessments of one target into control evaluations. */
module Evaluation {
  import opened Naming
  import opened Aggregation

  datatype ProviderResult = ResultPassed | ResultFailed | ResultSkipped | ResultError | ResultOther

  datatype StepRecord = StepRecord(name: string, result: ProviderResult, message: string)

  datatype Assessment = Assessment(requirementId: string, steps: seq<StepRecord>, message: string,
                                   confidence: nat, evidence: seq<string>, recommendation: string)

  /** What a step closure returns when called. */
  datatype StepOutcome = StepOutcome(result: Result, message: string, confidence: nat)

  datatype Log = Log(requirementId: string, plan: Option<string>, description: string, result: Result, message: string,
                     steps: seq<StepOutcome>, confidence: nat, evidence: seq<string>, recommendation: string)

  datatype ControlEvaluation = ControlEvaluation(name: string, result: Result, message: string, logs: seq<Log>)

  datatype EvaluationLog = EvaluationLog(result: Result, evaluations: seq<ControlEvaluation>, targetId: string)

  function ToResult(r: ProviderResult): Result {
    match r
    case ResultPassed => Passed
    case ResultFailed => Failed
    case ResultSkipped => NotApplicable
    case ResultError => Unknown
    case ResultOther => NotRun
  }

  function StepResults(steps: seq<StepRecord>): (r: seq<Result>)
    ensures |r| == |steps|
  {
    seq(|steps|, i requires 0 <= i < |steps| => ToResult(steps[i].result))
  }

  function StepNames(steps: seq<StepRecord>): (r: seq<string>)
    ensures |r| == |steps|
  {
    seq(|steps|, i requires 0 <= i < |steps| => steps[i].name)
  }

  method AggregateResultFromSteps(u: (Result, Result) -> Result, steps: seq<StepRecord>) returns (agg: Result)
    ensures agg == Fold(u, StepResults(steps))
  {
    agg := NotRun;
    for i := 0 to |steps|
      invariant agg == Fold(u, StepResults(steps[..i]))
    {
      assert StepResults(steps[..i + 1]) == StepResults(steps[..i]) + [ToResult(steps[i].result)];
      FoldAppend(u, StepResults(steps[..i]), ToResult(steps[i].result));
      agg := u(agg, ToResult(steps[i].result));
    }
    assert steps[..|steps|] == steps;
  }

  /** Message of the first step with the wanted result, else of the first step. */
  function MatchingMessage(steps: seq<StepRecord>, wanted: Result): string {
    var matches := Matches(steps, wanted);
    if matches != [] then matches[0].message else if steps != [] then steps[0].message else ""
  }

  function Matches(steps: seq<StepRecord>, wanted: Result): seq<StepRecord> {
    if steps == [] then []
    else (if ToResult(steps[0].result) == wanted then [steps[0]] else []) + Matches(steps[1..], wanted)
  }

  method MatchingStepMessage(steps: seq<StepRecord>, wanted: Result) returns (message: string)
    ensures message == MatchingMessage(steps, wanted)
  {
    for i := 0 to |steps|
      invariant Matches(steps, wanted) == Matches(steps[i..], wanted)
    {
      if ToResult(steps[i].result) == wanted {
        return steps[i].message;
      }
    }
    return if |steps| > 0 then steps[0].message else "";
  }

  /** Everything fixed for an evaluator. */
  datatype Settings = Settings(update: (Result, Result) -> Result, reqToControl: map<string, string>,
                               reqToPlan: map<string, string>, reqToComplypackRef: map<string, string>)

  function ControlOf(c: Settings, a: Assessment): string {
    if a.requirementId in c.reqToControl then c.reqToControl[a.requirementId] else a.requirementId
  }

  function Outcome(c: Settings, a: Assessment): Result {
    Fold(c.update, StepResults(a.steps))
  }

  /** The log one assessment becomes. */
  function LogOf(c: Settings, a: Assessment): Log {
    var result := Outcome(c, a);
    var stepMessage := MatchingMessage(a.steps, result);
    var message := if result != Passed && stepMessage != "" then stepMessage else a.message;
    var named := if message == "" && a.steps != [] then a.steps[0].name else message;
    var description := if named == "" then a.requirementId else named;
    var plan := if a.requirementId in c.reqToPlan then Some(c.reqToPlan[a.requirementId]) else None;
    var steps := seq(|a.steps|, i requires 0 <= i < |a.steps| =>
      StepOutcome(ToResult(a.steps[i].result), a.steps[i].message, a.confidence));
    Log(a.requirementId, plan, description, result, message, steps, a.confidence, a.evidence, a.recommendation)
  }

  /** The first step with the wanted result is the one whose message is taken. */
  lemma {:induction false} FirstMatch(steps: seq<StepRecord>, wanted: Result, i: nat)
    requires i < |steps| && ToResult(steps[i].result) == wanted
        && forall k :: 0 <= k < i ==> ToResult(steps[k].result) != wanted
    ensures Matches(steps, wanted) != [] && Matches(steps, wanted)[0] == steps[i]
  {
    if i > 0 {
      assert steps[1..][i - 1] == steps[i];
      FirstMatch(steps[1..], wanted, i - 1);
    }
  }

  lemma {:induction false} NoMatch(steps: seq<StepRecord>, wanted: Result)
    requires forall k :: 0 <= k < |steps| ==> ToResult(steps[k].result) != wanted
    ensures Matches(steps, wanted) == []
  {
    if steps != [] {
      NoMatch(steps[1..], wanted);
    }
  }

  /** Step i is the first one that has the aggregated result. */
  ghost predicate Decides(c: Settings, a: Assessment, i: nat) {
    && i < |a.steps| && ToResult(a.steps[i].result) == Outcome(c, a)
    && forall k :: 0 <= k < i ==> ToResult(a.steps[k].result) != Outcome(c, a)
  }

  lemma SomeStepDecides(c: Settings, a: Assessment) returns (i: nat)
    requires Lawful(c.update) && Selective(c.update) && a.steps != []
    ensures Decides(c, a, i)
  {
    var rs := StepResults(a.steps);
    FoldIsSelected(c.update, rs);
    i :| 0 <= i < |rs| && rs[i] == Outcome(c, a) && forall k :: 0 <= k < i ==> rs[k] != Outcome(c, a) by {
      var j :| 0 <= j < |rs| && rs[j] == Outcome(c, a);
      FirstOne(rs, Outcome(c, a), j);
    }
    forall k | 0 <= k < i ensures ToResult(a.steps[k].result) != Outcome(c, a) {
      assert rs[k] != Outcome(c, a);
    }
  }

  lemma {:induction false} FirstOne(rs: seq<Result>, r: Result, j: nat)
    requires j < |rs| && rs[j] == r
    ensures exists i :: 0 <= i < |rs| && rs[i] == r && forall k :: 0 <= k < i ==> rs[k] != r
  {
    if k :| 0 <= k < j && rs[k] == r {
      FirstOne(rs, r, k);
    }
  }

  function StepOutcomes(log: Log): seq<Result> {
    seq(|log.steps|, i requires 0 <= i < |log.steps| => log.steps[i].result)
  }

  /**
   * A log explains itself: its result is the fold of what its own steps return; unless it passed, its message is that
   * of the first step that decided the result, if that step has one, else the assessment's; and it is never without a
   * description unless the requirement has no id.
   */
  lemma LogExplainsResult(c: Settings, a: Assessment)
    requires Lawful(c.update) && Selective(c.update)
    ensures var log := LogOf(c, a);
            && Fold(c.update, StepOutcomes(log)) == log.result
            && (log.result == Passed || a.steps == [] ==> log.message == a.message)
            && (log.result != Passed && a.steps != [] ==>
                  exists i: nat :: Decides(c, a, i)
                      && log.message == (if a.steps[i].message != "" then a.steps[i].message else a.message))
            && (log.message != "" ==> log.description == log.message)
            && (log.description == "" ==> a.requirementId == "" && a.message == "")
  {
    assert StepOutcomes(LogOf(c, a)) == StepResults(a.steps);
    if a.steps == [] {
      assert MatchingMessage(a.steps, Outcome(c, a)) == "";
    } else {
      var i := SomeStepDecides(c, a);
      FirstMatch(a.steps, Outcome(c, a), i);
    }
  }

  function FormatStepIdentity(complypackRef: string, stepName: string): string {
    if complypackRef != "" && stepName != "" then complypackRef + "#" + stepName else stepName
  }

  /** One assessment after conversion: its control, its log, and its step names for the parallel table. */
  datatype Converted = Converted(control: string, log: Log, names: seq<string>)

  function Convert(c: Settings, a: Assessment): Converted {
    Converted(ControlOf(c, a), LogOf(c, a), StepNames(a.steps))
  }

  function ConvertAll(c: Settings, assessments: seq<Assessment>): seq<Converted> {
    seq(|assessments|, i requires 0 <= i < |assessments| => Convert(c, assessments[i]))
  }

  // ---------- Adding one by one ----------

  /** The mutable part of an evaluator. */
  datatype Grouped = Grouped(order: seq<string>, evals: map<string, ControlEvaluation>,
                             names: map<string, seq<seq<string>>>)

  const NOTHING := Grouped([], map[], map[])

  function WithOne(u: (Result, Result) -> Result, g: Grouped, x: Converted): Grouped {
    var ce := if x.control in g.evals then g.evals[x.control] else ControlEvaluation(x.control, NotRun, "", []);
    var rows := if x.control in g.names then g.names[x.control] else [];
    Grouped(if x.control in g.evals then g.order else g.order + [x.control],
            g.evals[x.control :=
                    ControlEvaluation(x.control, u(ce.result, x.log.result), x.log.message, ce.logs + [x.log])],
            g.names[x.control := rows + [x.names]])
  }

  function WithAll(u: (Result, Result) -> Result, g: Grouped, xs: seq<Converted>): Grouped {
    if xs == [] then g else WithOne(u, WithAll(u, g, xs[..|xs| - 1]), xs[|xs| - 1])
  }

  /** Adding two lists in turn is adding their concatenation. */
  lemma {:induction false} AccumulationIsAHomomorphism(u: (Result, Result) -> Result, g: Grouped, xs: seq<Converted>,
                                                       ys: seq<Converted>)
    ensures WithAll(u, WithAll(u, g, xs), ys) == WithAll(u, g, xs + ys)
  {
    if ys == [] {
      assert xs + ys == xs;
    } else {
      assert (xs + ys)[..|xs + ys| - 1] == xs + ys[..|ys| - 1];
      AccumulationIsAHomomorphism(u, g, xs, ys[..|ys| - 1]);
    }
  }

  // ---------- What the grouping means ----------

  /** The entries of one control, in input order. */
  function Under(xs: seq<Converted>, control: string): seq<Converted> {
    if xs == [] then []
    else Under(xs[..|xs| - 1], control) + if xs[|xs| - 1].control == control then [xs[|xs| - 1]] else []
  }

  function Logs(xs: seq<Converted>): (r: seq<Log>)
    ensures |r| == |xs| && forall i :: 0 <= i < |xs| ==> r[i] == xs[i].log
  {
    if xs == [] then [] else Logs(xs[..|xs| - 1]) + [xs[|xs| - 1].log]
  }

  function Outcomes(xs: seq<Converted>): (r: seq<Result>)
    ensures |r| == |xs| && forall i :: 0 <= i < |xs| ==> r[i] == xs[i].log.result
  {
    if xs == [] then [] else Outcomes(xs[..|xs| - 1]) + [xs[|xs| - 1].log.result]
  }

  function NameRows(xs: seq<Converted>): (r: seq<seq<string>>)
    ensures |r| == |xs| && forall i :: 0 <= i < |xs| ==> r[i] == xs[i].names
  {
    if xs == [] then [] else NameRows(xs[..|xs| - 1]) + [xs[|xs| - 1].names]
  }

  /** What one control's evaluation is, given its entries. */
  function EvaluationOf(u: (Result, Result) -> Result, control: string, xs: seq<Converted>): ControlEvaluation
    requires xs != []
  {
    ControlEvaluation(control, Fold(u, Outcomes(xs)), xs[|xs| - 1].log.message, Logs(xs))
  }

  ghost predicate HoldsItsOwn(u: (Result, Result) -> Result, g: Grouped, control: string, own: seq<Converted>) {
    && (control in g.evals <==> own != []) && (control in g.names <==> own != []) && (control in g.order <==> own != [])
    && (own != [] ==> g.evals[control] == EvaluationOf(u, control, own) && g.names[control] == NameRows(own))
  }

  lemma OneMore(u: (Result, Result) -> Result, g: Grouped, x: Converted, own: seq<Converted>)
    requires HoldsItsOwn(u, g, x.control, own)
    ensures HoldsItsOwn(u, WithOne(u, g, x), x.control, own + [x])
  {
    var more := own + [x];
    assert more[..|own|] == own;
    assert Logs(more) == Logs(own) + [x.log];
    assert NameRows(more) == NameRows(own) + [x.names];
    FoldAppend(u, Outcomes(own), x.log.result);
  }

  lemma OneElsewhere(u: (Result, Result) -> Result, g: Grouped, x: Converted, control: string, own: seq<Converted>)
    requires HoldsItsOwn(u, g, control, own) && x.control != control
    ensures HoldsItsOwn(u, WithOne(u, g, x), control, own)
  {
  }

  /** Each control holds exactly its own entries, in input order, with a step-name row for each. */
  lemma {:induction false} EachControlHoldsItsOwn(u: (Result, Result) -> Result, xs: seq<Converted>, control: string)
    ensures HoldsItsOwn(u, WithAll(u, NOTHING, xs), control, Under(xs, control))
  {
    if xs != [] {
      var front, x := xs[..|xs| - 1], xs[|xs| - 1];
      EachControlHoldsItsOwn(u, front, control);
      if x.control == control {
        OneMore(u, WithAll(u, NOTHING, front), x, Under(front, control));
      } else {
        OneElsewhere(u, WithAll(u, NOTHING, front), x, control, Under(front, control));
        assert Under(xs, control) == Under(front, control);
      }
    }
  }

  /** Every entry is under its own control and no other, as often as it was added. */
  lemma {:induction false} UnderIsExact(xs: seq<Converted>, control: string, x: Converted)
    ensures multiset(Under(xs, control))[x] == if x.control == control then multiset(xs)[x] else 0
  {
    if xs != [] {
      UnderIsExact(xs[..|xs| - 1], control, x);
      assert xs == xs[..|xs| - 1] + [xs[|xs| - 1]];
    }
  }

  /** Each listed control is listed once and has an evaluation. */
  ghost predicate Listed(g: Grouped) {
    && (forall i, j :: 0 <= i < j < |g.order| ==> g.order[i] != g.order[j])
    && forall control :: control in g.order <==> control in g.evals
  }

  lemma OneKeepsListed(u: (Result, Result) -> Result, g: Grouped, x: Converted)
    requires Listed(g)
    ensures Listed(WithOne(u, g, x))
  {
    var g' := WithOne(u, g, x);
    assert g'.order == if x.control in g.order then g.order else g.order + [x.control];
    assert forall control :: control in g'.evals <==> control in g.evals || control == x.control;
  }

  /** Where a control appears first; the length when it does not. */
  function FirstPosition(xs: seq<Converted>, control: string): (r: nat)
    ensures r <= |xs|
    ensures r < |xs| ==> xs[r].control == control
    ensures forall k :: 0 <= k < r ==> xs[k].control != control
  {
    if xs == [] then 0
    else
      var n := |xs| - 1;
      var r := FirstPosition(xs[..n], control);
      if r < n then r else if xs[n].control == control then n else n + 1
  }

  lemma FirstOfLonger(front: seq<Converted>, x: Converted, control: string)
    ensures FirstPosition(front + [x], control)
         == if FirstPosition(front, control) < |front| then FirstPosition(front, control)
            else if x.control == control then |front| else |front| + 1
  {
    assert (front + [x])[..|front|] == front;
  }

  /** The controls that occur, each once, by the position of their first occurrence. */
  ghost predicate ByFirstAppearance(order: seq<string>, xs: seq<Converted>) {
    && (forall control :: control in order <==> FirstPosition(xs, control) < |xs|)
    && forall i, j :: 0 <= i < j < |order| ==> FirstPosition(xs, order[i]) < FirstPosition(xs, order[j])
  }

  lemma AppendAppearance(order: seq<string>, front: seq<Converted>, x: Converted)
    requires ByFirstAppearance(order, front)
    ensures ByFirstAppearance(if x.control in order then order else order + [x.control], front + [x])
  {
    var longer := if x.control in order then order else order + [x.control];
    forall control ensures control in longer <==> FirstPosition(front + [x], control) < |front + [x]| {
      FirstOfLonger(front, x, control);
    }
    forall i, j | 0 <= i < j < |longer|
      ensures FirstPosition(front + [x], longer[i]) < FirstPosition(front + [x], longer[j])
    {
      FirstOfLonger(front, x, longer[i]);
      FirstOfLonger(front, x, longer[j]);
      assert longer[i] == order[i] && order[i] in order;
      assert j < |order| ==> longer[j] == order[j] && order[j] in order;
    }
  }

  lemma {:induction false} AllListed(u: (Result, Result) -> Result, xs: seq<Converted>)
    ensures Listed(WithAll(u, NOTHING, xs))
  {
    if xs != [] {
      AllListed(u, xs[..|xs| - 1]);
      OneKeepsListed(u, WithAll(u, NOTHING, xs[..|xs| - 1]), xs[|xs| - 1]);
    }
  }

  lemma OneMoreAppearance(u: (Result, Result) -> Result, front: seq<Converted>, x: Converted)
    requires ByFirstAppearance(WithAll(u, NOTHING, front).order, front)
    ensures ByFirstAppearance(WithAll(u, NOTHING, front + [x]).order, front + [x])
  {
    AllListed(u, front);
    assert (front + [x])[..|front|] == front;
    AppendAppearance(WithAll(u, NOTHING, front).order, front, x);
  }

  /** Exactly the controls of the input are listed, once each, in order of their first appearance there. */
  lemma {:induction false} OrderIsFirstAppearance(u: (Result, Result) -> Result, xs: seq<Converted>)
    ensures ByFirstAppearance(WithAll(u, NOTHING, xs).order, xs)
  {
    if xs != [] {
      var front, x := xs[..|xs| - 1], xs[|xs| - 1];
      OrderIsFirstAppearance(u, front);
      OneMoreAppearance(u, front, x);
      assert xs == front + [x];
    }
  }

  // ---------- The overall result ----------

  function ControlResults(g: Grouped): seq<Result>
    requires forall control :: control in g.order ==> control in g.evals
  {
    seq(|g.order|, i requires 0 <= i < |g.order| => g.evals[g.order[i]].result)
  }

  function OverallResult(u: (Result, Result) -> Result, g: Grouped): Result
    requires forall control :: control in g.order ==> control in g.evals
  {
    if g.order == [] then NotApplicable else Fold(u, ControlResults(g))
  }

  lemma AddingOne(u: (Result, Result) -> Result, g: Grouped, x: Converted)
    requires Lawful(u) && Listed(g)
    ensures Listed(WithOne(u, g, x))
    ensures Fold(u, ControlResults(WithOne(u, g, x))) == u(Fold(u, ControlResults(g)), x.log.result)
  {
    OneKeepsListed(u, g, x);
    var g', r := WithOne(u, g, x), x.log.result;
    var rs := ControlResults(g);
    if x.control in g.order {
      var i :| 0 <= i < |g.order| && g.order[i] == x.control;
      assert ControlResults(g') == rs[i := u(rs[i], r)];
      FoldUpdate(u, rs, i, r);
    } else {
      assert At(r, r, r);
      assert g'.evals[x.control].result == r;
      assert ControlResults(g') == rs + [r];
      FoldAppend(u, rs, r);
    }
  }

  /** Folding per control and then over controls is folding over all entries. */
  lemma {:induction false} TwoLevelsAreOne(u: (Result, Result) -> Result, xs: seq<Converted>)
    requires Lawful(u)
    ensures Listed(WithAll(u, NOTHING, xs))
    ensures Fold(u, ControlResults(WithAll(u, NOTHING, xs))) == Fold(u, Outcomes(xs))
  {
    if xs != [] {
      TwoLevelsAreOne(u, xs[..|xs| - 1]);
      AddingOne(u, WithAll(u, NOTHING, xs[..|xs| - 1]), xs[|xs| - 1]);
      FoldAppend(u, Outcomes(xs[..|xs| - 1]), xs[|xs| - 1].log.result);
    }
  }

  function AllStepResults(assessments: seq<Assessment>): seq<Result> {
    if assessments == [] then []
    else AllStepResults(assessments[..|assessments| - 1]) + StepResults(assessments[|assessments| - 1].steps)
  }

  function AssessmentOutcomes(u: (Result, Result) -> Result, assessments: seq<Assessment>): seq<Result> {
    seq(|assessments|, i requires 0 <= i < |assessments| => Fold(u, StepResults(assessments[i].steps)))
  }

  lemma {:induction false} FoldOfAllSteps(u: (Result, Result) -> Result, assessments: seq<Assessment>)
    requires Lawful(u)
    ensures Fold(u, AllStepResults(assessments)) == Fold(u, AssessmentOutcomes(u, assessments))
  {
    if assessments != [] {
      var front, a := assessments[..|assessments| - 1], assessments[|assessments| - 1];
      FoldOfAllSteps(u, front);
      FoldConcat(u, AllStepResults(front), StepResults(a.steps));
      FoldAppend(u, AssessmentOutcomes(u, front), Fold(u, StepResults(a.steps)));
      assert AssessmentOutcomes(u, assessments) == AssessmentOutcomes(u, front) + [Fold(u, StepResults(a.steps))];
    }
  }

  /** An evaluator's contents after adding assessments from scratch. */
  function Accumulated(c: Settings, assessments: seq<Assessment>): Grouped {
    WithAll(c.update, NOTHING, ConvertAll(c, assessments))
  }

  /** The overall result is one fold over all steps of all assessments, except NotApplicable when there are none. */
  lemma OverallIsFlatFold(c: Settings, assessments: seq<Assessment>)
    requires Lawful(c.update)
    ensures Listed(Accumulated(c, assessments))
    ensures OverallResult(c.update, Accumulated(c, assessments))
         == if assessments == [] then NotApplicable else Fold(c.update, AllStepResults(assessments))
  {
    var xs := ConvertAll(c, assessments);
    TwoLevelsAreOne(c.update, xs);
    FoldOfAllSteps(c.update, assessments);
    assert Outcomes(xs) == AssessmentOutcomes(c.update, assessments);
    if assessments != [] {
      OrderIsFirstAppearance(c.update, xs);
      assert xs[|xs| - 1].control in Accumulated(c, assessments).order;
    }
  }

  /** It depends neither on the order of the assessments nor on the requirement-to-control map. */
  lemma OverallIsOrderAndMapFree(c: Settings, d: Settings, xs: seq<Assessment>, ys: seq<Assessment>)
    requires Lawful(c.update) && d.update == c.update && multiset(xs) == multiset(ys)
    ensures Listed(Accumulated(c, xs)) && Listed(Accumulated(d, ys))
    ensures OverallResult(c.update, Accumulated(c, xs)) == OverallResult(d.update, Accumulated(d, ys))
  {
    OverallIsFlatFold(c, xs);
    OverallIsFlatFold(d, ys);
    FoldOfAllSteps(c.update, xs);
    FoldOfAllSteps(c.update, ys);
    OutcomesPermute(c.update, xs, ys);
    FoldOfPermutation(c.update, AssessmentOutcomes(c.update, xs), AssessmentOutcomes(c.update, ys));
    assert |xs| == |multiset(xs)| == |multiset(ys)| == |ys|;
  }

  lemma {:induction false} OutcomesPermute(u: (Result, Result) -> Result, xs: seq<Assessment>, ys: seq<Assessment>)
    requires multiset(xs) == multiset(ys)
    ensures multiset(AssessmentOutcomes(u, xs)) == multiset(AssessmentOutcomes(u, ys))
    decreases |xs|
  {
    if xs == [] {
      assert |ys| == |multiset(ys)| == 0;
      assert AssessmentOutcomes(u, xs) == AssessmentOutcomes(u, ys);
    } else {
      var i := TakeOut(xs, ys);
      var front, before, after := xs[..|xs| - 1], ys[..i], ys[i + 1..];
      OutcomesPermute(u, front, before + after);
      var r := Fold(u, StepResults(ys[i].steps));
      assert AssessmentOutcomes(u, xs) == AssessmentOutcomes(u, front) + [r];
      assert AssessmentOutcomes(u, before + after) == AssessmentOutcomes(u, before) + AssessmentOutcomes(u, after);
      assert AssessmentOutcomes(u, ys) == AssessmentOutcomes(u, before) + [r] + AssessmentOutcomes(u, after);
    }
  }

  // ---------- Assessments and their controls ----------

  /** Each entry stands under the control its requirement is mapped to, or else under the requirement itself. */
  ghost predicate RightControls(c: Settings, xs: seq<Converted>) {
    forall x :: x in xs ==> RightControl(c, x.log.requirementId, x.control)
  }

  predicate RightControl(c: Settings, requirementId: string, control: string) {
    && (requirementId in c.reqToControl ==> control == c.reqToControl[requirementId])
    && (requirementId !in c.reqToControl ==> control == requirementId)
  }

  lemma LogsUnderAppend(front: seq<Converted>, x: Converted, control: string)
    ensures Logs(front + [x]) == Logs(front) + [x.log]
    ensures Logs(Under(front + [x], control))
         == Logs(Under(front, control)) + if x.control == control then [x.log] else []
  {
    var own := Under(front, control);
    assert (front + [x])[..|front|] == front;
    assert (own + [x])[..|own|] == own;
    assert own + [] == own;
  }

  lemma CountMaybe(logs: seq<Log>, more: bool, r: Log, log: Log)
    ensures multiset(logs + if more then [r] else [])[log] == multiset(logs)[log] + (if more && r == log then 1 else 0)
  {
    assert multiset(logs + [r]) == multiset(logs) + multiset{r};
    assert logs + [] == logs;
  }

  ghost predicate LogsCounted(c: Settings, xs: seq<Converted>, control: string, log: Log) {
    multiset(Logs(Under(xs, control)))[log]
    == if RightControl(c, log.requirementId, control) then multiset(Logs(xs))[log] else 0
  }

  lemma LogsCountedAppend(c: Settings, front: seq<Converted>, x: Converted, control: string, log: Log)
    requires LogsCounted(c, front, control, log) && RightControl(c, x.log.requirementId, x.control)
    ensures LogsCounted(c, front + [x], control, log)
  {
    LogsUnderAppend(front, x, control);
    CountMaybe(Logs(Under(front, control)), x.control == control, x.log, log);
    CountMaybe(Logs(front), true, x.log, log);
  }

  lemma {:induction false} LogsUnder(c: Settings, xs: seq<Converted>, control: string, log: Log)
    requires RightControls(c, xs)
    ensures LogsCounted(c, xs, control, log)
  {
    if xs != [] {
      var front, x := xs[..|xs| - 1], xs[|xs| - 1];
      assert xs == front + [x];
      LogsUnder(c, front, control, log);
      LogsCountedAppend(c, front, x, control, log);
    }
  }

  function AllLogs(c: Settings, assessments: seq<Assessment>): seq<Log> {
    seq(|assessments|, i requires 0 <= i < |assessments| => LogOf(c, assessments[i]))
  }

  function LogsOf(g: Grouped, control: string): seq<Log> {
    if control in g.evals then g.evals[control].logs else []
  }

  /**
   * Which control an assessment gets: the evaluation of a control holds exactly the logs of those assessments whose
   * requirement is mapped to it, or is not mapped and has the control's own name; each as often as it was added.
   */
  lemma ControlsHoldTheirAssessments(c: Settings, assessments: seq<Assessment>, control: string, log: Log)
    ensures var logs, all := LogsOf(Accumulated(c, assessments), control), AllLogs(c, assessments);
            && (log.requirementId in c.reqToControl ==>
                  multiset(logs)[log] == if control == c.reqToControl[log.requirementId] then multiset(all)[log] else 0)
            && (log.requirementId !in c.reqToControl ==>
                  multiset(logs)[log] == if control == log.requirementId then multiset(all)[log] else 0)
  {
    ConvertedRight(c, assessments);
    HeldUnder(c, assessments, control);
    LogsUnder(c, ConvertAll(c, assessments), control, log);
  }

  lemma ConvertedRight(c: Settings, assessments: seq<Assessment>)
    ensures RightControls(c, ConvertAll(c, assessments))
    ensures Logs(ConvertAll(c, assessments)) == AllLogs(c, assessments)
  {
    var xs := ConvertAll(c, assessments);
    forall x | x in xs ensures RightControl(c, x.log.requirementId, x.control) {}
  }

  lemma HeldUnder(c: Settings, assessments: seq<Assessment>, control: string)
    ensures LogsOf(Accumulated(c, assessments), control) == Logs(Under(ConvertAll(c, assessments), control))
  {
    EachControlHoldsItsOwn(c.update, ConvertAll(c, assessments), control);
  }

  /** So each assessment's log is found in its own control, and in no other. */
  lemma AssessmentIsFound(c: Settings, assessments: seq<Assessment>, i: nat, other: string)
    requires i < |assessments|
    ensures var log, g := LogOf(c, assessments[i]), Accumulated(c, assessments);
            && log.requirementId == assessments[i].requirementId
            && (log.requirementId in c.reqToControl ==> log in LogsOf(g, c.reqToControl[log.requirementId]))
            && (log.requirementId !in c.reqToControl ==> log in LogsOf(g, log.requirementId))
            && (log in LogsOf(g, other) ==> RightControl(c, log.requirementId, other))
  {
    var log, all := LogOf(c, assessments[i]), AllLogs(c, assessments);
    assert all[i] == log;
    assert log in multiset(all);
    var own := if log.requirementId in c.reqToControl then c.reqToControl[log.requirementId] else log.requirementId;
    ControlsHoldTheirAssessments(c, assessments, own, log);
    ControlsHoldTheirAssessments(c, assessments, other, log);
    assert log in multiset(LogsOf(Accumulated(c, assessments), own));
    var others := LogsOf(Accumulated(c, assessments), other);
    assert log in others ==> log in multiset(others);
  }

  /** What a log takes over from its assessment: everything but what is aggregated. */
  lemma LogCarriesAssessment(c: Settings, a: Assessment)
    ensures var log := LogOf(c, a);
            && log.requirementId == a.requirementId && log.evidence == a.evidence
            && log.confidence == a.confidence && log.recommendation == a.recommendation
            && log.plan == (if a.requirementId in c.reqToPlan then Some(c.reqToPlan[a.requirementId]) else None)
            && |log.steps| == |a.steps|
            && forall i :: 0 <= i < |a.steps| ==>
                 && log.steps[i].message == a.steps[i].message && log.steps[i].confidence == a.confidence
                 && (log.steps[i].result == Passed <==> a.steps[i].result == ResultPassed)
                 && (log.steps[i].result == Failed <==> a.steps[i].result == ResultFailed)
                 && (log.steps[i].result == NotApplicable <==> a.steps[i].result == ResultSkipped)
                 && (log.steps[i].result == Unknown <==> a.steps[i].result == ResultError)
                 && log.steps[i].result != NeedsReview
  {
  }

  // ---------- Serialization ----------

  /** A log with its closures replaced by step identities. */
  datatype SerializedLog = SerializedLog(log: Log, steps: seq<string>)

  datatype SerializedEvaluation = SerializedEvaluation(control: string, result: Result, message: string,
                                                       logs: seq<SerializedLog>)

  function Identities(reference: string, names: seq<string>): seq<string> {
    seq(|names|, k requires 0 <= k < |names| => FormatStepIdentity(reference, names[k]))
  }

  function ReferenceOf(c: Settings, requirementId: string): string {
    if requirementId in c.reqToComplypackRef then c.reqToComplypackRef[requirementId] else ""
  }

  /** The j-th log with the j-th row of names, empty when there is no such row. */
  function PairAt(c: Settings, logs: seq<Log>, rows: seq<seq<string>>, j: nat): SerializedLog
    requires j < |logs|
  {
    SerializedLog(logs[j], Identities(ReferenceOf(c, logs[j].requirementId), if j < |rows| then rows[j] else []))
  }

  /** One serialized control, from the evaluation and the parallel table of names. */
  ghost predicate SerializedFrom(c: Settings, g: Grouped, control: string, out: SerializedEvaluation)
    requires control in g.evals
  {
    var ce := g.evals[control];
    var rows := if ce.name in g.names then g.names[ce.name] else [];
    && out.control == ce.name && out.result == ce.result && out.message == ce.message && |out.logs| == |ce.logs|
    && forall j :: 0 <= j < |ce.logs| ==> out.logs[j] == PairAt(c, ce.logs, rows, j)
  }

  /** In the serialized form every log stands with its own step names; a row of names is never missing. */
  lemma SerializationIsExact(c: Settings, xs: seq<Converted>, control: string, out: SerializedEvaluation)
    requires Under(xs, control) != [] && control in WithAll(c.update, NOTHING, xs).evals
    requires SerializedFrom(c, WithAll(c.update, NOTHING, xs), control, out)
    ensures control in WithAll(c.update, NOTHING, xs).names
    ensures var own := Under(xs, control);
            && out.control == control && out.result == Fold(c.update, Outcomes(own)) && |out.logs| == |own|
            && |WithAll(c.update, NOTHING, xs).names[control]| == |own|
            && forall j :: 0 <= j < |own| ==>
                 out.logs[j] == SerializedLog(own[j].log,
                                              Identities(ReferenceOf(c, own[j].log.requirementId), own[j].names))
  {
    EachControlHoldsItsOwn(c.update, xs, control);
  }

  lemma {:induction false} FoundUnder(xs: seq<Converted>, control: string, j: nat)
    requires j < |Under(xs, control)|
    ensures Under(xs, control)[j] in xs
  {
    var n := |xs| - 1;
    if j < |Under(xs[..n], control)| {
      FoundUnder(xs[..n], control, j);
    }
  }

  /** A step is known by its name, after the complypack's reference and a "#" where both are there. */
  predicate StepIdentity(c: Settings, requirementId: string, name: string, identity: string) {
    if requirementId in c.reqToComplypackRef && c.reqToComplypackRef[requirementId] != "" && name != ""
    then identity == c.reqToComplypackRef[requirementId] + "#" + name
    else identity == name
  }

  /** A serialized log is one assessment's log, with the identities of that assessment's steps, in order. */
  ghost predicate SerializedOf(c: Settings, assessments: seq<Assessment>, log: SerializedLog) {
    exists a :: a in assessments && log.log == LogOf(c, a) && |log.steps| == |a.steps|
             && forall k :: 0 <= k < |a.steps| ==> StepIdentity(c, a.requirementId, a.steps[k].name, log.steps[k])
  }

  lemma SerializedStepsAreOwn(c: Settings, assessments: seq<Assessment>, control: string, out: SerializedEvaluation)
    requires control in Accumulated(c, assessments).evals
    requires SerializedFrom(c, Accumulated(c, assessments), control, out)
    ensures |out.logs| == |Accumulated(c, assessments).evals[control].logs|
    ensures forall j :: 0 <= j < |out.logs| ==>
              && out.logs[j].log == Accumulated(c, assessments).evals[control].logs[j]
              && SerializedOf(c, assessments, out.logs[j])
  {
    var xs := ConvertAll(c, assessments);
    EachControlHoldsItsOwn(c.update, xs, control);
    SerializationIsExact(c, xs, control, out);
    forall j | 0 <= j < |out.logs| ensures SerializedOf(c, assessments, out.logs[j]) {
      var own := Under(xs, control);
      FoundUnder(xs, control, j);
      var i :| 0 <= i < |xs| && xs[i] == own[j];
      SerializedOne(c, assessments, i, out.logs[j]);
    }
  }

  lemma SerializedOne(c: Settings, assessments: seq<Assessment>, i: nat, log: SerializedLog)
    requires i < |assessments|
    requires var x := Convert(c, assessments[i]);
             log == SerializedLog(x.log, Identities(ReferenceOf(c, x.log.requirementId), x.names))
    ensures SerializedOf(c, assessments, log)
  {
    var a := assessments[i];
    assert a in assessments;
    forall k | 0 <= k < |a.steps| ensures StepIdentity(c, a.requirementId, a.steps[k].name, log.steps[k]) {}
  }

  // ---------- The evaluator object ----------

  class Evaluator {
    const targetId: string
    const settings: Settings
    var controlEvals: map<string, ControlEvaluation>
    var controlOrder: seq<string>
    var controlStepNames: map<string, seq<seq<string>>>

    function Contents(): Grouped
      reads this
    {
      Grouped(controlOrder, controlEvals, controlStepNames)
    }

    constructor (targetId: string, settings: Settings)
      ensures Contents() == NOTHING && this.targetId == targetId && this.settings == settings
    {
      this.targetId, this.settings := targetId, settings;
      controlEvals, controlOrder, controlStepNames := map[], [], map[];
    }

    method ProviderToGemaraAssessment(a: Assessment) returns (log: Log, names: seq<string>)
      ensures log == LogOf(settings, a) && names == StepNames(a.steps)
    {
      var result := AggregateResultFromSteps(settings.update, a.steps);
      var message := a.message;
      if result != Passed {
        var stepMessage := MatchingStepMessage(a.steps, result);
        if stepMessage != "" {
          message := stepMessage;
        }
      }
      var description := message;
      if description == "" && |a.steps| > 0 {
        description := a.steps[0].name;
      }
      if description == "" {
        description := a.requirementId;
      }
      var plan := if a.requirementId in settings.reqToPlan then Some(settings.reqToPlan[a.requirementId]) else None;
      var steps := [];
      names := [];
      for i := 0 to |a.steps|
        invariant |steps| == |names| == i
        invariant forall k :: 0 <= k < i ==> names[k] == a.steps[k].name
        invariant forall k ::
            0 <= k < i ==> steps[k] == StepOutcome(ToResult(a.steps[k].result), a.steps[k].message, a.confidence)
      {
        steps := steps + [StepOutcome(ToResult(a.steps[i].result), a.steps[i].message, a.confidence)];
        names := names + [a.steps[i].name];
      }
      log := Log(a.requirementId, plan, description, result, message, steps, a.confidence, a.evidence,
                 a.recommendation);
      assert log.steps == LogOf(settings, a).steps;
    }

    method AddTarget(assessments: seq<Assessment>)
      modifies this
      ensures Contents() == WithAll(settings.update, old(Contents()), ConvertAll(settings, assessments))
    {
      ghost var xs := ConvertAll(settings, assessments);
      for i := 0 to |assessments|
        invariant Contents() == WithAll(settings.update, old(Contents()), xs[..i])
      {
        var log, names := ProviderToGemaraAssessment(assessments[i]);
        AddConverted(ControlOf(settings, assessments[i]), log, names);
        assert xs[..i + 1][..i] == xs[..i];
      }
      assert xs[..|assessments|] == xs;
    }

    /** The rest of the loop body of AddTarget. */
    method AddConverted(control: string, log: Log, names: seq<string>)
      modifies this
      ensures Contents() == WithOne(settings.update, old(Contents()), Converted(control, log, names))
    {
      var ce := ControlEvaluation(control, NotRun, "", []);
      if control in controlEvals {
        ce := controlEvals[control];
      } else {
        controlOrder := controlOrder + [control];
      }
      var rows := if control in controlStepNames then controlStepNames[control] else [];
      controlStepNames := controlStepNames[control := rows + [names]];
      controlEvals := controlEvals[control :=
        ControlEvaluation(control, settings.update(ce.result, log.result), log.message, ce.logs + [log])];
    }

    method GemaraLog() returns (log: EvaluationLog)
      requires Listed(Contents())
      ensures log.targetId == targetId && log.result == OverallResult(settings.update, Contents())
      ensures |log.evaluations| == |controlOrder|
      ensures forall i :: 0 <= i < |controlOrder| ==> log.evaluations[i] == controlEvals[controlOrder[i]]
    {
      var evals: seq<ControlEvaluation> := [];
      for i := 0 to |controlOrder|
        invariant |evals| == i
        invariant forall k :: 0 <= k < i ==> evals[k] == controlEvals[controlOrder[k]]
      {
        evals := evals + [controlEvals[controlOrder[i]]];
      }
      var result := NotRun;
      ghost var rs := ControlResults(Contents());
      for i := 0 to |evals|
        invariant result == Fold(settings.update, rs[..i])
      {
        assert rs[..i + 1] == rs[..i] + [evals[i].result];
        FoldAppend(settings.update, rs[..i], evals[i].result);
        result := settings.update(result, evals[i].result);
      }
      assert rs[..|evals|] == rs;
      if |evals| == 0 {
        result := NotApplicable;
      }
      log := EvaluationLog(result, evals, targetId);
    }

    method ToSerializable(log: EvaluationLog) returns (out: seq<SerializedEvaluation>)
      requires Listed(Contents()) && |log.evaluations| == |controlOrder|
      requires forall i :: 0 <= i < |controlOrder| ==> log.evaluations[i] == controlEvals[controlOrder[i]]
      ensures |out| == |controlOrder|
      ensures forall i :: 0 <= i < |out| ==> SerializedFrom(settings, Contents(), controlOrder[i], out[i])
    {
      out := [];
      for i := 0 to |log.evaluations|
        invariant |out| == i
        invariant forall k :: 0 <= k < i ==> SerializedFrom(settings, Contents(), controlOrder[k], out[k])
      {
        var ce := log.evaluations[i];
        var logs := SerializeLogs(ce.logs, if ce.name in controlStepNames then controlStepNames[ce.name] else []);
        out := out + [SerializedEvaluation(ce.name, ce.result, ce.message, logs)];
      }
    }

    method SerializeLogs(logs: seq<Log>, rows: seq<seq<string>>) returns (out: seq<SerializedLog>)
      ensures |out| == |logs| && forall j :: 0 <= j < |logs| ==> out[j] == PairAt(settings, logs, rows, j)
    {
      out := [];
      for j := 0 to |logs|
        invariant |out| == j
        invariant forall k :: 0 <= k < j ==> out[k] == PairAt(settings, logs, rows, k)
      {
        var names := [];
        if j < |rows| {
          names := rows[j];
        }
        out := out + [SerializedLog(logs[j], Identities(ReferenceOf(settings, logs[j].requirementId), names))];
      }
    }
  }
}
