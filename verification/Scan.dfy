/** Scanning all targets into parallel lists and splitting them again into one evaluator per target. */
module Scan {
  import opened Naming
  import opened Evaluation
  import opened Mapping

  /** What a provider answers when asked to scan one target. */
  datatype ScanAnswer = RouteFails | Scanned(assessments: seq<Assessment>, errors: seq<string>, refs: seq<Reference>)

  datatype TargetScan = TargetScan(assessments: seq<Assessment>, errors: seq<string>, refs: seq<Reference>)

  datatype ScanOutput = ScanOutput(assessments: seq<Assessment>, targets: seq<string>, errors: seq<string>,
                                   refs: map<string, seq<Reference>>)

  /** Answer of an evaluator while the i-th target is scanned. */
  type Providers = (string, nat) -> ScanAnswer

  predicate AllRouted(evaluators: seq<string>, scan: Providers, i: nat) {
    forall e :: e in evaluators ==> scan(e, i).Scanned?
  }

  /** All evaluators' findings on one target, evaluator by evaluator. */
  function Single(evaluators: seq<string>, scan: Providers, i: nat): TargetScan
    requires AllRouted(evaluators, scan, i)
  {
    if evaluators == [] then TargetScan([], [], [])
    else
      var front, answer := Single(evaluators[..|evaluators| - 1], scan, i), scan(evaluators[|evaluators| - 1], i);
      TargetScan(front.assessments + answer.assessments, front.errors + answer.errors, front.refs + answer.refs)
  }

  function Repeat(id: string, n: nat): (r: seq<string>)
    ensures |r| == n && forall k :: 0 <= k < n ==> r[k] == id
  {
    seq(n, _ => id)
  }

  function RefsOf(refs: map<string, seq<Reference>>, id: string): seq<Reference> {
    if id in refs then refs[id] else []
  }

  /** The parallel lists after scanning targets with these findings. */
  function Output(ids: seq<string>, parts: seq<TargetScan>): (r: ScanOutput)
    requires |ids| == |parts|
    ensures |r.assessments| == |r.targets|
  {
    if ids == [] then ScanOutput([], [], [], map[])
    else
      var n := |ids| - 1;
      var front, id, part := Output(ids[..n], parts[..n]), ids[n], parts[n];
      ScanOutput(front.assessments + part.assessments, front.targets + Repeat(id, |part.assessments|),
                 front.errors + part.errors, front.refs[id := RefsOf(front.refs, id) + part.refs])
  }

  /** The assessments whose parallel target is id, in order. */
  function For(assessments: seq<Assessment>, targets: seq<string>, id: string): seq<Assessment>
    requires |assessments| == |targets|
  {
    if assessments == [] then []
    else
      var n := |assessments| - 1;
      For(assessments[..n], targets[..n], id) + if targets[n] == id then [assessments[n]] else []
  }

  /** The findings at all positions with a given id, joined. */
  function Joined(ids: seq<string>, parts: seq<TargetScan>, id: string): seq<Assessment>
    requires |ids| == |parts|
  {
    if ids == [] then []
    else
      var n := |ids| - 1;
      Joined(ids[..n], parts[..n], id) + if ids[n] == id then parts[n].assessments else []
  }

  lemma {:induction false} ForConcat(a: seq<Assessment>, s: seq<string>, b: seq<Assessment>, t: seq<string>, id: string)
    requires |a| == |s| && |b| == |t|
    ensures For(a + b, s + t, id) == For(a, s, id) + For(b, t, id)
  {
    if b == [] {
      assert a + b == a && s + t == s;
    } else {
      var n := |b| - 1;
      assert (a + b)[..|a + b| - 1] == a + b[..n] && (s + t)[..|s + t| - 1] == s + t[..n];
      ForConcat(a, s, b[..n], t[..n], id);
    }
  }

  lemma {:induction false} ForRepeated(a: seq<Assessment>, x: string, id: string)
    ensures For(a, Repeat(x, |a|), id) == if x == id then a else []
  {
    if a != [] {
      var n := |a| - 1;
      assert Repeat(x, |a|)[..n] == Repeat(x, n);
      ForRepeated(a[..n], x, id);
      assert a == a[..n] + [a[n]];
    }
  }

  /** Splitting gives each id the findings at all its positions. */
  lemma {:induction false} SplitIsJoined(ids: seq<string>, parts: seq<TargetScan>, id: string)
    requires |ids| == |parts|
    ensures For(Output(ids, parts).assessments, Output(ids, parts).targets, id) == Joined(ids, parts, id)
  {
    if ids != [] {
      var n := |ids| - 1;
      SplitIsJoined(ids[..n], parts[..n], id);
      ForConcat(Output(ids[..n], parts[..n]).assessments, Output(ids[..n], parts[..n]).targets,
                parts[n].assessments, Repeat(ids[n], |parts[n].assessments|), id);
      ForRepeated(parts[n].assessments, ids[n], id);
    }
  }

  /** How many assessments the positions with an id hold together. */
  lemma {:induction false} JoinedCount(ids: seq<string>, parts: seq<TargetScan>, id: string, i: nat)
    requires |ids| == |parts| && i < |ids| && ids[i] == id
    ensures |Joined(ids, parts, id)| >= |parts[i].assessments|
    ensures forall j ::
              0 <= j < |ids| && j != i && ids[j] == id
              ==> |Joined(ids, parts, id)| >= |parts[i].assessments| + |parts[j].assessments|
    ensures (forall j :: 0 <= j < |ids| && j != i && ids[j] == id ==> parts[j].assessments == [])
              ==> Joined(ids, parts, id) == parts[i].assessments
  {
    var n := |ids| - 1;
    if i < n {
      JoinedCount(ids[..n], parts[..n], id, i);
    } else {
      JoinedFront(ids[..n], parts[..n], id);
    }
  }

  lemma {:induction false} JoinedFront(ids: seq<string>, parts: seq<TargetScan>, id: string)
    requires |ids| == |parts|
    ensures forall j :: 0 <= j < |ids| && ids[j] == id ==> |Joined(ids, parts, id)| >= |parts[j].assessments|
    ensures (forall j :: 0 <= j < |ids| && ids[j] == id ==> parts[j].assessments == []) ==> Joined(ids, parts, id) == []
  {
    if ids != [] {
      JoinedFront(ids[..|ids| - 1], parts[..|ids| - 1], id);
    }
  }

  /** Another position with the same id has findings too. */
  ghost predicate Mixed(ids: seq<string>, parts: seq<TargetScan>, i: nat)
    requires |ids| == |parts| && i < |ids|
  {
    exists j :: 0 <= j < |ids| && j != i && ids[j] == ids[i] && parts[j].assessments != []
  }

  /** The split gives a target exactly what was scanned for it, unless another target of the same id has findings. */
  lemma SplitIsLosslessIff(ids: seq<string>, parts: seq<TargetScan>, i: nat)
    requires |ids| == |parts| && i < |ids|
    ensures For(Output(ids, parts).assessments, Output(ids, parts).targets, ids[i]) == parts[i].assessments
        <==> !Mixed(ids, parts, i)
  {
    SplitIsJoined(ids, parts, ids[i]);
    JoinedCount(ids, parts, ids[i], i);
  }

  predicate DistinctIds(ids: seq<string>) {
    forall i, j :: 0 <= i < j < |ids| ==> ids[i] != ids[j]
  }

  function AllReports(out: ScanOutput, ids: seq<string>): seq<Assessment>
    requires |out.assessments| == |out.targets|
  {
    if ids == [] then [] else AllReports(out, ids[..|ids| - 1]) + For(out.assessments, out.targets, ids[|ids| - 1])
  }

  /** With distinct ids, as configuration validation enforces, the reports together are the flat list, in order. */
  lemma ReportsPartitionTheScan(ids: seq<string>, parts: seq<TargetScan>)
    requires |ids| == |parts| && DistinctIds(ids)
    ensures AllReports(Output(ids, parts), ids) == Output(ids, parts).assessments
    ensures forall i :: 0 <= i < |ids| ==>
              For(Output(ids, parts).assessments, Output(ids, parts).targets, ids[i]) == parts[i].assessments
  {
    forall i | 0 <= i < |ids|
      ensures For(Output(ids, parts).assessments, Output(ids, parts).targets, ids[i]) == parts[i].assessments
    {
      SplitIsLosslessIff(ids, parts, i);
    }
    ReportsUpTo(ids, parts, |ids|);
    assert ids[..|ids|] == ids && parts[..|ids|] == parts;
  }

  lemma {:induction false} ReportsUpTo(ids: seq<string>, parts: seq<TargetScan>, n: nat)
    requires |ids| == |parts| && n <= |ids|
    requires forall i :: 0 <= i < |ids| ==>
               For(Output(ids, parts).assessments, Output(ids, parts).targets, ids[i]) == parts[i].assessments
    ensures AllReports(Output(ids, parts), ids[..n]) == Output(ids[..n], parts[..n]).assessments
  {
    if n > 0 {
      ReportsUpTo(ids, parts, n - 1);
      assert ids[..n][..n - 1] == ids[..n - 1] && parts[..n][..n - 1] == parts[..n - 1];
    }
  }

  // ---------- The methods ----------

  /** Stops at the first evaluator that cannot be routed. */
  method ScanSingleTarget(evaluators: seq<string>, scan: Providers, i: nat) returns (r: Option<TargetScan>)
    ensures r.Some? <==> AllRouted(evaluators, scan, i)
    ensures r.Some? ==> r.value == Single(evaluators, scan, i)
  {
    var results, errors, refs := [], [], [];
    for k := 0 to |evaluators|
      invariant AllRouted(evaluators[..k], scan, i)
      invariant TargetScan(results, errors, refs) == Single(evaluators[..k], scan, i)
    {
      var answer := scan(evaluators[k], i);
      assert evaluators[..k + 1] == evaluators[..k] + [evaluators[k]] && evaluators[..k + 1][..k] == evaluators[..k];
      if answer.RouteFails? {
        return None;
      }
      results, errors, refs := results + answer.assessments, errors + answer.errors, refs + answer.refs;
    }
    assert evaluators[..|evaluators|] == evaluators;
    return Some(TargetScan(results, errors, refs));
  }

  function Parts(n: nat, evaluators: seq<string>, scan: Providers): seq<TargetScan>
    requires forall i :: 0 <= i < n ==> AllRouted(evaluators, scan, i)
  {
    seq(n, i requires 0 <= i < n => Single(evaluators, scan, i))
  }

  method ScanAllTargets(ids: seq<string>, evaluators: seq<string>, scan: Providers) returns (r: Option<ScanOutput>)
    ensures r.Some? <==> forall i :: 0 <= i < |ids| ==> AllRouted(evaluators, scan, i)
    ensures r.Some? ==> r.value == Output(ids, Parts(|ids|, evaluators, scan))
  {
    var out := ScanOutput([], [], [], map[]);
    for i := 0 to |ids|
      invariant forall k :: 0 <= k < i ==> AllRouted(evaluators, scan, k)
      invariant out == Output(ids[..i], Parts(i, evaluators, scan))
    {
      var single := ScanSingleTarget(evaluators, scan, i);
      if single.None? {
        return None;
      }
      var part, id := single.value, ids[i];
      assert ids[..i + 1][..i] == ids[..i] && Parts(i + 1, evaluators, scan)[..i] == Parts(i, evaluators, scan);
      out := ScanOutput(out.assessments + part.assessments, out.targets + Repeat(id, |part.assessments|),
                        out.errors + part.errors, out.refs[id := RefsOf(out.refs, id) + part.refs]);
    }
    assert ids[..|ids|] == ids;
    return Some(out);
  }

  // ---------- Nothing that was answered is dropped ----------

  function Flat<T>(parts: seq<seq<T>>): seq<T> {
    if parts == [] then [] else Flat(parts[..|parts| - 1]) + parts[|parts| - 1]
  }

  /** The sum of the lengths of the first k parts. */
  function Offset<T>(parts: seq<seq<T>>, k: nat): nat
    requires k <= |parts|
  {
    if k == 0 then 0 else Offset(parts, k - 1) + |parts[k - 1]|
  }

  /** The parts are in items one after the other, and nothing else is. */
  ghost predicate HoldsInOrder<T>(items: seq<T>, parts: seq<seq<T>>) {
    && |items| == Offset(parts, |parts|)
    && forall k :: 0 <= k < |parts| ==> HoldsAt(items, Offset(parts, k), parts[k])
  }

  ghost predicate HoldsAt<T>(items: seq<T>, from: nat, part: seq<T>) {
    from + |part| <= |items| && items[from..from + |part|] == part
  }

  lemma {:induction false} OffsetOfFront<T>(parts: seq<seq<T>>, last: seq<T>, k: nat)
    requires k <= |parts|
    ensures Offset(parts + [last], k) == Offset(parts, k)
  {
    if k > 0 {
      OffsetOfFront(parts, last, k - 1);
    }
  }

  lemma {:induction false} FlatHoldsInOrder<T>(parts: seq<seq<T>>)
    ensures HoldsInOrder(Flat(parts), parts)
  {
    if parts != [] {
      var n := |parts| - 1;
      var front, last := parts[..n], parts[n];
      assert parts == front + [last];
      FlatHoldsInOrder(front);
      OffsetOfFront(front, last, n);
      forall k | 0 <= k < |parts| ensures HoldsAt(Flat(parts), Offset(parts, k), parts[k]) {
        if k < n {
          OffsetOfFront(front, last, k);
          var from, to := Offset(front, k), Offset(front, k) + |front[k]|;
          assert HoldsAt(Flat(front), from, front[k]);
          assert (Flat(front) + last)[from..to] == Flat(front)[from..to];
        } else {
          assert (Flat(front) + last)[|Flat(front)|..] == last;
        }
      }
    }
  }

  /** What the evaluators answer for the i-th target, one list for each evaluator. */
  function Findings(evaluators: seq<string>, scan: Providers, i: nat): seq<seq<Assessment>>
    requires AllRouted(evaluators, scan, i)
  {
    seq(|evaluators|, k requires 0 <= k < |evaluators| => scan(evaluators[k], i).assessments)
  }

  function Failures(evaluators: seq<string>, scan: Providers, i: nat): seq<seq<string>>
    requires AllRouted(evaluators, scan, i)
  {
    seq(|evaluators|, k requires 0 <= k < |evaluators| => scan(evaluators[k], i).errors)
  }

  function References(evaluators: seq<string>, scan: Providers, i: nat): seq<seq<Reference>>
    requires AllRouted(evaluators, scan, i)
  {
    seq(|evaluators|, k requires 0 <= k < |evaluators| => scan(evaluators[k], i).refs)
  }

  lemma {:induction false} SingleIsFlat(evaluators: seq<string>, scan: Providers, i: nat)
    requires AllRouted(evaluators, scan, i)
    ensures Single(evaluators, scan, i)
         == TargetScan(Flat(Findings(evaluators, scan, i)), Flat(Failures(evaluators, scan, i)),
                       Flat(References(evaluators, scan, i)))
  {
    if evaluators != [] {
      var n := |evaluators| - 1;
      SingleIsFlat(evaluators[..n], scan, i);
      assert Findings(evaluators, scan, i)[..n] == Findings(evaluators[..n], scan, i);
      assert Failures(evaluators, scan, i)[..n] == Failures(evaluators[..n], scan, i);
      assert References(evaluators, scan, i)[..n] == References(evaluators[..n], scan, i);
    }
  }

  /** A target's findings, errors and references are all the evaluators' answers, one evaluator after the other. */
  lemma SingleHoldsAnswers(evaluators: seq<string>, scan: Providers, i: nat)
    requires AllRouted(evaluators, scan, i)
    ensures HoldsInOrder(Single(evaluators, scan, i).assessments, Findings(evaluators, scan, i))
    ensures HoldsInOrder(Single(evaluators, scan, i).errors, Failures(evaluators, scan, i))
    ensures HoldsInOrder(Single(evaluators, scan, i).refs, References(evaluators, scan, i))
  {
    SingleIsFlat(evaluators, scan, i);
    FlatHoldsInOrder(Findings(evaluators, scan, i));
    FlatHoldsInOrder(Failures(evaluators, scan, i));
    FlatHoldsInOrder(References(evaluators, scan, i));
  }

  function AssessmentsOf(parts: seq<TargetScan>): seq<seq<Assessment>> {
    seq(|parts|, i requires 0 <= i < |parts| => parts[i].assessments)
  }

  function ErrorsOf(parts: seq<TargetScan>): seq<seq<string>> {
    seq(|parts|, i requires 0 <= i < |parts| => parts[i].errors)
  }

  /** The references of the targets with an id, nothing for the others. */
  function ReferencesFor(ids: seq<string>, parts: seq<TargetScan>, id: string): seq<seq<Reference>>
    requires |ids| == |parts|
  {
    seq(|parts|, i requires 0 <= i < |parts| => if ids[i] == id then parts[i].refs else [])
  }

  /** Each target's id, once for each of its findings. */
  function IdsPerFinding(ids: seq<string>, parts: seq<TargetScan>): seq<seq<string>>
    requires |ids| == |parts|
  {
    seq(|parts|, i requires 0 <= i < |parts| => Repeat(ids[i], |parts[i].assessments|))
  }

  lemma {:induction false} OutputIsFlat(ids: seq<string>, parts: seq<TargetScan>, id: string)
    requires |ids| == |parts|
    ensures var out := Output(ids, parts);
            && out.assessments == Flat(AssessmentsOf(parts)) && out.errors == Flat(ErrorsOf(parts))
            && out.targets == Flat(IdsPerFinding(ids, parts))
            && RefsOf(out.refs, id) == Flat(ReferencesFor(ids, parts, id))
  {
    if ids != [] {
      var n := |ids| - 1;
      OutputIsFlat(ids[..n], parts[..n], id);
      assert AssessmentsOf(parts)[..n] == AssessmentsOf(parts[..n]) && ErrorsOf(parts)[..n] == ErrorsOf(parts[..n]);
      assert IdsPerFinding(ids, parts)[..n] == IdsPerFinding(ids[..n], parts[..n]);
      assert ReferencesFor(ids, parts, id)[..n] == ReferencesFor(ids[..n], parts[..n], id);
    }
  }

  /** Over all targets: findings, their targets, errors, and each id's references stand one target after the other. */
  lemma OutputHoldsParts(ids: seq<string>, parts: seq<TargetScan>, id: string)
    requires |ids| == |parts|
    ensures var out := Output(ids, parts);
            && HoldsInOrder(out.assessments, AssessmentsOf(parts)) && HoldsInOrder(out.errors, ErrorsOf(parts))
            && HoldsInOrder(out.targets, IdsPerFinding(ids, parts))
            && HoldsInOrder(RefsOf(out.refs, id), ReferencesFor(ids, parts, id))
  {
    OutputIsFlat(ids, parts, id);
    FlatHoldsInOrder(AssessmentsOf(parts));
    FlatHoldsInOrder(ErrorsOf(parts));
    FlatHoldsInOrder(IdsPerFinding(ids, parts));
    FlatHoldsInOrder(ReferencesFor(ids, parts, id));
  }

  lemma HeldWithin<T>(items: seq<T>, from: nat, middle: seq<T>, at: nat, part: seq<T>)
    requires HoldsAt(items, from, middle) && HoldsAt(middle, at, part)
    ensures HoldsAt(items, from + at, part)
  {
    forall x | 0 <= x < |part| ensures items[from + at + x] == part[x] {
      assert items[from..from + |middle|][at + x] == middle[at + x];
      assert middle[at..at + |part|][x] == part[x];
    }
  }

  /** What an evaluator answers for a target stands in the target's findings after what the evaluators before it did. */
  lemma AnswerIsHeld(evaluators: seq<string>, scan: Providers, i: nat, k: nat)
    requires AllRouted(evaluators, scan, i) && k < |evaluators|
    ensures scan(evaluators[k], i).Scanned?
    ensures HoldsAt(Single(evaluators, scan, i).assessments, Offset(Findings(evaluators, scan, i), k),
                    scan(evaluators[k], i).assessments)
  {
    assert evaluators[k] in evaluators;
    SingleHoldsAnswers(evaluators, scan, i);
    assert Findings(evaluators, scan, i)[k] == scan(evaluators[k], i).assessments;
  }

  lemma PartIsHeld(ids: seq<string>, parts: seq<TargetScan>, i: nat)
    requires |ids| == |parts| && i < |ids|
    ensures HoldsAt(Output(ids, parts).assessments, Offset(AssessmentsOf(parts), i), parts[i].assessments)
  {
    OutputHoldsParts(ids, parts, ids[i]);
    assert AssessmentsOf(parts)[i] == parts[i].assessments;
  }

  /** The answer stands at its place in the flat list and, with distinct ids, in the i-th target's own report. */
  ghost predicate AnswerReported(ids: seq<string>, parts: seq<TargetScan>, i: nat, at: nat, answer: seq<Assessment>)
    requires |ids| == |parts| && i < |ids|
  {
    var out := Output(ids, parts);
    && HoldsAt(out.assessments, Offset(AssessmentsOf(parts), i) + at, answer)
    && (DistinctIds(ids) ==> HoldsAt(For(out.assessments, out.targets, ids[i]), at, answer))
  }

  lemma ReportOfPart(ids: seq<string>, parts: seq<TargetScan>, i: nat, at: nat, answer: seq<Assessment>)
    requires |ids| == |parts| && i < |ids| && HoldsAt(parts[i].assessments, at, answer)
    ensures AnswerReported(ids, parts, i, at, answer)
  {
    PartIsHeld(ids, parts, i);
    HeldWithin(Output(ids, parts).assessments, Offset(AssessmentsOf(parts), i), parts[i].assessments, at, answer);
    if DistinctIds(ids) {
      ReportsPartitionTheScan(ids, parts);
    }
  }

  /**
   * From the providers' answers to the reports: what evaluator k answers for target i stands in the flat list, after
   * the earlier targets' findings and those of the earlier evaluators, and with distinct ids at the same place in the
   * target's own report.
   */
  lemma EveryAnswerIsReported(ids: seq<string>, evaluators: seq<string>, scan: Providers, i: nat, k: nat)
    requires forall j :: 0 <= j < |ids| ==> AllRouted(evaluators, scan, j)
    requires i < |ids| && k < |evaluators|
    ensures scan(evaluators[k], i).Scanned?
    ensures AnswerReported(ids, Parts(|ids|, evaluators, scan), i, Offset(Findings(evaluators, scan, i), k),
                           scan(evaluators[k], i).assessments)
  {
    AnswerIsHeld(evaluators, scan, i, k);
    assert Parts(|ids|, evaluators, scan)[i] == Single(evaluators, scan, i);
    ReportOfPart(ids, Parts(|ids|, evaluators, scan), i, Offset(Findings(evaluators, scan, i), k),
                 scan(evaluators[k], i).assessments);
  }

  // ---------- Collisions over all targets ----------

  function IdsInOrder(refs: seq<Reference>): seq<string> {
    seq(|refs|, i requires 0 <= i < |refs| => refs[i].id)
  }

  function CollisionIds(collisions: seq<Collision>): seq<string> {
    seq(|collisions|, i requires 0 <= i < |collisions| => collisions[i].id)
  }

  /** xs with those elements of more appended that have not occurred yet. */
  function AddUnseen(xs: seq<string>, more: seq<string>): seq<string> {
    if more == [] then xs
    else
      var front, last := AddUnseen(xs, more[..|more| - 1]), more[|more| - 1];
      if last in front then front else front + [last]
  }

  function LosingIdsFor(policyRefs: seq<Reference>, refs: map<string, seq<Reference>>, id: string): seq<string> {
    IdsInOrder(Losing(Ids(policyRefs), RefsOf(refs, id)))
  }

  /** The colliding ids of all targets, each at its first occurrence. */
  function WarnedIds(policyRefs: seq<Reference>, refs: map<string, seq<Reference>>, ids: seq<string>): seq<string> {
    if ids == [] then []
    else AddUnseen(WarnedIds(policyRefs, refs, ids[..|ids| - 1]), LosingIdsFor(policyRefs, refs, ids[|ids| - 1]))
  }

  function AllDiscarded(refs: map<string, seq<Reference>>, ids: seq<string>): seq<string> {
    if ids == [] then [] else AllDiscarded(refs, ids[..|ids| - 1]) + Nameless(RefsOf(refs, ids[|ids| - 1]))
  }

  function DiscardedPerTarget(refs: map<string, seq<Reference>>, ids: seq<string>): seq<seq<string>> {
    seq(|ids|, i requires 0 <= i < |ids| => Nameless(RefsOf(refs, ids[i])))
  }

  lemma {:induction false} DiscardedIsFlat(refs: map<string, seq<Reference>>, ids: seq<string>)
    ensures AllDiscarded(refs, ids) == Flat(DiscardedPerTarget(refs, ids))
  {
    if ids != [] {
      var n := |ids| - 1;
      DiscardedIsFlat(refs, ids[..n]);
      assert DiscardedPerTarget(refs, ids)[..n] == DiscardedPerTarget(refs, ids[..n]);
    }
  }

  /** The discarded titles of all targets, one target after the other. */
  lemma DiscardedInOrder(refs: map<string, seq<Reference>>, ids: seq<string>)
    ensures HoldsInOrder(AllDiscarded(refs, ids), DiscardedPerTarget(refs, ids))
  {
    DiscardedIsFlat(refs, ids);
    FlatHoldsInOrder(DiscardedPerTarget(refs, ids));
  }

  lemma {:induction false} UnseenOnce(xs: seq<string>, more: seq<string>, x: string)
    requires DistinctIds(xs)
    ensures DistinctIds(AddUnseen(xs, more))
    ensures x in AddUnseen(xs, more) <==> x in xs || x in more
  {
    if more != [] {
      assert more == more[..|more| - 1] + [more[|more| - 1]];
      UnseenOnce(xs, more[..|more| - 1], x);
      UnseenOnce(xs, more[..|more| - 1], more[|more| - 1]);
    }
  }

  /** An id is warned about exactly if it collides on some target, and then once. */
  lemma {:induction false} WarnedOnce(policyRefs: seq<Reference>, refs: map<string, seq<Reference>>, ids: seq<string>,
                                      x: string)
    ensures DistinctIds(WarnedIds(policyRefs, refs, ids))
    ensures x in WarnedIds(policyRefs, refs, ids) <==> exists id :: id in ids && x in LosingIdsFor(policyRefs, refs, id)
  {
    if ids != [] {
      var front, last := ids[..|ids| - 1], ids[|ids| - 1];
      assert ids == front + [last];
      WarnedOnce(policyRefs, refs, front, x);
      UnseenOnce(WarnedIds(policyRefs, refs, front), LosingIdsFor(policyRefs, refs, last), x);
    }
  }

  /** Appends the collisions whose id has not been seen. */
  method AddNewCollisions(known: seq<Collision>, seen: set<string>, more: seq<Collision>)
    returns (all: seq<Collision>, seen': set<string>)
    requires forall x :: x in seen <==> x in CollisionIds(known)
    ensures CollisionIds(all) == AddUnseen(CollisionIds(known), CollisionIds(more))
    ensures forall x :: x in seen' <==> x in CollisionIds(all)
    ensures forall c :: c in all ==> c in known || c in more
  {
    all, seen' := known, seen;
    for i := 0 to |more|
      invariant CollisionIds(all) == AddUnseen(CollisionIds(known), CollisionIds(more)[..i])
      invariant forall x :: x in seen' <==> x in CollisionIds(all)
      invariant forall c :: c in all ==> c in known || c in more
    {
      var c := more[i];
      assert CollisionIds(more)[..i + 1][..i] == CollisionIds(more)[..i] && CollisionIds(more)[i] == c.id;
      assert CollisionIds(all + [c]) == CollisionIds(all) + [c.id];
      if c.id !in seen' {
        all, seen' := all + [c], seen' + {c.id};
      }
    }
    assert CollisionIds(more)[..|more|] == CollisionIds(more);
  }

  /** The collision is one that merging the references of some target reports. */
  ghost predicate ReportedForSome(policyRefs: seq<Reference>, refs: map<string, seq<Reference>>, ids: seq<string>,
                                  c: Collision) {
    exists id :: id in ids && ReportedFor(policyRefs, RefsOf(refs, id), c)
  }

  ghost predicate ReportedFor(policyRefs: seq<Reference>, provider: seq<Reference>, c: Collision) {
    exists loser :: loser in Losing(Ids(policyRefs), provider)
      && CollisionReported(policyRefs, Kept(Ids(policyRefs), provider), loser, c)
  }

  lemma ReportedOnes(policyRefs: seq<Reference>, provider: seq<Reference>, collisions: seq<Collision>)
    requires Reported(policyRefs, Kept(Ids(policyRefs), provider), Losing(Ids(policyRefs), provider), collisions)
    ensures CollisionIds(collisions) == IdsInOrder(Losing(Ids(policyRefs), provider))
    ensures forall c :: c in collisions ==> ReportedFor(policyRefs, provider, c)
  {
    var kept, losing := Kept(Ids(policyRefs), provider), Losing(Ids(policyRefs), provider);
    forall k | 0 <= k < |losing|
      ensures collisions[k].id == losing[k].id && ReportedFor(policyRefs, provider, collisions[k])
    {
      assert CollisionReported(policyRefs, kept, losing[k], collisions[k]);
      assert losing[k] in losing;
    }
  }

  ghost predicate MergedFor(note: NoteText, policyRefs: seq<Reference>, provider: seq<Reference>,
                            merged: seq<Reference>) {
    Merged(note, policyRefs, Kept(Ids(policyRefs), provider), Losing(Ids(policyRefs), provider), merged)
  }

  /** What has been reported after the first targets. */
  ghost predicate Warned(policyRefs: seq<Reference>, refs: map<string, seq<Reference>>, ids: seq<string>,
                         collisions: seq<Collision>) {
    && CollisionIds(collisions) == WarnedIds(policyRefs, refs, ids)
    && forall c :: c in collisions ==> ReportedForSome(policyRefs, refs, ids, c)
  }

  lemma WarnedFurther(policyRefs: seq<Reference>, refs: map<string, seq<Reference>>, ids: seq<string>, id: string,
                      known: seq<Collision>, found: seq<Collision>, all: seq<Collision>)
    requires Warned(policyRefs, refs, ids, known)
    requires CollisionIds(found) == LosingIdsFor(policyRefs, refs, id)
    requires forall c :: c in found ==> ReportedFor(policyRefs, RefsOf(refs, id), c)
    requires CollisionIds(all) == AddUnseen(CollisionIds(known), CollisionIds(found))
    requires forall c :: c in all ==> c in known || c in found
    ensures Warned(policyRefs, refs, ids + [id], all)
  {
    var more := ids + [id];
    assert more[..|ids|] == ids && id in more;
    forall c | c in all ensures ReportedForSome(policyRefs, refs, more, c) {
      if c in known {
        var i :| i in ids && ReportedFor(policyRefs, RefsOf(refs, i), c);
        assert i in more;
      }
    }
  }

  /** References, collisions and discarded titles of these targets. */
  ghost predicate MergedAll(note: NoteText, policyRefs: seq<Reference>, refs: map<string, seq<Reference>>,
                            ids: seq<string>,
                            references: seq<seq<Reference>>, collisions: seq<Collision>, discarded: seq<string>) {
    && |references| == |ids|
    && (forall i :: 0 <= i < |ids| ==> MergedFor(note, policyRefs, RefsOf(refs, ids[i]), references[i]))
    && Warned(policyRefs, refs, ids, collisions)
    && discarded == AllDiscarded(refs, ids)
  }

  /** A target's references merged with the policy's alone, its new collisions and its discarded titles. */
  method MergeForTarget(note: NoteText, policyRefs: seq<Reference>, refs: map<string, seq<Reference>>,
                        ids: seq<string>, i: nat,
                        references: seq<seq<Reference>>, known: seq<Collision>, discarded: seq<string>,
                        seen: set<string>)
    returns (references': seq<seq<Reference>>, collisions: seq<Collision>, discarded': seq<string>, seen': set<string>)
    requires i < |ids| && MergedAll(note, policyRefs, refs, ids[..i], references, known, discarded)
    requires forall x :: x in seen <==> x in CollisionIds(known)
    ensures MergedAll(note, policyRefs, refs, ids[..i + 1], references', collisions, discarded')
    ensures forall x :: x in seen' <==> x in CollisionIds(collisions)
  {
    var id := ids[i];
    var merged, found, titles := MergeMappingReferences(note, policyRefs, RefsOf(refs, id));
    ReportedOnes(policyRefs, RefsOf(refs, id), found);
    collisions, seen' := AddNewCollisions(known, seen, found);
    WarnedFurther(policyRefs, refs, ids[..i], id, known, found, collisions);
    references', discarded' := references + [merged], discarded + titles;
    MergedFurther(note, policyRefs, refs, ids[..i], id, references, known, discarded, merged, collisions);
    assert ids[..i + 1] == ids[..i] + [id];
  }

  lemma DiscardedFurther(refs: map<string, seq<Reference>>, front: seq<string>, id: string)
    ensures AllDiscarded(refs, front + [id]) == AllDiscarded(refs, front) + Nameless(RefsOf(refs, id))
  {
    assert (front + [id])[..|front|] == front;
  }

  lemma MergedFurther(note: NoteText, policyRefs: seq<Reference>, refs: map<string, seq<Reference>>, front: seq<string>,
                      id: string, references: seq<seq<Reference>>, known: seq<Collision>, discarded: seq<string>,
                      merged: seq<Reference>, collisions: seq<Collision>)
    requires MergedAll(note, policyRefs, refs, front, references, known, discarded)
    requires MergedFor(note, policyRefs, RefsOf(refs, id), merged)
    requires Warned(policyRefs, refs, front + [id], collisions)
    ensures MergedAll(note, policyRefs, refs, front + [id], references + [merged], collisions,
                      discarded + Nameless(RefsOf(refs, id)))
  {
    DiscardedFurther(refs, front, id);
    var ids, all := front + [id], references + [merged];
    forall i | 0 <= i < |ids| ensures MergedFor(note, policyRefs, RefsOf(refs, ids[i]), all[i]) {
      assert i < |front| ==> ids[i] == front[i] && all[i] == references[i];
    }
  }

  /** The evaluator of one target, holding that target's assessments. */
  method EvaluatorFor(settings: Settings, id: string, out: ScanOutput) returns (evaluator: Evaluator)
    requires |out.assessments| == |out.targets|
    ensures fresh(evaluator) && Holds(evaluator, settings, id, out)
  {
    evaluator := new Evaluator(id, settings);
    var own := SelectFor(out.assessments, out.targets, id);
    evaluator.AddTarget(own);
  }

  ghost predicate Holds(evaluator: Evaluator, settings: Settings, id: string, out: ScanOutput)
    requires |out.assessments| == |out.targets|
    reads evaluator
  {
    && evaluator.targetId == id && evaluator.settings == settings
    && evaluator.Contents() == Accumulated(settings, For(out.assessments, out.targets, id))
  }

  /** One evaluator and one list of references per target, and the collisions and discarded titles of all of them. */
  method BuildEvaluators(note: NoteText, settings: Settings, policyRefs: seq<Reference>, ids: seq<string>,
                         out: ScanOutput)
    returns (evaluators: seq<Evaluator>, references: seq<seq<Reference>>, collisions: seq<Collision>,
             discarded: seq<string>)
    requires |out.assessments| == |out.targets|
    ensures |evaluators| == |ids|
    ensures forall i :: 0 <= i < |ids| ==> fresh(evaluators[i]) && Holds(evaluators[i], settings, ids[i], out)
    ensures MergedAll(note, policyRefs, out.refs, ids, references, collisions, discarded)
  {
    evaluators, references, collisions, discarded := [], [], [], [];
    var seen: set<string> := {};
    for i := 0 to |ids|
      invariant |evaluators| == i
      invariant forall k :: 0 <= k < i ==> fresh(evaluators[k]) && Holds(evaluators[k], settings, ids[k], out)
      invariant MergedAll(note, policyRefs, out.refs, ids[..i], references, collisions, discarded)
      invariant forall x :: x in seen <==> x in CollisionIds(collisions)
    {
      references, collisions, discarded, seen :=
        MergeForTarget(note, policyRefs, out.refs, ids, i, references, collisions, discarded, seen);
      var evaluator := EvaluatorFor(settings, ids[i], out);
      evaluators := evaluators + [evaluator];
    }
    assert ids[..|ids|] == ids;
  }

  method SelectFor(assessments: seq<Assessment>, targets: seq<string>, id: string) returns (own: seq<Assessment>)
    requires |assessments| == |targets|
    ensures own == For(assessments, targets, id)
  {
    own := [];
    for j := 0 to |assessments|
      invariant own == For(assessments[..j], targets[..j], id)
    {
      assert assessments[..j + 1][..j] == assessments[..j] && targets[..j + 1][..j] == targets[..j];
      if targets[j] == id {
        own := own + [assessments[j]];
      }
    }
    assert assessments[..|assessments|] == assessments && targets[..|assessments|] == targets;
  }
}
