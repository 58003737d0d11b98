/** Routing assessment plans to evaluators, with the shortcut for a single evaluator. */
module Grouping {

  /** A plan with the executor ids of its own evaluation methods. */
  datatype Plan = Plan(id: string, requirementId: string, executors: seq<string>)

  /** The policy-level executors and the plans. */
  datatype Policy = Policy(executors: seq<string>, plans: seq<Plan>)

  datatype Assessment = Assessment(id: string, requirementId: string, evaluatorId: string)

  datatype Configuration = Configuration(planId: string, requirementId: string, evaluatorId: string)

  datatype Group = Group(evaluatorId: string, configs: seq<Configuration>)

  /** A plan's own first executor unless it is missing or empty, else the policy's first. */
  function EvaluatorOf(p: Policy, plan: Plan): string {
    if plan.executors != [] && plan.executors[0] != "" then plan.executors[0]
    else if p.executors != [] then p.executors[0] else ""
  }

  function Assessments(p: Policy): (r: seq<Assessment>)
    ensures |r| == |p.plans|
  {
    seq(|p.plans|, i requires 0 <= i < |p.plans| =>
      Assessment(p.plans[i].id, p.plans[i].requirementId, EvaluatorOf(p, p.plans[i])))
  }

  /** e is the one evaluator of all plans; with no plan or several evaluators the shortcut id is empty. */
  ghost predicate IsShortcut(p: Policy, e: string) {
    if p.plans != [] && forall i :: 0 <= i < |p.plans| ==> EvaluatorOf(p, p.plans[i]) == EvaluatorOf(p, p.plans[0])
    then e == EvaluatorOf(p, p.plans[0]) else e == ""
  }

  method ExtractFromPolicy(p: Policy) returns (evaluatorId: string, assessments: seq<Assessment>)
    ensures assessments == Assessments(p)
    ensures IsShortcut(p, evaluatorId)
  {
    var policyLevel := if |p.executors| > 0 then p.executors[0] else "";
    assessments := [];
    var evaluators: set<string> := {};
    for i := 0 to |p.plans|
      invariant assessments == Assessments(p)[..i]
      invariant forall e :: e in evaluators <==> exists k :: 0 <= k < i && EvaluatorOf(p, p.plans[k]) == e
    {
      var plan := p.plans[i];
      var evaluator := policyLevel;
      if |plan.executors| > 0 && plan.executors[0] != "" {
        evaluator := plan.executors[0];
      }
      evaluators := evaluators + {evaluator};
      assessments := assessments + [Assessment(plan.id, plan.requirementId, evaluator)];
    }
    evaluatorId := "";
    if |evaluators| == 1 {
      evaluatorId :| evaluators == {evaluatorId} by {
        var x :| x in evaluators;
        SingletonHas(evaluators, x);
      }
      assert forall i :: 0 <= i < |p.plans| ==> EvaluatorOf(p, p.plans[i]) in evaluators;
    }
    if p.plans != [] {
      var first := EvaluatorOf(p, p.plans[0]);
      assert first in evaluators;
      if forall i :: 0 <= i < |p.plans| ==> EvaluatorOf(p, p.plans[i]) == first {
        assert evaluators == {first};
      }
    }
  }

  lemma SingletonHas(s: set<string>, x: string)
    requires |s| == 1 && x in s
    ensures s == {x}
  {
    assert |s - {x}| == 0;
  }

  function Configurations(assessments: seq<Assessment>): seq<Configuration> {
    seq(|assessments|, i requires 0 <= i < |assessments| =>
      Configuration(assessments[i].id, assessments[i].requirementId, assessments[i].evaluatorId))
  }

  method ExtractAssessmentConfigs(assessments: seq<Assessment>) returns (configs: seq<Configuration>)
    ensures configs == Configurations(assessments)
  {
    configs := [];
    for i := 0 to |assessments|
      invariant configs == Configurations(assessments)[..i]
    {
      configs := configs + [Configuration(assessments[i].id, assessments[i].requirementId, assessments[i].evaluatorId)];
    }
  }

  /** The configurations of one evaluator, in order. */
  function Of(configs: seq<Configuration>, e: string): seq<Configuration> {
    if configs == [] then []
    else
      var n := |configs| - 1;
      Of(configs[..n], e) + if configs[n].evaluatorId == e then [configs[n]] else []
  }

  /** Grouped by evaluator: one group for each evaluator that occurs, holding exactly its configurations. */
  ghost predicate IsPartition(configs: seq<Configuration>, groups: map<string, Group>) {
    && (forall e :: e in groups <==> Of(configs, e) != [])
    && forall e :: e in groups ==> groups[e] == Group(e, Of(configs, e))
  }

  lemma PartitionIsUnique(configs: seq<Configuration>, g: map<string, Group>, h: map<string, Group>)
    requires IsPartition(configs, g) && IsPartition(configs, h)
    ensures g == h
  {
    assert g.Keys == h.Keys;
  }

  /** With a graph-level evaluator everything goes into one group; otherwise the general loop runs. */
  method GroupByEvaluator(configs: seq<Configuration>, graphEvaluator: string) returns (groups: map<string, Group>)
    ensures graphEvaluator != "" ==> groups == map[graphEvaluator := Group(graphEvaluator, configs)]
    ensures graphEvaluator == "" ==> IsPartition(configs, groups)
  {
    groups := map[];
    if graphEvaluator != "" {
      return map[graphEvaluator := Group(graphEvaluator, configs)];
    }
    for i := 0 to |configs|
      invariant IsPartition(configs[..i], groups)
    {
      assert configs[..i + 1][..i] == configs[..i];
      var e := configs[i].evaluatorId;
      groups := groups[e := Group(e, (if e in groups then groups[e].configs else []) + [configs[i]])];
    }
    assert configs[..|configs|] == configs;
  }

  lemma {:induction false} OfAll(configs: seq<Configuration>, e: string)
    ensures |Of(configs, e)| <= |configs|
    ensures Of(configs, e) == configs <==> forall i :: 0 <= i < |configs| ==> configs[i].evaluatorId == e
  {
    if configs != [] {
      var front, last := configs[..|configs| - 1], configs[|configs| - 1];
      OfAll(front, e);
      if Of(configs, e) == configs {
        assert last.evaluatorId != e ==> Of(configs, e) == Of(front, e);
        assert Of(front, e) == Of(configs, e)[..|front|] == front;
      }
    }
  }

  lemma {:induction false} OfOther(configs: seq<Configuration>, e: string, d: string)
    requires d != e && forall i :: 0 <= i < |configs| ==> configs[i].evaluatorId == e
    ensures Of(configs, d) == []
  {
    if configs != [] {
      OfOther(configs[..|configs| - 1], e, d);
    }
  }

  ghost predicate AllOf(configs: seq<Configuration>, e: string) {
    forall i :: 0 <= i < |configs| ==> configs[i].evaluatorId == e
  }

  /** The shortcut group is the partition exactly when there are configurations and all name that evaluator. */
  lemma ShortcutIsPartitionIff(configs: seq<Configuration>, e: string)
    ensures IsPartition(configs, map[e := Group(e, configs)]) <==> configs != [] && AllOf(configs, e)
  {
    var groups := map[e := Group(e, configs)];
    OfAll(configs, e);
    if IsPartition(configs, groups) {
      assert e in groups;
      assert groups[e].configs == Of(configs, e);
    }
    if configs != [] && AllOf(configs, e) {
      forall d ensures d in groups <==> Of(configs, d) != [] {
        if d != e {
          OfOther(configs, e, d);
        }
      }
    }
  }

  /** Every configuration is in the group of its evaluator and in no other, as often as it occurs. */
  lemma {:induction false} GroupsPartitionPlans(configs: seq<Configuration>, e: string, c: Configuration)
    ensures multiset(Of(configs, e))[c] == if c.evaluatorId == e then multiset(configs)[c] else 0
  {
    if configs != [] {
      GroupsPartitionPlans(configs[..|configs| - 1], e, c);
      assert configs == configs[..|configs| - 1] + [configs[|configs| - 1]];
    }
  }

  predicate HasOwnExecutor(plan: Plan) {
    plan.executors != [] && plan.executors[0] != ""
  }

  predicate InGroup(groups: map<string, Group>, e: string, plan: Plan) {
    && e in groups && groups[e].evaluatorId == e
    && Configuration(plan.id, plan.requirementId, e) in groups[e].configs
  }

  /** Each plan is in the group of its own first executor, else of the policy's, else of the empty id. */
  ghost predicate PlansRouted(p: Policy, groups: map<string, Group>) {
    forall i :: 0 <= i < |p.plans| ==>
      && (HasOwnExecutor(p.plans[i]) ==> InGroup(groups, p.plans[i].executors[0], p.plans[i]))
      && (!HasOwnExecutor(p.plans[i]) && p.executors != [] ==> InGroup(groups, p.executors[0], p.plans[i]))
      && (!HasOwnExecutor(p.plans[i]) && p.executors == [] ==> InGroup(groups, "", p.plans[i]))
  }

  /** Nothing else is in a group: each configuration is that of some plan routed there. */
  ghost predicate OnlyPlans(p: Policy, groups: map<string, Group>) {
    forall e, c :: e in groups && c in groups[e].configs ==> c.evaluatorId == e && OfSomePlan(p, c)
  }

  ghost predicate OfSomePlan(p: Policy, c: Configuration) {
    exists i :: 0 <= i < |p.plans| && c.planId == p.plans[i].id && c.requirementId == p.plans[i].requirementId
             && RoutedTo(p, p.plans[i], c.evaluatorId)
  }

  predicate RoutedTo(p: Policy, plan: Plan, e: string) {
    if HasOwnExecutor(plan) then e == plan.executors[0]
    else if p.executors != [] then e == p.executors[0]
    else e == ""
  }

  lemma ConfigurationOfPlan(p: Policy, i: nat)
    requires i < |p.plans|
    ensures var c := Configurations(Assessments(p))[i];
            && c.planId == p.plans[i].id && c.requirementId == p.plans[i].requirementId
            && RoutedTo(p, p.plans[i], c.evaluatorId)
  {
  }

  lemma GroupHasPlan(configs: seq<Configuration>, groups: map<string, Group>, i: nat)
    requires IsPartition(configs, groups) && i < |configs|
    ensures var e := configs[i].evaluatorId;
            e in groups && groups[e].evaluatorId == e && configs[i] in groups[e].configs
  {
    GroupsPartitionPlans(configs, configs[i].evaluatorId, configs[i]);
    assert configs[i] in multiset(configs);
    assert configs[i] in multiset(Of(configs, configs[i].evaluatorId));
  }

  lemma PlanIsRouted(p: Policy, groups: map<string, Group>, i: nat, e: string)
    requires IsPartition(Configurations(Assessments(p)), groups) && i < |p.plans| && RoutedTo(p, p.plans[i], e)
    ensures InGroup(groups, e, p.plans[i])
  {
    ConfigurationOfPlan(p, i);
    GroupHasPlan(Configurations(Assessments(p)), groups, i);
  }

  lemma PartitionRoutesPlans(p: Policy, groups: map<string, Group>)
    requires IsPartition(Configurations(Assessments(p)), groups)
    ensures PlansRouted(p, groups)
  {
    forall i | 0 <= i < |p.plans|
      ensures HasOwnExecutor(p.plans[i]) ==> InGroup(groups, p.plans[i].executors[0], p.plans[i])
      ensures !HasOwnExecutor(p.plans[i]) && p.executors != [] ==> InGroup(groups, p.executors[0], p.plans[i])
      ensures !HasOwnExecutor(p.plans[i]) && p.executors == [] ==> InGroup(groups, "", p.plans[i])
    {
      if HasOwnExecutor(p.plans[i]) {
        PlanIsRouted(p, groups, i, p.plans[i].executors[0]);
      } else {
        PlanIsRouted(p, groups, i, if p.executors != [] then p.executors[0] else "");
      }
    }
  }

  lemma PartitionHasOnlyPlans(p: Policy, groups: map<string, Group>)
    requires IsPartition(Configurations(Assessments(p)), groups)
    ensures OnlyPlans(p, groups)
  {
    var configs := Configurations(Assessments(p));
    forall e, c | e in groups && c in groups[e].configs ensures c.evaluatorId == e && OfSomePlan(p, c) {
      GroupsPartitionPlans(configs, e, c);
      assert c in multiset(Of(configs, e));
      var i :| 0 <= i < |configs| && configs[i] == c;
      ConfigurationOfPlan(p, i);
    }
  }

  /** The whole route from a policy to its groups gives the general partition, shortcut or not. */
  method GroupsOfPolicy(p: Policy) returns (groups: map<string, Group>)
    ensures IsPartition(Configurations(Assessments(p)), groups)
    ensures PlansRouted(p, groups) && OnlyPlans(p, groups)
  {
    var evaluatorId, assessments := ExtractFromPolicy(p);
    var configs := ExtractAssessmentConfigs(assessments);
    groups := GroupByEvaluator(configs, evaluatorId);
    if evaluatorId != "" {
      assert forall i :: 0 <= i < |configs| ==> configs[i].evaluatorId == EvaluatorOf(p, p.plans[i]);
      ShortcutIsPartitionIff(configs, evaluatorId);
    }
    PartitionRoutesPlans(p, groups);
    PartitionHasOnlyPlans(p, groups);
  }
}
