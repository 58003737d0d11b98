/** Merging policy-defined with provider-reported mapping references. */
module Mapping {

  datatype Reference = Reference(id: string, title: string, version: string, description: string, url: string)

  datatype Collision = Collision(id: string, retainedTitle: string, discardedTitle: string, policyWins: bool)

  /** The text of a note, from the id, the discarded title and whether the policy wins. Proofs hold for any text. */
  type NoteText = (string, string, bool) -> string

  function CollisionNote(id: string, title: string, policyWins: bool): (r: string)
    ensures r != ""
  {
    var winner := if policyWins then "policy ref" else "earlier provider ref";
    var reference := if title != "" then "'" + title + "' (id: '" + id + "')" else "(id: '" + id + "')";
    "collision: provider ref " + reference + " discarded in favor of " + winner + "; "
  }

  function Ids(refs: seq<Reference>): (ids: set<string>)
    ensures forall r :: r in refs ==> r.id in ids
  {
    if refs == [] then {} else Ids(refs[..|refs| - 1]) + {refs[|refs| - 1].id}
  }

  // ---------- The specification ----------

  /** Provider references that are kept: the first with each non-empty id the policy does not use. */
  function Kept(policyIds: set<string>, refs: seq<Reference>): seq<Reference> {
    if refs == [] then []
    else
      var front, last := refs[..|refs| - 1], refs[|refs| - 1];
      Kept(policyIds, front) + if last.id != "" && last.id !in policyIds && last.id !in Ids(front) then [last] else []
  }

  /** Provider references that lose against the policy or an earlier provider reference. */
  function Losing(policyIds: set<string>, refs: seq<Reference>): seq<Reference> {
    if refs == [] then []
    else
      var front, last := refs[..|refs| - 1], refs[|refs| - 1];
      Losing(policyIds, front) + if last.id != "" && (last.id in policyIds || last.id in Ids(front)) then [last] else []
  }

  /** Titles of provider references without an id. */
  function Nameless(refs: seq<Reference>): seq<string> {
    if refs == [] then []
    else Nameless(refs[..|refs| - 1]) + if refs[|refs| - 1].id == "" then [refs[|refs| - 1].title] else []
  }

  /** The notes an id collects, the latest first. */
  function Notes(note: NoteText, policyIds: set<string>, losing: seq<Reference>, id: string): string {
    if losing == [] then ""
    else
      var last := losing[|losing| - 1];
      var own := if last.id == id then note(id, last.title, id in policyIds) else "";
      own + Notes(note, policyIds, losing[..|losing| - 1], id)
  }

  function Base(policy: seq<Reference>, kept: seq<Reference>, i: nat): Reference
    requires i < |policy| + |kept|
  {
    if i < |policy| then policy[i] else kept[i - |policy|]
  }

  /** The entry an id points at: its last occurrence in the policy, else its place among the kept. */
  ghost predicate Points(policy: seq<Reference>, kept: seq<Reference>, id: string, i: nat) {
    && i < |policy| + |kept| && Base(policy, kept, i).id == id
    && (if i < |policy| then forall j :: i < j < |policy| ==> policy[j].id != id else id !in Ids(policy))
  }

  /** Entry i of the merge: the original, with the notes prepended where its id points at it. */
  ghost predicate EntryMerged(note: NoteText, policy: seq<Reference>, kept: seq<Reference>, losing: seq<Reference>,
                              entry: Reference, i: nat)
    requires i < |policy| + |kept|
  {
    var base := Base(policy, kept, i);
    entry == if Points(policy, kept, base.id, i)
             then base.(description := Notes(note, Ids(policy), losing, base.id) + base.description) else base
  }

  ghost predicate Merged(note: NoteText, policy: seq<Reference>, kept: seq<Reference>, losing: seq<Reference>,
                         merged: seq<Reference>) {
    && |merged| == |policy| + |kept|
    && forall i :: 0 <= i < |merged| ==> EntryMerged(note, policy, kept, losing, merged[i], i)
  }

  ghost predicate CollisionReported(policy: seq<Reference>, kept: seq<Reference>, loser: Reference, c: Collision) {
    && c.id == loser.id && c.discardedTitle == loser.title && (c.policyWins <==> loser.id in Ids(policy))
    && exists i :: Points(policy, kept, loser.id, i) && c.retainedTitle == Base(policy, kept, i).title
  }

  ghost predicate Reported(policy: seq<Reference>, kept: seq<Reference>, losing: seq<Reference>,
                           collisions: seq<Collision>) {
    |collisions| == |losing|
        && forall k :: 0 <= k < |losing| ==> CollisionReported(policy, kept, losing[k], collisions[k])
  }

  // ---------- Facts about the specification ----------

  lemma IdsAppend(refs: seq<Reference>, r: Reference)
    ensures Ids(refs + [r]) == Ids(refs) + {r.id}
  {
    assert (refs + [r])[..|refs|] == refs;
  }

  lemma {:induction false} IdsIff(refs: seq<Reference>, id: string)
    ensures id in Ids(refs) <==> exists i :: 0 <= i < |refs| && refs[i].id == id
  {
    if refs != [] {
      IdsIff(refs[..|refs| - 1], id);
      assert refs[|refs| - 1].id == id || (id in Ids(refs) <==> id in Ids(refs[..|refs| - 1]));
      forall i | 0 <= i < |refs| - 1 ensures refs[..|refs| - 1][i] == refs[i] {}
    }
  }

  function WithoutId(refs: seq<Reference>): seq<Reference> {
    if refs == [] then []
    else WithoutId(refs[..|refs| - 1]) + if refs[|refs| - 1].id == "" then [refs[|refs| - 1]] else []
  }

  function Titles(refs: seq<Reference>): seq<string> {
    seq(|refs|, i requires 0 <= i < |refs| => refs[i].title)
  }

  lemma CountMaybe(s: seq<Reference>, more: bool, r: Reference, x: Reference)
    ensures multiset(s + if more then [r] else [])[x] == multiset(s)[x] + (if more && r == x then 1 else 0)
  {
    assert multiset(s + [r]) == multiset(s) + multiset{r};
    assert s + [] == s;
  }

  lemma KeptAppend(policyIds: set<string>, front: seq<Reference>, last: Reference, x: Reference)
    ensures multiset(Kept(policyIds, front + [last]))[x] == multiset(Kept(policyIds, front))[x]
         + (if last.id != "" && !(last.id in policyIds || last.id in Ids(front)) && last == x then 1 else 0)
  {
    assert (front + [last])[..|front|] == front;
    CountMaybe(Kept(policyIds, front), last.id != "" && last.id !in policyIds && last.id !in Ids(front), last, x);
  }

  lemma LosingAppend(policyIds: set<string>, front: seq<Reference>, last: Reference, x: Reference)
    ensures multiset(Losing(policyIds, front + [last]))[x] == multiset(Losing(policyIds, front))[x]
         + (if last.id != "" && (last.id in policyIds || last.id in Ids(front)) && last == x then 1 else 0)
  {
    assert (front + [last])[..|front|] == front;
    CountMaybe(Losing(policyIds, front), last.id != "" && (last.id in policyIds || last.id in Ids(front)), last, x);
  }

  lemma WithoutIdAppend(front: seq<Reference>, last: Reference, x: Reference)
    ensures multiset(WithoutId(front + [last]))[x]
         == multiset(WithoutId(front))[x] + (if last.id == "" && last == x then 1 else 0)
  {
    assert (front + [last])[..|front|] == front;
    CountMaybe(WithoutId(front), last.id == "", last, x);
  }

  /** Conservation: every provider reference is kept, loses, or has no id, as often as it occurs. */
  lemma {:induction false} NothingIsLost(policyIds: set<string>, refs: seq<Reference>, x: Reference)
    ensures multiset(refs)[x]
         == multiset(Kept(policyIds, refs))[x] + multiset(Losing(policyIds, refs))[x] + multiset(WithoutId(refs))[x]
  {
    if refs != [] {
      var front, last := refs[..|refs| - 1], refs[|refs| - 1];
      assert refs == front + [last];
      NothingIsLost(policyIds, front, x);
      assert multiset(refs) == multiset(front) + multiset{last};
      KeptAppend(policyIds, front, last, x);
      LosingAppend(policyIds, front, last, x);
      WithoutIdAppend(front, last, x);
    }
  }

  /** The discarded titles are those of the references without an id, in order. */
  lemma {:induction false} DiscardedTitles(refs: seq<Reference>)
    ensures Nameless(refs) == Titles(WithoutId(refs))
  {
    if refs != [] {
      var front, last := refs[..|refs| - 1], refs[|refs| - 1];
      DiscardedTitles(front);
      assert Titles(WithoutId(front) + [last]) == Titles(WithoutId(front)) + [last.title];
    }
  }

  /** The kept references cover exactly the non-empty ids outside the policy's. */
  lemma {:induction false} KeptCoversIds(policyIds: set<string>, refs: seq<Reference>)
    ensures Ids(Kept(policyIds, refs)) == Ids(refs) - policyIds - {""}
  {
    if refs != [] {
      var front, last := refs[..|refs| - 1], refs[|refs| - 1];
      KeptCoversIds(policyIds, front);
      IdsAppend(Kept(policyIds, front), last);
      assert Ids(refs) == Ids(front) + {last.id};
      if last.id != "" && last.id !in policyIds && last.id !in Ids(front) {
        assert Kept(policyIds, refs) == Kept(policyIds, front) + [last];
      } else {
        assert Kept(policyIds, refs) == Kept(policyIds, front);
      }
    }
  }

  /** The reference at j is the first with its id, and the policy does not use the id. */
  ghost predicate IsFirst(policyIds: set<string>, refs: seq<Reference>, j: nat) {
    j < |refs| && refs[j].id != "" && refs[j].id !in policyIds && forall i :: 0 <= i < j ==> refs[i].id != refs[j].id
  }

  lemma FirstsOfLonger(policyIds: set<string>, front: seq<Reference>, last: Reference, j: nat)
    ensures j < |front| ==> (IsFirst(policyIds, front + [last], j) <==> IsFirst(policyIds, front, j))
    ensures IsFirst(policyIds, front + [last], |front|)
        <==> last.id != "" && last.id !in policyIds && last.id !in Ids(front)
  {
    IdsIff(front, last.id);
    forall i | 0 <= i < |front| ensures (front + [last])[i] == front[i] {}
  }

  lemma {:induction false} KeptFirst(policyIds: set<string>, refs: seq<Reference>, r: Reference) returns (j: nat)
    requires r in Kept(policyIds, refs)
    ensures IsFirst(policyIds, refs, j) && refs[j] == r
  {
    var front, last := refs[..|refs| - 1], refs[|refs| - 1];
    assert refs == front + [last];
    if r in Kept(policyIds, front) {
      j := KeptFirst(policyIds, front, r);
    } else {
      j := |front|;
    }
    FirstsOfLonger(policyIds, front, last, j);
  }

  lemma {:induction false} FirstKept(policyIds: set<string>, refs: seq<Reference>, j: nat)
    requires IsFirst(policyIds, refs, j)
    ensures refs[j] in Kept(policyIds, refs)
  {
    var front, last := refs[..|refs| - 1], refs[|refs| - 1];
    assert refs == front + [last];
    FirstsOfLonger(policyIds, front, last, j);
    if j < |front| {
      FirstKept(policyIds, front, j);
    }
  }

  /** The kept references are exactly the first ones with each id the policy does not use. */
  lemma KeptIsFirstWins(policyIds: set<string>, refs: seq<Reference>, r: Reference)
    ensures r in Kept(policyIds, refs) <==> exists j: nat :: IsFirst(policyIds, refs, j) && refs[j] == r
  {
    if r in Kept(policyIds, refs) {
      var j := KeptFirst(policyIds, refs, r);
    }
    if j: nat :| IsFirst(policyIds, refs, j) && refs[j] == r {
      FirstKept(policyIds, refs, j);
    }
  }

  /** No two kept references share an id. */
  lemma {:induction false} KeptAreDistinct(policyIds: set<string>, refs: seq<Reference>)
    ensures Ids(Kept(policyIds, refs)) <= Ids(refs)
    ensures forall i, j ::
        0 <= i < j < |Kept(policyIds, refs)| ==> Kept(policyIds, refs)[i].id != Kept(policyIds, refs)[j].id
  {
    KeptCoversIds(policyIds, refs);
    if refs != [] {
      var front := refs[..|refs| - 1];
      KeptAreDistinct(policyIds, front);
      forall i | 0 <= i < |Kept(policyIds, front)| ensures Kept(policyIds, front)[i].id in Ids(Kept(policyIds, front)) {
        assert Kept(policyIds, front)[i] in Kept(policyIds, front);
      }
    }
  }

  /** First wins: a longer provider list never changes what an earlier part of it had contributed. */
  lemma {:induction false} EarlierStays(policyIds: set<string>, refs: seq<Reference>, more: seq<Reference>)
    ensures Kept(policyIds, refs) <= Kept(policyIds, refs + more)
    ensures Losing(policyIds, refs) <= Losing(policyIds, refs + more)
  {
    if more == [] {
      assert refs + more == refs;
    } else {
      assert (refs + more)[..|refs + more| - 1] == refs + more[..|more| - 1];
      EarlierStays(policyIds, refs, more[..|more| - 1]);
    }
  }

  /** Among the losing references are exactly those provider references whose non-empty id the policy uses. */
  lemma {:induction false} LosingToPolicy(policyIds: set<string>, refs: seq<Reference>, r: Reference)
    requires r.id != "" && r.id in policyIds
    ensures r in Losing(policyIds, refs) <==> r in refs
  {
    if refs != [] {
      var front, last := refs[..|refs| - 1], refs[|refs| - 1];
      assert refs == front + [last];
      LosingToPolicy(policyIds, front, r);
    }
  }

  lemma {:induction false} NotesIff(note: NoteText, policyIds: set<string>, losing: seq<Reference>, id: string)
    requires forall i, title, wins :: note(i, title, wins) != ""
    ensures Notes(note, policyIds, losing, id) != "" <==> exists r :: r in losing && r.id == id
  {
    if losing != [] {
      var front, last := losing[..|losing| - 1], losing[|losing| - 1];
      assert losing == front + [last];
      NotesIff(note, policyIds, front, id);
      assert last in losing;
      assert last.id == id ==> note(id, last.title, id in policyIds) != "";
    }
  }

  /** The notes of a longer list: those of its later part first; one loser gives one note, to its own id only. */
  lemma {:induction false} NotesReverse(note: NoteText, policyIds: set<string>, losing: seq<Reference>,
                                        more: seq<Reference>, id: string)
    ensures Notes(note, policyIds, losing + more, id)
         == Notes(note, policyIds, more, id) + Notes(note, policyIds, losing, id)
    ensures |losing| == 1 ==>
              Notes(note, policyIds, losing, id)
              == if losing[0].id == id then note(id, losing[0].title, id in policyIds) else ""
  {
    assert |losing| == 1 ==> losing[..0] == [];
    if more == [] {
      assert losing + more == losing;
    } else {
      var n := |more| - 1;
      assert (losing + more)[..|losing + more| - 1] == losing + more[..n];
      NotesReverse(note, policyIds, losing, more[..n], id);
    }
  }

  lemma LosingIdsAppend(policyIds: set<string>, front: seq<Reference>, last: Reference)
    ensures Ids(Losing(policyIds, front + [last]))
         == Ids(Losing(policyIds, front))
            + if last.id != "" && (last.id in policyIds || last.id in Ids(front)) then {last.id} else {}
  {
    var losing, known := Losing(policyIds, front), last.id != "" && (last.id in policyIds || last.id in Ids(front));
    assert (front + [last])[..|front|] == front;
    if known {
      assert Losing(policyIds, front + [last]) == losing + [last];
      IdsAppend(losing, last);
    } else {
      assert Losing(policyIds, front + [last]) == losing + [];
      assert losing + [] == losing;
    }
  }

  lemma TwiceAppend(front: seq<Reference>, last: Reference, id: string)
    ensures OccursTwice(front + [last], id) <==> OccursTwice(front, id) || (last.id == id && id in Ids(front))
  {
    var refs := front + [last];
    IdsIff(front, id);
    forall i | 0 <= i < |front| ensures front[i] == refs[i] {}
    if i, j :| 0 <= i < j < |front| && front[i].id == id && front[j].id == id {
      assert refs[i].id == id && refs[j].id == id;
    }
    if i :| 0 <= i < |front| && front[i].id == id {
      assert refs[i].id == id && refs[|front|] == last;
    }
  }

  /** Among the losing references an id outside the policy's is found exactly if it occurs twice. */
  lemma {:induction false} LosingToEarlier(policyIds: set<string>, refs: seq<Reference>, id: string)
    requires id != "" && id !in policyIds
    ensures id in Ids(Losing(policyIds, refs)) <==> OccursTwice(refs, id)
  {
    if refs != [] {
      var front, last := refs[..|refs| - 1], refs[|refs| - 1];
      assert refs == front + [last];
      LosingToEarlier(policyIds, front, id);
      LosingIdsAppend(policyIds, front, last);
      TwiceAppend(front, last, id);
    }
  }

  ghost predicate OccursTwice(refs: seq<Reference>, id: string) {
    exists i, j :: 0 <= i < j < |refs| && refs[i].id == id && refs[j].id == id
  }

  /**
   * Every kept provider reference comes after the policy's, in order, with its own description at the end; it is
   * changed at all exactly if a later provider reference has its id.
   */
  lemma ProviderSurvives(note: NoteText, policy: seq<Reference>, provider: seq<Reference>, merged: seq<Reference>,
                         k: nat)
    requires Merged(note, policy, Kept(Ids(policy), provider), Losing(Ids(policy), provider), merged)
    requires k < |Kept(Ids(policy), provider)|
    requires forall id, title, wins :: note(id, title, wins) != ""
    ensures var r, entry := Kept(Ids(policy), provider)[k], merged[|policy| + k];
            && |merged| == |policy| + |Kept(Ids(policy), provider)|
            && entry.(description := r.description) == r
            && (exists notes :: entry.description == notes + r.description)
            && (entry != r <==> OccursTwice(provider, r.id))
  {
    var kept, losing := Kept(Ids(policy), provider), Losing(Ids(policy), provider);
    var r, i := kept[k], |policy| + k;
    var notes := Notes(note, Ids(policy), losing, r.id);
    KeptPoints(policy, provider, k);
    assert EntryMerged(note, policy, kept, losing, merged[i], i);
    NotesOfKept(note, policy, provider, k);
    Prefixed(notes, r.description);
  }

  lemma Prefixed(notes: string, description: string)
    ensures notes + description == description <==> notes == ""
  {
    assert |notes + description| == |notes| + |description|;
    assert "" + description == description;
  }

  lemma KeptPoints(policy: seq<Reference>, provider: seq<Reference>, k: nat)
    requires k < |Kept(Ids(policy), provider)|
    ensures var kept := Kept(Ids(policy), provider);
            && kept[k].id != "" && kept[k].id !in Ids(policy) && Points(policy, kept, kept[k].id, |policy| + k)
  {
    var kept := Kept(Ids(policy), provider);
    assert kept[k] in kept;
    KeptCoversIds(Ids(policy), provider);
  }

  lemma NotesOfKept(note: NoteText, policy: seq<Reference>, provider: seq<Reference>, k: nat)
    requires k < |Kept(Ids(policy), provider)|
    requires forall id, title, wins :: note(id, title, wins) != ""
    ensures var id := Kept(Ids(policy), provider)[k].id;
            Notes(note, Ids(policy), Losing(Ids(policy), provider), id) != "" <==> OccursTwice(provider, id)
  {
    var id, losing := Kept(Ids(policy), provider)[k].id, Losing(Ids(policy), provider);
    KeptPoints(policy, provider, k);
    NotesIff(note, Ids(policy), losing, id);
    LosingToEarlier(Ids(policy), provider, id);
    IdsIff(losing, id);
    if i :| 0 <= i < |losing| && losing[i].id == id {
      assert losing[i] in losing;
    }
  }

  /** A provider reference has the non-empty id of policy entry i, and no later policy entry has it. */
  ghost predicate Contested(policy: seq<Reference>, provider: seq<Reference>, i: nat)
    requires i < |policy|
  {
    && policy[i].id != "" && (exists r :: r in provider && r.id == policy[i].id)
    && forall j :: i < j < |policy| ==> policy[j].id != policy[i].id
  }

  /**
   * Every policy reference survives the merge in its place, with its own description at the end; it is changed at all
   * exactly if a provider reference contests its id.
   */
  lemma PolicySurvives(note: NoteText, policy: seq<Reference>, provider: seq<Reference>, merged: seq<Reference>, i: nat)
    requires Merged(note, policy, Kept(Ids(policy), provider), Losing(Ids(policy), provider), merged) && i < |policy|
    requires forall id, title, wins :: note(id, title, wins) != ""
    ensures merged[i].(description := policy[i].description) == policy[i]
    ensures exists notes :: merged[i].description == notes + policy[i].description
    ensures merged[i] != policy[i] <==> Contested(policy, provider, i)
  {
    var policyIds, id := Ids(policy), policy[i].id;
    var losing := Losing(policyIds, provider);
    var notes := Notes(note, policyIds, losing, id);
    assert EntryMerged(note, policy, Kept(policyIds, provider), losing, merged[i], i);
    assert policy[i] in policy;
    assert policy[i].description == "" + policy[i].description;
    NotesIff(note, policyIds, losing, id);
    LosingIds(policyIds, provider);
    forall r: Reference | r.id == id && id != "" ensures r in losing <==> r in provider {
      LosingToPolicy(policyIds, provider, r);
    }
    assert notes != "" ==> |notes + policy[i].description| > |policy[i].description|;
    assert notes == "" ==> notes + policy[i].description == policy[i].description;
  }

  // ---------- The method ----------

  /** Each known id is mapped to the entry it points at. */
  ghost predicate Indexed(policy: seq<Reference>, kept: seq<Reference>, seen: map<string, nat>) {
    && (forall id :: id in seen ==> Points(policy, kept, id, seen[id]))
    && forall i, id :: Points(policy, kept, id, i) ==> id in seen && seen[id] == i
  }

  lemma NotesAppend(note: NoteText, policyIds: set<string>, losing: seq<Reference>, r: Reference, id: string)
    ensures Notes(note, policyIds, losing + [r], id)
         == (if r.id == id then note(id, r.title, id in policyIds) else "") + Notes(note, policyIds, losing, id)
  {
    assert (losing + [r])[..|losing|] == losing;
  }

  lemma PrependTwice(a: string, b: string, c: string)
    ensures a + (b + c) == (a + b) + c
  {
  }

  lemma PrependNothing(a: string)
    ensures "" + a == a
  {
  }

  /** The entry a losing reference points at gets its note; every other entry stays as it is. */
  lemma AnnotatedEntry(note: NoteText, policy: seq<Reference>, kept: seq<Reference>, losing: seq<Reference>,
                       entry: Reference, j: nat, pr: Reference)
    requires j < |policy| + |kept| && EntryMerged(note, policy, kept, losing, entry, j)
    ensures EntryMerged(note, policy, kept, losing + [pr],
                        if Points(policy, kept, pr.id, j)
                        then entry.(description := note(pr.id, pr.title, pr.id in Ids(policy)) + entry.description)
                        else entry, j)
  {
    var base := Base(policy, kept, j);
    var notes := Notes(note, Ids(policy), losing, base.id);
    NotesAppend(note, Ids(policy), losing, pr, base.id);
    PrependTwice(note(pr.id, pr.title, pr.id in Ids(policy)), notes, base.description);
    PrependNothing(notes);
  }

  /** Prepending one note at the indexed entry accounts for one more losing reference. */
  lemma Annotated(note: NoteText, policy: seq<Reference>, kept: seq<Reference>, losing: seq<Reference>,
                  merged: seq<Reference>, seen: map<string, nat>, pr: Reference)
    requires Merged(note, policy, kept, losing, merged) && Indexed(policy, kept, seen) && pr.id in seen
    ensures var i := seen[pr.id];
            && i < |merged| && merged[i].title == Base(policy, kept, i).title
            && Merged(note, policy, kept, losing + [pr],
                      merged[i := merged[i].(description :=
                                             note(pr.id, pr.title, pr.id in Ids(policy)) + merged[i].description)])
  {
    var i := seen[pr.id];
    assert Points(policy, kept, pr.id, i);
    assert EntryMerged(note, policy, kept, losing, merged[i], i);
    var merged' := merged[i :=
                          merged[i].(description :=
                                     note(pr.id, pr.title, pr.id in Ids(policy)) + merged[i].description)];
    forall j | 0 <= j < |merged'| ensures EntryMerged(note, policy, kept, losing + [pr], merged'[j], j) {
      AnnotatedEntry(note, policy, kept, losing, merged[j], j, pr);
      assert Points(policy, kept, pr.id, j) <==> j == i;
    }
  }

  lemma {:induction false} NoNotes(note: NoteText, policyIds: set<string>, losing: seq<Reference>, id: string)
    requires forall r :: r in losing ==> r.id != id
    ensures Notes(note, policyIds, losing, id) == ""
  {
    if losing != [] {
      NoNotes(note, policyIds, losing[..|losing| - 1], id);
    }
  }

  lemma PointsStay(policy: seq<Reference>, kept: seq<Reference>, pr: Reference, id: string, i: nat)
    requires i < |policy| + |kept|
    ensures Points(policy, kept, id, i) <==> Points(policy, kept + [pr], id, i)
  {
  }

  /** A new id: its reference is appended, nothing else moves. */
  lemma Extended(note: NoteText, policy: seq<Reference>, kept: seq<Reference>, losing: seq<Reference>,
                 merged: seq<Reference>, seen: map<string, nat>, pr: Reference)
    requires Merged(note, policy, kept, losing, merged) && Indexed(policy, kept, seen)
    requires pr.id !in seen && pr.id !in Ids(policy) && forall r :: r in losing ==> r.id != pr.id
    ensures Merged(note, policy, kept + [pr], losing, merged + [pr])
    ensures Indexed(policy, kept + [pr], seen[pr.id := |merged|])
  {
    var longer, n := kept + [pr], |merged|;
    forall i | 0 <= i < n ensures EntryMerged(note, policy, longer, losing, merged[i], i) {
      PointsStay(policy, kept, pr, Base(policy, kept, i).id, i);
      assert EntryMerged(note, policy, kept, losing, merged[i], i);
    }
    NoNotes(note, Ids(policy), losing, pr.id);
    assert "" + pr.description == pr.description;
    forall id, i: nat | Points(policy, longer, id, i) ensures id in seen[pr.id := n] && seen[pr.id := n][id] == i {
      if i < n {
        PointsStay(policy, kept, pr, id, i);
      }
    }
    forall id | id in seen ensures Points(policy, longer, id, seen[id]) {
      PointsStay(policy, kept, pr, id, seen[id]);
    }
  }

  /** Later kept references do not touch what was reported. */
  lemma ReportsStay(policy: seq<Reference>, kept: seq<Reference>, losing: seq<Reference>, collisions: seq<Collision>,
                    pr: Reference)
    requires Reported(policy, kept, losing, collisions)
    ensures Reported(policy, kept + [pr], losing, collisions)
  {
    forall k | 0 <= k < |losing| ensures CollisionReported(policy, kept + [pr], losing[k], collisions[k]) {
      assert CollisionReported(policy, kept, losing[k], collisions[k]);
      var i :| Points(policy, kept, losing[k].id, i) && collisions[k].retainedTitle == Base(policy, kept, i).title;
      PointsStay(policy, kept, pr, losing[k].id, i);
    }
  }

  /** Losing references have ids known before them. */
  lemma {:induction false} LosingIds(policyIds: set<string>, refs: seq<Reference>)
    ensures forall r :: r in Losing(policyIds, refs) ==> r.id != "" && (r.id in policyIds || r.id in Ids(refs))
  {
    if refs != [] {
      LosingIds(policyIds, refs[..|refs| - 1]);
      assert refs == refs[..|refs| - 1] + [refs[|refs| - 1]];
      IdsAppend(refs[..|refs| - 1], refs[|refs| - 1]);
    }
  }

  /** The policy references come first; the index keeps the last entry of a repeated id. */
  method AddPolicy(policy: seq<Reference>) returns (result: seq<Reference>, seen: map<string, nat>)
    ensures result == policy && seen.Keys == Ids(policy) && LastIndexed(policy, seen)
  {
    result, seen := [], map[];
    for k := 0 to |policy|
      invariant result == policy[..k] && seen.Keys == Ids(policy[..k]) && LastIndexed(policy[..k], seen)
    {
      assert policy[..k + 1] == policy[..k] + [policy[k]];
      IdsAppend(policy[..k], policy[k]);
      LastIndexedAppend(policy[..k], seen, policy[k]);
      seen := seen[policy[k].id := |result|];
      result := result + [policy[k]];
    }
    assert policy[..|policy|] == policy;
  }

  /** Each id is mapped to its last occurrence. */
  ghost predicate LastIndexed(refs: seq<Reference>, seen: map<string, nat>) {
    && (forall id :: id in seen ==> seen[id] < |refs| && refs[seen[id]].id == id)
    && forall i :: 0 <= i < |refs| ==> refs[i].id in seen && i <= seen[refs[i].id]
  }

  lemma LastIndexedAppend(refs: seq<Reference>, seen: map<string, nat>, r: Reference)
    requires LastIndexed(refs, seen)
    ensures LastIndexed(refs + [r], seen[r.id := |refs|])
  {
  }

  lemma PolicyAlone(note: NoteText, policy: seq<Reference>, seen: map<string, nat>)
    requires LastIndexed(policy, seen) && seen.Keys == Ids(policy)
    ensures Progress(note, policy, [], policy, seen, [], [])
  {
    PolicyIndexed(policy, seen);
    forall i | 0 <= i < |policy| ensures EntryMerged(note, policy, [], [], policy[i], i) {
      PrependNothing(policy[i].description);
    }
  }

  lemma PolicyIndexed(policy: seq<Reference>, seen: map<string, nat>)
    requires LastIndexed(policy, seen)
    ensures Indexed(policy, [], seen)
  {
    forall id | id in seen ensures Points(policy, [], id, seen[id]) {
      forall j | seen[id] < j < |policy| ensures policy[j].id != id {}
    }
    forall id, i: nat | Points(policy, [], id, i) ensures id in seen && seen[id] == i {
      assert policy[i].id == id;
      assert policy[seen[id]].id == id;
    }
  }

  /** Everything the loop over the provider references maintains. */
  ghost predicate Progress(note: NoteText, policy: seq<Reference>, refs: seq<Reference>, result: seq<Reference>,
                           seen: map<string, nat>,
                           collisions: seq<Collision>, discarded: seq<string>) {
    var kept, losing := Kept(Ids(policy), refs), Losing(Ids(policy), refs);
    && Merged(note, policy, kept, losing, result)
    && Indexed(policy, kept, seen)
    && seen.Keys == Ids(policy) + (Ids(refs) - {""})
    && Reported(policy, kept, losing, collisions)
    && discarded == Nameless(refs)
  }

  lemma NamelessStep(note: NoteText, policy: seq<Reference>, refs: seq<Reference>, pr: Reference,
                     result: seq<Reference>, seen: map<string, nat>,
                     collisions: seq<Collision>, discarded: seq<string>)
    requires Progress(note, policy, refs, result, seen, collisions, discarded) && pr.id == ""
    ensures Progress(note, policy, refs + [pr], result, seen, collisions, discarded + [pr.title])
  {
    assert (refs + [pr])[..|refs|] == refs;
    IdsAppend(refs, pr);
    assert Kept(Ids(policy), refs + [pr]) == Kept(Ids(policy), refs)
        && Losing(Ids(policy), refs + [pr]) == Losing(Ids(policy), refs);
  }

  lemma LosingStep(note: NoteText, policy: seq<Reference>, refs: seq<Reference>, pr: Reference,
                   result: seq<Reference>, seen: map<string, nat>,
                   collisions: seq<Collision>, discarded: seq<string>)
    requires Progress(note, policy, refs, result, seen, collisions, discarded) && pr.id != "" && pr.id in seen
    ensures seen[pr.id] < |result|
    ensures var i, policyWins := seen[pr.id], pr.id in Ids(policy);
            Progress(note, policy, refs + [pr],
                     result[i := result[i].(description := note(pr.id, pr.title, policyWins) + result[i].description)],
                     seen, collisions + [Collision(pr.id, result[i].title, pr.title, policyWins)], discarded)
  {
    var kept, losing := Kept(Ids(policy), refs), Losing(Ids(policy), refs);
    assert (refs + [pr])[..|refs|] == refs;
    IdsAppend(refs, pr);
    assert Kept(Ids(policy), refs + [pr]) == kept && Losing(Ids(policy), refs + [pr]) == losing + [pr];
    assert Nameless(refs + [pr]) == Nameless(refs);
    Annotated(note, policy, kept, losing, result, seen, pr);
    assert Points(policy, kept, pr.id, seen[pr.id]);
    assert CollisionReported(policy, kept, pr,
                             Collision(pr.id, result[seen[pr.id]].title, pr.title, pr.id in Ids(policy)));
  }

  lemma KeptStep(note: NoteText, policy: seq<Reference>, refs: seq<Reference>, pr: Reference, result: seq<Reference>,
                 seen: map<string, nat>,
                 collisions: seq<Collision>, discarded: seq<string>)
    requires Progress(note, policy, refs, result, seen, collisions, discarded) && pr.id != "" && pr.id !in seen
    ensures Progress(note, policy, refs + [pr], result + [pr], seen[pr.id := |result|], collisions, discarded)
  {
    var kept, losing := Kept(Ids(policy), refs), Losing(Ids(policy), refs);
    assert (refs + [pr])[..|refs|] == refs;
    IdsAppend(refs, pr);
    assert Kept(Ids(policy), refs + [pr]) == kept + [pr] && Losing(Ids(policy), refs + [pr]) == losing;
    assert Nameless(refs + [pr]) == Nameless(refs);
    LosingIds(Ids(policy), refs);
    Extended(note, policy, kept, losing, result, seen, pr);
    ReportsStay(policy, kept, losing, collisions, pr);
  }

  method MergeMappingReferences(note: NoteText, policy: seq<Reference>, provider: seq<Reference>)
    returns (result: seq<Reference>, collisions: seq<Collision>, discarded: seq<string>)
    ensures Merged(note, policy, Kept(Ids(policy), provider), Losing(Ids(policy), provider), result)
    ensures Reported(policy, Kept(Ids(policy), provider), Losing(Ids(policy), provider), collisions)
    ensures discarded == Nameless(provider)
  {
    var seen: map<string, nat>;
    result, seen := AddPolicy(policy);
    PolicyAlone(note, policy, seen);
    var fromPolicy := seen.Keys;
    collisions, discarded := [], [];
    for k := 0 to |provider|
      invariant Progress(note, policy, provider[..k], result, seen, collisions, discarded)
    {
      var pr := provider[k];
      assert provider[..k + 1] == provider[..k] + [pr];
      if pr.id == "" {
        NamelessStep(note, policy, provider[..k], pr, result, seen, collisions, discarded);
        discarded := discarded + [pr.title];
      } else if pr.id in seen {
        LosingStep(note, policy, provider[..k], pr, result, seen, collisions, discarded);
        var i := seen[pr.id];
        var policyWins := pr.id in fromPolicy;
        collisions := collisions + [Collision(pr.id, result[i].title, pr.title, policyWins)];
        result := result[i := result[i].(description := note(pr.id, pr.title, policyWins) + result[i].description)];
      } else {
        KeptStep(note, policy, provider[..k], pr, result, seen, collisions, discarded);
        seen := seen[pr.id := |result|];
        result := result + [pr];
      }
    }
    assert provider[..|provider|] == provider;
  }
}
