/** The option lists the dashboard derives from the table for the selected
    trial: the trial ids, the trial's behaviour labels, and the subset of
    those labels that name a gait. */
module Gaits {
  import opened Seqs
  import opened Sorting
  import opened Records

  /** The gait names a behaviour label is searched for. */
  const GaitNames: seq<string> := ["Walking", "Trotting", "Pacing", "Galloping"]

  /** `sub` occurs in `s` starting at position `i`. */
  predicate OccursAt(sub: string, s: string, i: int) {
    0 <= i <= |s| - |sub| && s[i..i + |sub|] == sub
  }

  /** `sub in s` on Python strings: `sub` occurs somewhere in `s`. */
  ghost predicate OccursIn(sub: string, s: string) {
    exists i :: OccursAt(sub, s, i)
  }

  /** Substring search, scanning the start positions of `s` from the left. */
  function Contains(s: string, sub: string): (b: bool)
    ensures b <==> OccursIn(sub, s)
  {
    if |sub| > |s| then false
    else if sub <= s then
      assert OccursAt(sub, s, 0);
      true
    else
      OccursInTail(sub, s);
      Contains(s[1..], sub)
  }

  /** When `sub` is not a prefix of `s`, it occurs in `s` just when it occurs
      in `s` without its first character. */
  lemma OccursInTail(sub: string, s: string)
    requires |sub| <= |s| && !(sub <= s)
    ensures OccursIn(sub, s) <==> OccursIn(sub, s[1..])
  {
    if OccursIn(sub, s) {
      var i :| OccursAt(sub, s, i);
      assert s[1..][i - 1..i - 1 + |sub|] == sub;
      assert OccursAt(sub, s[1..], i - 1);
    }
    if OccursIn(sub, s[1..]) {
      var i :| OccursAt(sub, s[1..], i);
      assert s[i + 1..i + 1 + |sub|] == sub;
      assert OccursAt(sub, s, i + 1);
    }
  }

  /** `any(xb in b for xb in names)`. */
  function AnyOccurs(b: string, names: seq<string>): (r: bool)
    ensures r <==> exists g :: g in names && OccursIn(g, b)
  {
    if names == [] then false
    else Contains(b, names[0]) || AnyOccurs(b, names[1..])
  }

  /** A label is a gait label when it contains one of the gait names. */
  function IsGait(b: string): (r: bool)
    ensures r <==> exists g :: g in GaitNames && OccursIn(g, b)
  {
    AnyOccurs(b, GaitNames)
  }

  /** The rows of one trial: `df[df['DogID_TestNum'] == dogID]`. */
  function TrialRows(table: seq<Record>, id: int): (rows: seq<Record>)
    ensures |rows| <= |table|
    ensures forall k :: 0 <= k < |rows| ==> rows[k].trialKey == id
  {
    Filter((rec: Record) => rec.trialKey == id, table)
  }

  /** The `Behavior` column of some rows. */
  function BehaviorColumn(recs: seq<Record>): (labels: seq<string>)
    ensures |labels| == |recs|
    ensures forall k :: 0 <= k < |recs| ==> labels[k] == recs[k].behavior
  {
    seq(|recs|, k requires 0 <= k < |recs| => recs[k].behavior)
  }

  /** `df[df['DogID_TestNum'] == dogID]['Behavior'].unique()`. */
  function TrialBehaviors(table: seq<Record>, id: int): (labels: seq<string>)
    ensures Distinct(labels)
    ensures forall k :: 0 <= k < |labels| ==> labels[k] in BehaviorColumn(TrialRows(table, id))
  {
    Unique(BehaviorColumn(TrialRows(table, id)))
  }

  /** `gait_behaviors`: the trial's distinct labels that contain a gait name. */
  function GaitBehaviors(table: seq<Record>, id: int): (gaits: seq<string>)
    ensures |gaits| <= |TrialBehaviors(table, id)|
    ensures forall k :: 0 <= k < |gaits| ==> IsGait(gaits[k])
  {
    Filter(IsGait, TrialBehaviors(table, id))
  }

  /** The labels offered for plotting: `sorted(... .unique())`. */
  function BehaviorOptions(table: seq<Record>, id: int): (options: seq<string>)
    ensures Sorted(options)
    ensures multiset(options) == multiset(TrialBehaviors(table, id))
  {
    Sort(TrialBehaviors(table, id))
  }

  /** The gaits offered for step counting: `sorted(gait_behaviors)`. */
  function GaitOptions(table: seq<Record>, id: int): (options: seq<string>)
    ensures Sorted(options)
    ensures multiset(options) == multiset(GaitBehaviors(table, id))
  {
    Sort(GaitBehaviors(table, id))
  }

  /** The trial ids offered by the slider: `df['DogID_TestNum'].unique()`. */
  function TrialOptions(table: seq<Record>): (ids: seq<int>)
    ensures Distinct(ids)
    ensures forall id :: id in ids <==> exists i :: 0 <= i < |table| && table[i].trialKey == id
  {
    var keys := seq(|table|, i requires 0 <= i < |table| => table[i].trialKey);
    var ids := Unique(keys);
    forall id | id in ids ensures exists i :: 0 <= i < |table| && table[i].trialKey == id {
      var k :| 0 <= k < |ids| && ids[k] == id;
      assert id in keys;
    }
    forall i | 0 <= i < |table| ensures table[i].trialKey in ids {
      assert keys[i] == table[i].trialKey;
    }
    ids
  }

  /** Some row of trial `id` carries the label `b`. */
  ghost predicate Observed(table: seq<Record>, id: int, b: string) {
    exists i :: 0 <= i < |table| && Matches(table[i], id, b)
  }

  /** The trial's behaviour list holds each label observed in the trial, once,
      and nothing else. */
  lemma TrialBehaviorsExact(table: seq<Record>, id: int, b: string)
    ensures Distinct(TrialBehaviors(table, id))
    ensures b in TrialBehaviors(table, id) <==> Observed(table, id, b)
  {
    UniqueMembership(BehaviorColumn(TrialRows(table, id)), b);
    ObservedInColumn(table, id, b);
  }

  /** The trial's `Behavior` column holds exactly the labels observed in it. */
  lemma ObservedInColumn(table: seq<Record>, id: int, b: string)
    ensures b in BehaviorColumn(TrialRows(table, id)) <==> Observed(table, id, b)
  {
    var p := (rec: Record) => rec.trialKey == id;
    var rows := TrialRows(table, id);
    var col := BehaviorColumn(rows);
    var idx := FilterIndices(p, table);
    if b in col {
      var k :| 0 <= k < |col| && col[k] == b;
      assert table[idx[k]] == rows[k];
    }
    if Observed(table, id, b) {
      var i :| 0 <= i < |table| && Matches(table[i], id, b);
      assert i in idx;
      var k :| 0 <= k < |idx| && idx[k] == i;
      assert col[k] == b;
    }
  }

  /** A label is in `gait_behaviors` exactly when the trial shows it and it
      contains one of the four gait names. */
  lemma GaitBehaviorsMembership(table: seq<Record>, id: int, b: string)
    ensures b in GaitBehaviors(table, id) <==>
      Observed(table, id, b) && exists g :: g in GaitNames && OccursIn(g, b)
  {
    FilterMembership(IsGait, TrialBehaviors(table, id), b);
    TrialBehaviorsExact(table, id, b);
  }

  /** `gait_behaviors` keeps the first-appearance order of the trial's labels
      and has no duplicates. */
  lemma GaitBehaviorsOrdered(table: seq<Record>, id: int)
    ensures IsSubsequence(GaitBehaviors(table, id), TrialBehaviors(table, id))
    ensures Distinct(GaitBehaviors(table, id))
  {
    FilterIsSubsequence(IsGait, TrialBehaviors(table, id));
    FilterDistinct(IsGait, TrialBehaviors(table, id));
  }

  /** Applying the gait filter to `gait_behaviors` changes nothing. */
  lemma GaitFilterIdempotent(table: seq<Record>, id: int)
    ensures Filter(IsGait, GaitBehaviors(table, id)) == GaitBehaviors(table, id)
  {
    FilterIdempotent(IsGait, TrialBehaviors(table, id));
  }

  /** The gait select box lists `gait_behaviors` in ascending order, each
      once, and is the only ascending list with those elements. */
  lemma GaitOptionsSortedPermutation(table: seq<Record>, id: int, other: seq<string>)
    ensures Sorted(GaitOptions(table, id))
    ensures multiset(GaitOptions(table, id)) == multiset(GaitBehaviors(table, id))
    ensures Distinct(GaitOptions(table, id))
    ensures Sorted(other) && multiset(other) == multiset(GaitBehaviors(table, id)) ==>
      other == GaitOptions(table, id)
  {
    GaitBehaviorsOrdered(table, id);
    PermutationDistinct(GaitBehaviors(table, id), GaitOptions(table, id));
    if Sorted(other) && multiset(other) == multiset(GaitBehaviors(table, id)) {
      SortedPermutationUnique(other, GaitOptions(table, id));
    }
  }

  /** The behaviour select box lists exactly the labels observed in the trial,
      in ascending order, each once. */
  lemma BehaviorOptionsExact(table: seq<Record>, id: int, b: string)
    ensures Sorted(BehaviorOptions(table, id)) && Distinct(BehaviorOptions(table, id))
    ensures b in BehaviorOptions(table, id) <==> Observed(table, id, b)
  {
    TrialBehaviorsExact(table, id, b);
    var u := TrialBehaviors(table, id);
    PermutationDistinct(u, BehaviorOptions(table, id));
    assert b in BehaviorOptions(table, id) <==> b in multiset(u);
  }

  /** A string without the first character of `sub` does not contain `sub`. */
  lemma FirstCharAbsent(sub: string, s: string)
    requires |sub| > 0 && sub[0] !in s
    ensures !OccursIn(sub, s)
  {
  }

  /** Three labels: the two containing a gait name are kept and offered in
      ascending order. */
  lemma GaitOptionsExample()
    ensures Sort(Filter(IsGait, ["Walking_Sniffing_X", "Standing_Idle_Y", "Trotting_Z"]))
      == ["Trotting_Z", "Walking_Sniffing_X"]
  {
    var walk, stand, trot := "Walking_Sniffing_X", "Standing_Idle_Y", "Trotting_Z";
    LeadingGaitName("Walking", walk);
    LeadingGaitName("Trotting", trot);
    StandingIsNotGait();
    FilterKeepsOuter(IsGait, walk, stand, trot);
    assert walk[0] == 'W' && trot[0] == 'T';
    SortPair(walk, trot);
  }

  lemma LeadingGaitName(g: string, b: string)
    requires g in GaitNames && g <= b
    ensures IsGait(b)
  {
    assert OccursAt(g, b, 0);
  }

  lemma StandingIsNotGait()
    ensures !IsGait("Standing_Idle_Y")
  {
    var stand := "Standing_Idle_Y";
    FirstCharAbsent("Walking", stand);
    FirstCharAbsent("Trotting", stand);
    FirstCharAbsent("Pacing", stand);
    FirstCharAbsent("Galloping", stand);
  }

  lemma FilterKeepsOuter<T>(p: T -> bool, a: T, b: T, c: T)
    requires p(a) && !p(b) && p(c)
    ensures Filter(p, [a, b, c]) == [a, c]
  {
    assert [a][..0] == [];
    assert Filter(p, [a]) == [a];
    assert [a, b][..1] == [a];
    assert Filter(p, [a, b]) == [a];
    assert [a, b, c][..2] == [a, b];
  }
}
