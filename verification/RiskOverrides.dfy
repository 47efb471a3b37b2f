/** Applying override rules to the behaviours of a report, and the highest remaining risk. */
module RiskOverrides {
  import opened Wrappers
  import opened Ordering

  const RISK_LEVELS: map<int, string> :=
    map[0 := "NONE", 1 := "LOW", 2 := "MEDIUM", 3 := "HIGH", 4 := "CRITICAL"]

  datatype Risk = Risk(score: int, level: string) {
    /** The level is the one that belongs to the score. */
    predicate Consistent() { score in RISK_LEVELS && level == RISK_LEVELS[score] }
  }

  /** One matched rule; `overrides` names the rules whose risk it replaces. */
  class Behavior {
    const ruleName: string
    const overrides: seq<string>
    var riskScore: int
    var riskLevel: string

    constructor (ruleName: string, overrides: seq<string>, riskScore: int, riskLevel: string)
      ensures this.ruleName == ruleName && this.overrides == overrides
      ensures this.riskScore == riskScore && this.riskLevel == riskLevel
    {
      this.ruleName, this.overrides := ruleName, overrides;
      this.riskScore, this.riskLevel := riskScore, riskLevel;
    }

    function Current(): Risk
      reads this
    {
      Risk(riskScore, riskLevel)
    }
  }

  ghost function Risks(s: seq<Behavior>): map<Behavior, Risk>
    reads s
  {
    map b | b in s :: b.Current()
  }

  // ----- which behaviours the dictionary holds -----

  /** The last behaviour with a rule name: the one that a dictionary by name holds. */
  function Holder(original: seq<Behavior>, name: string): (b: Option<Behavior>)
    ensures b.Some? ==> b.value in original && b.value.ruleName == name
    ensures b.None? ==> forall x :: x in original ==> x.ruleName != name
  {
    if original == [] then None
    else
      var n := |original| - 1;
      if original[n].ruleName == name then Some(original[n]) else Holder(original[..n], name)
  }

  /** The rule names in the order in which they first occur: the order of the dictionary's keys. */
  function FirstNames(original: seq<Behavior>): seq<string> {
    if original == [] then []
    else
      var n := |original| - 1;
      var names := FirstNames(original[..n]);
      if original[n].ruleName in names then names else names + [original[n].ruleName]
  }

  predicate IsOverrideRule(overriding: seq<Behavior>, name: string) {
    exists o :: o in overriding && o.ruleName == name
  }

  // ----- the specification -----

  /** The k-th override rule replaces the risk of b: it names the rule that the dictionary still holds b for. */
  predicate Replaced(original: seq<Behavior>, overriding: seq<Behavior>, k: nat, b: Behavior)
    requires k < |overriding|
  {
    && Holder(original, b.ruleName) == Some(b)
    && b.ruleName in overriding[k].overrides
    && !IsOverrideRule(overriding[..k], b.ruleName)
  }

  /** The risk of b after k override rules, from the risks at the beginning. */
  ghost function RiskAfter(original: seq<Behavior>, overriding: seq<Behavior>, k: nat, first: map<Behavior, Risk>,
                           b: Behavior): Risk
    requires k <= |overriding| && b in first && forall o :: o in overriding ==> o in first
  {
    if k == 0 then first[b]
    else RiskAfter(original, overriding, k - 1, first,
                   if Replaced(original, overriding, k - 1, b) then overriding[k - 1] else b)
  }

  /** The behaviours that stay, in the dictionary's order: not override rules, and scored at least `minScore`. */
  ghost function Survivors(original: seq<Behavior>, overriding: seq<Behavior>, minScore: int, names: seq<string>)
    : seq<Behavior>
    reads original
  {
    if names == [] then []
    else
      var n := |names| - 1;
      var kept := Survivors(original, overriding, minScore, names[..n]);
      var b := Holder(original, names[n]);
      if b.Some? && !IsOverrideRule(overriding, names[n]) && b.value.riskScore >= minScore then kept + [b.value]
      else kept
  }

  // ----- the algorithm -----

  lemma HolderStep(original: seq<Behavior>, i: nat, name: string)
    requires i < |original|
    ensures Holder(original[..i + 1], name)
            == if original[i].ruleName == name then Some(original[i]) else Holder(original[..i], name)
    ensures FirstNames(original[..i + 1])
            == if original[i].ruleName in FirstNames(original[..i]) then FirstNames(original[..i])
               else FirstNames(original[..i]) + [original[i].ruleName]
  {
    assert original[..i + 1][..i] == original[..i];
  }

  /** The dictionary of the behaviours by name, and its keys in their order. */
  method ByName(original: seq<Behavior>) returns (behaviors: map<string, Behavior>, names: seq<string>)
    ensures forall name :: (if name in behaviors then Some(behaviors[name]) else None) == Holder(original, name)
    ensures names == FirstNames(original)
  {
    behaviors, names := map[], [];
    for i := 0 to |original|
      invariant forall name ::
                  (if name in behaviors then Some(behaviors[name]) else None) == Holder(original[..i], name)
      invariant names == FirstNames(original[..i])
      invariant forall name :: name in names <==> name in behaviors
    {
      var b := original[i];
      forall name ensures Holder(original[..i + 1], name)
                          == if b.ruleName == name then Some(b) else Holder(original[..i], name) {
        HolderStep(original, i, name);
      }
      HolderStep(original, i, b.ruleName);
      if b.ruleName !in behaviors { names := names + [b.ruleName]; }
      behaviors := behaviors[b.ruleName := b];
    }
    assert original[..|original|] == original;
  }

  /** The dictionary after k override rules: the holders of the names that are no override rule's yet. */
  ghost predicate HoldsAfter(behaviors: map<string, Behavior>, original: seq<Behavior>, overriding: seq<Behavior>,
                             k: nat)
    requires k <= |overriding|
  {
    forall name :: (if name in behaviors then Some(behaviors[name]) else None)
                   == if IsOverrideRule(overriding[..k], name) then None else Holder(original, name)
  }

  lemma IsOverrideRuleStep(overriding: seq<Behavior>, k: nat, name: string)
    requires k < |overriding|
    ensures IsOverrideRule(overriding[..k + 1], name)
            <==> IsOverrideRule(overriding[..k], name) || overriding[k].ruleName == name
  {
    assert overriding[..k + 1] == overriding[..k] + [overriding[k]];
    if IsOverrideRule(overriding[..k], name) {
      var o :| o in overriding[..k] && o.ruleName == name;
      assert o in overriding[..k + 1];
    }
    assert overriding[k] in overriding[..k + 1];
  }

  lemma RemoveRule(behaviors: map<string, Behavior>, original: seq<Behavior>, overriding: seq<Behavior>, k: nat)
    requires k < |overriding| && HoldsAfter(behaviors, original, overriding, k)
    ensures HoldsAfter(behaviors - {overriding[k].ruleName}, original, overriding, k + 1)
  {
    var fewer := behaviors - {overriding[k].ruleName};
    forall name ensures (if name in fewer then Some(fewer[name]) else None)
                        == if IsOverrideRule(overriding[..k + 1], name) then None else Holder(original, name) {
      IsOverrideRuleStep(overriding, k, name);
    }
  }

  method HandleOverrides(original: seq<Behavior>, overriding: seq<Behavior>, minScore: int)
    returns (modified: seq<Behavior>)
    modifies original
    ensures forall b :: b in original + overriding ==>
              b.Current()
              == RiskAfter(original, overriding, |overriding|, old(Risks(original + overriding)), b)
    ensures modified == Survivors(original, overriding, minScore, FirstNames(original))
  {
    ghost var first := Risks(original + overriding);
    var behaviors, names := ByName(original);
    assert overriding[..0] == [];
    for k := 0 to |overriding|
      invariant HoldsAfter(behaviors, original, overriding, k)
      invariant forall b :: b in original + overriding ==> b.Current() == RiskAfter(original, overriding, k, first, b)
    {
      ApplyOverride(original, overriding, k, behaviors);
      RemoveRule(behaviors, original, overriding, k);
      behaviors := behaviors - {overriding[k].ruleName};
    }
    assert overriding[..|overriding|] == overriding;
    modified := [];
    for i := 0 to |names|
      invariant modified == Survivors(original, overriding, minScore, names[..i])
    {
      assert names[..i + 1][..i] == names[..i];
      if names[i] in behaviors && behaviors[names[i]].riskScore >= minScore {
        modified := modified + [behaviors[names[i]]];
      }
    }
    assert names[..|names|] == names;
  }

  /** Gives the k-th override rule's risk to every behaviour it names and the dictionary holds. */
  method ApplyOverride(original: seq<Behavior>, overriding: seq<Behavior>, k: nat, behaviors: map<string, Behavior>)
    requires k < |overriding| && HoldsAfter(behaviors, original, overriding, k)
    modifies original
    ensures forall b :: b in original + overriding ==>
              b.Current() == old(if Replaced(original, overriding, k, b) then overriding[k].Current() else b.Current())
  {
    var o := overriding[k];
    assert o in original + overriding;
    for i := 0 to |o.overrides|
      invariant o.Current() == old(o.Current())
      invariant forall b :: b in original + overriding ==>
                  b.Current() == old(if Named(behaviors, o.overrides[..i], b) then o.Current() else b.Current())
    {
      var name := o.overrides[i];
      assert o.overrides[..i + 1] == o.overrides[..i] + [name];
      assert (if name in behaviors then Some(behaviors[name]) else None)
             == if IsOverrideRule(overriding[..k], name) then None else Holder(original, name);
      if name in behaviors {
        behaviors[name].riskLevel := o.riskLevel;
        behaviors[name].riskScore := o.riskScore;
      }
    }
    assert o.overrides[..|o.overrides|] == o.overrides;
    forall b | b in original + overriding
      ensures Named(behaviors, o.overrides, b) <==> Replaced(original, overriding, k, b)
    {
      var name := b.ruleName;
      assert (if name in behaviors then Some(behaviors[name]) else None)
             == if IsOverrideRule(overriding[..k], name) then None else Holder(original, name);
      NamedByOwnName(behaviors, original, overriding, k, o.overrides, b);
    }
  }

  /** b is what the dictionary holds for one of the names. */
  ghost predicate Named(behaviors: map<string, Behavior>, names: seq<string>, b: Behavior) {
    exists name :: name in names && name in behaviors && behaviors[name] == b
  }

  lemma NamedByOwnName(behaviors: map<string, Behavior>, original: seq<Behavior>, overriding: seq<Behavior>, k: nat,
                       names: seq<string>, b: Behavior)
    requires k <= |overriding| && HoldsAfter(behaviors, original, overriding, k)
    ensures Named(behaviors, names, b) <==>
            b.ruleName in names && b.ruleName in behaviors && behaviors[b.ruleName] == b
  {
    forall name | name in behaviors ensures behaviors[name].ruleName == name {
      assert (if name in behaviors then Some(behaviors[name]) else None)
             == if IsOverrideRule(overriding[..k], name) then None else Holder(original, name);
    }
  }

  // ----- what it comes to -----

  lemma {:induction false} FirstNamesAre(original: seq<Behavior>)
    ensures forall name :: name in FirstNames(original) <==> Holder(original, name).Some?
    ensures forall i, j :: 0 <= i < j < |FirstNames(original)| ==> FirstNames(original)[i] != FirstNames(original)[j]
  {
    if original != [] {
      var n := |original| - 1;
      var names := FirstNames(original[..n]);
      FirstNamesAre(original[..n]);
      assert forall i :: 0 <= i < |names| ==> names[i] in names;
    }
  }

  lemma {:induction false} SurvivorOf(original: seq<Behavior>, overriding: seq<Behavior>, minScore: int,
                                      names: seq<string>, b: Behavior)
    ensures b in Survivors(original, overriding, minScore, names) <==>
            b.ruleName in names && Holder(original, b.ruleName) == Some(b)
            && !IsOverrideRule(overriding, b.ruleName) && b.riskScore >= minScore
  {
    if names != [] {
      var n := |names| - 1;
      SurvivorOf(original, overriding, minScore, names[..n], b);
      assert names == names[..n] + [names[n]];
    }
  }

  /** A behaviour survives exactly if it is the last of its name, no override rule's, and scored high enough. */
  lemma SurvivorsExactly(original: seq<Behavior>, overriding: seq<Behavior>, minScore: int, b: Behavior)
    ensures b in Survivors(original, overriding, minScore, FirstNames(original)) <==>
            Holder(original, b.ruleName) == Some(b) && !IsOverrideRule(overriding, b.ruleName)
            && b.riskScore >= minScore
  {
    FirstNamesAre(original);
    SurvivorOf(original, overriding, minScore, FirstNames(original), b);
  }

  /** Overriding keeps score and level in step. */
  lemma {:induction false} LevelsFollowScores(original: seq<Behavior>, overriding: seq<Behavior>, k: nat,
                                              first: map<Behavior, Risk>, b: Behavior)
    requires k <= |overriding| && b in first && forall o :: o in overriding ==> o in first
    requires forall x :: x in first ==> first[x].Consistent()
    ensures RiskAfter(original, overriding, k, first, b).Consistent()
  {
    if k > 0 {
      LevelsFollowScores(original, overriding, k - 1, first,
                         if Replaced(original, overriding, k - 1, b) then overriding[k - 1] else b);
    }
  }

  // ----- the parts of the specification, told by places in the lists -----

  /** The name is held by the last behaviour that has it. */
  lemma {:induction false} HolderIsLast(original: seq<Behavior>, i: nat)
    requires i < |original| && forall j :: i < j < |original| ==> original[j].ruleName != original[i].ruleName
    ensures Holder(original, original[i].ruleName) == Some(original[i])
  {
    if i < |original| - 1 { HolderIsLast(original[..|original| - 1], i); }
  }

  function NamesOf(s: seq<Behavior>): seq<string> { seq(|s|, i requires 0 <= i < |s| => s[i].ruleName) }

  lemma NamesOfPrefix(s: seq<Behavior>)
    requires s != []
    ensures NamesOf(s)[..|s| - 1] == NamesOf(s[..|s| - 1])
  {
  }

  lemma {:induction false} NamesAre(original: seq<Behavior>)
    ensures forall name :: name in FirstNames(original) <==> name in NamesOf(original)
  {
    if original != [] {
      var n := |original| - 1;
      NamesAre(original[..n]);
      NamesOfPrefix(original);
      assert NamesOf(original) == NamesOf(original[..n]) + [original[n].ruleName];
    }
  }

  lemma {:induction false} FirstNamesInOrder(original: seq<Behavior>)
    ensures InFirstOrder(NamesOf(original), FirstNames(original))
  {
    if original != [] {
      var n := |original| - 1;
      var all, before, names := NamesOf(original), FirstNames(original[..n]), FirstNames(original);
      FirstNamesInOrder(original[..n]);
      NamesAre(original[..n]);
      NamesOfPrefix(original);
      forall i, j | 0 <= i < j < |names| ensures FirstIndex(all, names[i]) < FirstIndex(all, names[j]) {
        assert names[i] == before[i] && before[i] in before;
        FirstIndexPrefix(all, names[i]);
        if j < |before| {
          assert names[j] == before[j] && before[j] in before;
          FirstIndexPrefix(all, names[j]);
        } else {
          assert names[j] == all[n] && names[j] !in before;
        }
      }
    }
  }

  lemma {:induction false} SurvivorsFollowNames(original: seq<Behavior>, overriding: seq<Behavior>, minScore: int,
                                                names: seq<string>)
    requires InFirstOrder(NamesOf(original), names)
    ensures InFirstOrder(NamesOf(original), NamesOf(Survivors(original, overriding, minScore, names)))
  {
    if names != [] {
      var n := |names| - 1;
      var before, after := Survivors(original, overriding, minScore, names[..n]),
                           Survivors(original, overriding, minScore, names);
      SurvivorsFollowNames(original, overriding, minScore, names[..n]);
      forall i, j | 0 <= i < j < |after|
        ensures FirstIndex(NamesOf(original), after[i].ruleName) < FirstIndex(NamesOf(original), after[j].ruleName)
      {
        assert after[i] == before[i] && before[i] in before;
        SurvivorOf(original, overriding, minScore, names[..n], before[i]);
        var k :| 0 <= k < n && names[..n][k] == after[i].ruleName;
        if j < |before| {
          assert NamesOf(before)[i] == after[i].ruleName && NamesOf(before)[j] == after[j].ruleName;
        }
      }
    }
  }

  /** The behaviours that stay are in the order in which their names first occur. */
  lemma SurvivorsInOrder(original: seq<Behavior>, overriding: seq<Behavior>, minScore: int)
    ensures InFirstOrder(NamesOf(original), NamesOf(Survivors(original, overriding, minScore, FirstNames(original))))
  {
    FirstNamesInOrder(original);
    SurvivorsFollowNames(original, overriding, minScore, FirstNames(original));
  }

  /**
   An override rule gives the risk it has by then to the behaviours that the dictionary holds under the
   names it overrides, unless an earlier override rule has such a name; no other risk changes.
   */
  lemma RiskStep(original: seq<Behavior>, overriding: seq<Behavior>, k: nat, first: map<Behavior, Risk>, b: Behavior)
    requires k < |overriding| && b in first && forall o :: o in overriding ==> o in first
    ensures RiskAfter(original, overriding, 0, first, b) == first[b]
    ensures Holder(original, b.ruleName) == Some(b) && b.ruleName in overriding[k].overrides
            && (forall j :: 0 <= j < k ==> overriding[j].ruleName != b.ruleName) ==>
              RiskAfter(original, overriding, k + 1, first, b)
              == RiskAfter(original, overriding, k, first, overriding[k])
    ensures Holder(original, b.ruleName) != Some(b) || b.ruleName !in overriding[k].overrides
            || (exists j :: 0 <= j < k && overriding[j].ruleName == b.ruleName) ==>
              RiskAfter(original, overriding, k + 1, first, b) == RiskAfter(original, overriding, k, first, b)
  {
    if j :| 0 <= j < k && overriding[j].ruleName == b.ruleName {
      assert overriding[..k][j] in overriding[..k];
    } else {
      forall o | o in overriding[..k] ensures o.ruleName != b.ruleName {
        var j :| 0 <= j < k && overriding[..k][j] == o;
      }
    }
  }

  lemma LevelsExactly(r: Risk)
    ensures r.Consistent() <==>
            r in {Risk(0, "NONE"), Risk(1, "LOW"), Risk(2, "MEDIUM"), Risk(3, "HIGH"), Risk(4, "CRITICAL")}
  {
  }

  // ----- distinct names, and overrides of ordinary rules only -----

  ghost predicate DistinctNames(s: seq<Behavior>) {
    forall i, j :: 0 <= i < j < |s| ==> s[i].ruleName != s[j].ruleName
  }

  /** Override rules name only rules that are not override rules themselves. */
  ghost predicate NamesOrdinaryRules(overriding: seq<Behavior>) {
    forall o, name :: o in overriding && name in o.overrides ==> !IsOverrideRule(overriding, name)
  }

  /** The last of the override rules that names `name`, if any. */
  function LastNaming(overriding: seq<Behavior>, name: string): (o: Option<Behavior>)
    ensures o.Some? ==> o.value in overriding && name in o.value.overrides
    ensures o.None? ==> forall x :: x in overriding ==> name !in x.overrides
  {
    if overriding == [] then None
    else
      var n := |overriding| - 1;
      if name in overriding[n].overrides then Some(overriding[n]) else LastNaming(overriding[..n], name)
  }

  lemma {:induction false} HeldOnce(original: seq<Behavior>, b: Behavior)
    requires DistinctNames(original)
    ensures Holder(original, b.ruleName) == Some(b) <==> b in original
  {
    if original != [] {
      var n := |original| - 1;
      HeldOnce(original[..n], b);
      assert original == original[..n] + [original[n]];
    }
  }

  lemma {:induction false} NeverReplaced(original: seq<Behavior>, overriding: seq<Behavior>, k: nat,
                                         first: map<Behavior, Risk>, o: Behavior)
    requires k <= |overriding| && o in first && forall x :: x in overriding ==> x in first
    requires NamesOrdinaryRules(overriding) && o in overriding
    ensures RiskAfter(original, overriding, k, first, o) == first[o]
  {
    if k > 0 {
      assert IsOverrideRule(overriding, o.ruleName);
      NeverReplaced(original, overriding, k - 1, first, o);
    }
  }

  lemma NamedAreOrdinary(overriding: seq<Behavior>, k: nat, o: Behavior, name: string)
    requires NamesOrdinaryRules(overriding) && k <= |overriding| && o in overriding && name in o.overrides
    ensures !IsOverrideRule(overriding[..k], name)
  {
    assert !IsOverrideRule(overriding, name);
    forall x | x in overriding[..k] ensures x.ruleName != name { assert x in overriding; }
  }

  /**
   With distinct rule names and overrides of ordinary rules only, a behaviour ends with the risk of the
   last override rule that names it, or else its own.
   */
  lemma {:induction false} LastOverrideCounts(original: seq<Behavior>, overriding: seq<Behavior>, k: nat,
                                              first: map<Behavior, Risk>, b: Behavior)
    requires k <= |overriding| && b in first && forall x :: x in overriding ==> x in first
    requires DistinctNames(original) && NamesOrdinaryRules(overriding) && b in original
    ensures RiskAfter(original, overriding, k, first, b)
            == match LastNaming(overriding[..k], b.ruleName) case Some(o) => first[o] case None => first[b]
  {
    if k > 0 {
      var o := overriding[k - 1];
      assert overriding[..k][..k - 1] == overriding[..k - 1];
      HeldOnce(original, b);
      if b.ruleName in o.overrides {
        NamedAreOrdinary(overriding, k - 1, o, b.ruleName);
        NeverReplaced(original, overriding, k - 1, first, o);
      } else {
        LastOverrideCounts(original, overriding, k - 1, first, b);
      }
    }
  }

  // ----- the highest remaining risk -----

  method HighestBehaviorRisk(behaviors: seq<Behavior>) returns (highest: int)
    ensures highest >= 0 && forall b :: b in behaviors ==> b.riskScore <= highest
    ensures highest == 0 || exists b :: b in behaviors && b.riskScore == highest
  {
    highest := 0;
    for i := 0 to |behaviors|
      invariant highest >= 0 && forall j :: 0 <= j < i ==> behaviors[j].riskScore <= highest
      invariant highest == 0 || exists b :: b in behaviors && b.riskScore == highest
    {
      if behaviors[i].riskScore > highest {
        highest := behaviors[i].riskScore;
      }
    }
  }
}
