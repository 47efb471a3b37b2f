/**
 Best-effort execution of a module: its functions are called, its classes
 instantiated, and the methods of every module type met as a return value are
 explored depth first, sharing one set of seen types.
 */
module TypeExplorer {
  import opened Wrappers

  /** A module member; a class carries the class of the instance it gave, if instantiation succeeded. */
  datatype Member<T> = Function(returned: T) | Class(cls: T, instance: Option<T>) | Skipped

  /** The types of a module, and for each type what its methods return, in member order. */
  datatype Module<!T> = Module(types: set<T>, methodReturns: T -> seq<T>)

  // ----- reachability -----

  ghost predicate Returns<T>(m: Module<T>, a: T, b: T) { b in m.methodReturns(a) && b in m.types }

  ghost predicate IsPath<T(!new)>(m: Module<T>, p: seq<T>) {
    p != [] && forall i :: 0 <= i < |p| - 1 ==> Returns(m, p[i], p[i + 1])
  }

  ghost predicate PathBetween<T(!new)>(m: Module<T>, roots: set<T>, p: seq<T>, x: T) {
    IsPath(m, p) && p[0] in roots && p[|p| - 1] == x
  }

  /** x is a root, or is returned by a method of a type that is reachable. */
  ghost predicate Reachable<T(!new)>(m: Module<T>, roots: set<T>, x: T) {
    exists p :: PathBetween(m, roots, p, x)
  }

  ghost predicate Closed<T(!new)>(m: Module<T>, S: set<T>) {
    forall a, b :: a in S && Returns(m, a, b) ==> b in S
  }

  lemma {:induction false} ClosedHoldsPath<T(!new)>(m: Module<T>, roots: set<T>, S: set<T>, p: seq<T>, x: T)
    requires Closed(m, S) && roots <= S && PathBetween(m, roots, p, x)
    ensures x in S
    decreases |p|
  {
    var n := |p| - 1;
    if n > 0 {
      assert PathBetween(m, roots, p[..n], p[n - 1]);
      ClosedHoldsPath(m, roots, S, p[..n], p[n - 1]);
      assert Returns(m, p[n - 1], p[n]);
    }
  }

  lemma RootReachable<T(!new)>(m: Module<T>, roots: set<T>, x: T)
    requires x in roots
    ensures Reachable(m, roots, x)
  {
    assert PathBetween(m, roots, [x], x);
  }

  lemma MoreRoots<T(!new)>(m: Module<T>, roots: set<T>, more: set<T>, x: T)
    requires Reachable(m, roots, x) && roots <= more
    ensures Reachable(m, more, x)
  {
    var p :| PathBetween(m, roots, p, x);
    assert PathBetween(m, more, p, x);
  }

  // ----- exploration -----

  /** What has been seen since `before` leads only to what has been seen. */
  ghost predicate ClosedBeyond<T(!new)>(m: Module<T>, before: set<T>, seen: set<T>) {
    forall a, b :: a in seen && a !in before && Returns(m, a, b) ==> b in seen
  }

  /** What has been seen since `before` is reachable from the roots. */
  ghost predicate AllReach<T(!new)>(m: Module<T>, roots: set<T>, before: set<T>, seen: set<T>) {
    forall x :: x in seen && x !in before ==> Reachable(m, roots, x)
  }

  ghost function Elements<T>(s: seq<T>): set<T> { set x | x in s }

  ghost predicate Distinct<T(!new)>(s: seq<T>) { forall i, j :: 0 <= i < j < |s| ==> s[i] != s[j] }

  /** The module types that methods of t return. */
  ghost function DirectReturns<T(!new)>(m: Module<T>, t: T): set<T> { set b | b in m.types && Returns(m, t, b) }

  lemma ReachFrom<T(!new)>(m: Module<T>, t: T, x: T)
    requires Reachable(m, DirectReturns(m, t), x)
    ensures Reachable(m, {t}, x)
  {
    var p :| PathBetween(m, DirectReturns(m, t), p, x);
    assert PathBetween(m, {t}, [t] + p, x);
  }

  /** The roots of the exploration: module types returned by functions, or by methods of the classes. */
  ghost function Roots<T(!new)>(m: Module<T>, members: seq<Member<T>>): set<T> {
    if members == [] then {}
    else
      var n := |members| - 1;
      Roots(m, members[..n]) + MemberRoots(m, members[n])
  }

  ghost function MemberRoots<T(!new)>(m: Module<T>, member: Member<T>): set<T> {
    match member
    case Function(returned) => if returned in m.types then {returned} else {}
    case Class(cls, _) => DirectReturns(m, cls)
    case Skipped => {}
  }

  lemma RootsAppend<T(!new)>(m: Module<T>, done: seq<Member<T>>, member: Member<T>)
    ensures Roots(m, done + [member]) == Roots(m, done) + MemberRoots(m, member)
  {
    assert (done + [member])[..|done|] == done;
  }

  /** A call made for the member returns an instance of x. */
  predicate Gives<T(==)>(m: Module<T>, member: Member<T>, x: T) {
    || (member.Function? && member.returned == x)
    || (member.Class? && x in m.methodReturns(member.cls))
  }

  /** x is a type of the module and a call made for one of the members returns an instance of it. */
  ghost predicate GivenBy<T(!new)>(m: Module<T>, members: seq<Member<T>>, x: T) {
    x in m.types && exists i :: 0 <= i < |members| && Gives(m, members[i], x)
  }

  lemma {:induction false} RootsExactly<T(!new)>(m: Module<T>, members: seq<Member<T>>, x: T)
    ensures x in Roots(m, members) <==> GivenBy(m, members, x)
  {
    if members != [] {
      var n := |members| - 1;
      RootsExactly(m, members[..n], x);
      assert x in MemberRoots(m, members[n]) <==> x in m.types && Gives(m, members[n], x);
      assert forall i :: 0 <= i < n ==> members[..n][i] == members[i];
    }
  }

  /** p leads from a type given by the members to x, each type returned by a method of the one before. */
  ghost predicate LeadsTo<T(!new)>(m: Module<T>, members: seq<Member<T>>, p: seq<T>, x: T) {
    IsPath(m, p) && GivenBy(m, members, p[0]) && p[|p| - 1] == x
  }

  /** The seen types are those given by the members and what these lead to. */
  ghost predicate SeenFrom<T(!new)>(m: Module<T>, members: seq<Member<T>>, seen: set<T>) {
    && (forall x :: GivenBy(m, members, x) ==> x in seen)
    && (forall x, y :: x in seen && y in m.types && y in m.methodReturns(x) ==> y in seen)
    && (forall x :: x in seen ==> exists p :: LeadsTo(m, members, p, x))
  }

  ghost predicate ReachedFrom<T(!new)>(m: Module<T>, members: seq<Member<T>>, seen: set<T>) {
    forall x :: x in seen <==> Reachable(m, Roots(m, members), x)
  }

  lemma SeenMeans<T(!new)>(m: Module<T>, members: seq<Member<T>>, seen: set<T>)
    requires Closed(m, seen) && ReachedFrom(m, members, seen)
    ensures SeenFrom(m, members, seen)
  {
    forall x | GivenBy(m, members, x) ensures x in seen {
      RootsExactly(m, members, x);
      RootReachable(m, Roots(m, members), x);
    }
    forall x, y | x in seen && y in m.types && y in m.methodReturns(x) ensures y in seen {
      assert Returns(m, x, y);
    }
    forall x | x in seen ensures exists p :: LeadsTo(m, members, p, x) {
      var p :| PathBetween(m, Roots(m, members), p, x);
      RootsExactly(m, members, p[0]);
      assert LeadsTo(m, members, p, x);
    }
  }

  /** The class of the instance is the member itself; functions and other members stop nothing. */
  predicate InstanceFits<T(==)>(member: Member<T>) {
    match member
    case Class(cls, Some(got)) => got == cls
    case Class(_, None) => false
    case _ => true
  }

  ghost predicate AllFit<T>(members: seq<Member<T>>) { forall i :: 0 <= i < |members| ==> InstanceFits(members[i]) }

  /** The first n members are those before the first class without an instance of exactly itself. */
  ghost predicate StopsAt<T>(members: seq<Member<T>>, n: nat) {
    && n <= |members| && (forall i :: 0 <= i < n ==> InstanceFits(members[i]))
    && (n < |members| ==> !InstanceFits(members[n]))
  }

  /** A member that lets the execution go on; a class must give an instance of exactly itself. */
  predicate GoesOn<T(==)>(member: Member<T>) {
    member.Class? ==> member.instance == Some(member.cls)
  }

  ghost predicate GoUpTo<T>(members: seq<Member<T>>, n: nat)
    requires n <= |members|
  {
    forall i :: 0 <= i < n ==> GoesOn(members[i])
  }

  /** The members up to the first one that stops the execution. */
  function Executed<T(==)>(members: seq<Member<T>>): (done: seq<Member<T>>)
    ensures done <= members
    ensures forall i :: 0 <= i < |done| ==> GoesOn(done[i])
    ensures |done| < |members| ==> !GoesOn(members[|done|])
  {
    if members == [] || !GoesOn(members[0]) then [] else [members[0]] + Executed(members[1..])
  }

  lemma ExecutedIs<T>(members: seq<Member<T>>, n: nat)
    requires n <= |members| && GoUpTo(members, n)
    requires n < |members| ==> !GoesOn(members[n])
    ensures Executed(members) == members[..n]
  {
    var done := Executed(members);
    assert forall i :: 0 <= i < |done| ==> done[i] == members[i];
    assert |done| == n;
  }

  class Explorer<T(==, !new)> {
    const m: Module<T>
    var seen: set<T>
    var instantiated: set<T>

    /** The returned types whose methods have been called, in order. */
    ghost var explored: seq<T>

    ghost predicate Valid()
      reads this
    {
      seen <= m.types && Distinct(explored) && Elements(explored) == seen
    }

    constructor (m: Module<T>)
      ensures this.m == m && Valid() && seen == {} && instantiated == {}
    {
      this.m := m;
      seen, instantiated, explored := {}, {}, [];
    }

    predicate ShouldInvestigate(t: T)
      reads this
    {
      t in m.types && t !in seen
    }

    /** Marks a returned type as seen, then explores its methods. */
    method Investigate(t: T)
      requires Valid() && ShouldInvestigate(t)
      modifies this`seen, this`explored
      ensures Valid() && old(seen) + {t} <= seen && old(explored) <= explored
      ensures ClosedBeyond(m, old(seen), seen) && AllReach(m, {t}, old(seen), seen)
      decreases m.types - seen, 0
    {
      seen := seen + {t};
      explored := explored + [t];
      assert Elements(explored) == seen by {
        assert forall x :: x in explored <==> x in old(explored) || x == t;
        assert forall x :: x in old(explored) <==> x in Elements(old(explored));
      }
      assert forall i :: 0 <= i < |old(explored)| ==> old(explored)[i] in Elements(old(explored));
      RootReachable(m, {t}, t);
      ghost var before := seen;
      TryCallMethods(t);
      forall x | x in seen && x !in before ensures Reachable(m, {t}, x) {
        ReachFrom(m, t, x);
      }
    }

    /** Calls every method of an instance of t. */
    method TryCallMethods(t: T)
      requires Valid()
      modifies this`seen, this`explored
      ensures Valid() && old(seen) <= seen && old(explored) <= explored
      ensures DirectReturns(m, t) <= seen
      ensures ClosedBeyond(m, old(seen), seen) && AllReach(m, DirectReturns(m, t), old(seen), seen)
      decreases m.types - seen, 1
    {
      var methods := m.methodReturns(t);
      for i := 0 to |methods|
        invariant Valid() && old(seen) <= seen && old(explored) <= explored
        invariant forall j :: 0 <= j < i && methods[j] in m.types ==> methods[j] in seen
        invariant ClosedBeyond(m, old(seen), seen) && AllReach(m, DirectReturns(m, t), old(seen), seen)
      {
        var returned := methods[i];
        if ShouldInvestigate(returned) {
          assert Returns(m, t, returned);
          ghost var before := seen;
          Investigate(returned);
          GrowReach(m, {returned}, DirectReturns(m, t), before, seen);
        }
      }
    }

    /** Executes the members of the module; `normal` says that no class stopped it. */
    method DoExecute(members: seq<Member<T>>) returns (normal: bool)
      requires Valid() && seen == {} && instantiated == {}
      modifies this
      ensures Valid()
      ensures normal <==> AllFit(members)
      ensures Closed(m, seen) && ReachedFrom(m, Executed(members), seen)
      ensures SeenUpToStop(m, members, seen)
    {
      normal := true;
      assert members[..0] == [];
      for i := 0 to |members|
        invariant GoUpTo(members, i)
        invariant Valid() && Explored(m, members[..i], seen, instantiated)
      {
        assert members[..i + 1] == members[..i] + [members[i]];
        if !GoesOn(members[i]) {
          normal := false;
          ExplorationEnds(m, members, i, seen, instantiated);
          return;
        }
        Execute(members[..i], members[i]);
      }
      ExplorationEnds(m, members, |members|, seen, instantiated);
    }

    /** Executes one member that does not stop the execution. */
    method Execute(ghost done: seq<Member<T>>, member: Member<T>)
      requires Valid() && Explored(m, done, seen, instantiated) && GoesOn(member)
      modifies this
      ensures Valid() && Explored(m, done + [member], seen, instantiated)
    {
      ghost var before, instances := seen, instantiated;
      match member {
        case Function(returned) =>
          if ShouldInvestigate(returned) {
            Investigate(returned);
          }
        case Class(cls, _) =>
          if cls !in instantiated {
            instantiated := instantiated + {cls};
            TryCallMethods(cls);
          }
        case Skipped =>
      }
      ExploredOneMore(m, done, member, before, instances, seen, instantiated);
    }
  }

  lemma FitsExactly<T>(member: Member<T>)
    ensures GoesOn(member) <==> InstanceFits(member)
  {
  }

  lemma StopsOnlyAt<T>(members: seq<Member<T>>, n: nat)
    requires n <= |members| && GoUpTo(members, n)
    requires n < |members| ==> !GoesOn(members[n])
    ensures AllFit(members) <==> n == |members|
    ensures forall k: nat :: StopsAt(members, k) ==> k == n
  {
    forall i | 0 <= i < |members| ensures GoesOn(members[i]) <==> InstanceFits(members[i]) { FitsExactly(members[i]); }
  }

  lemma ExploredMeans<T(!new)>(m: Module<T>, done: seq<Member<T>>, seen: set<T>, instantiated: set<T>)
    requires Explored(m, done, seen, instantiated)
    ensures Closed(m, seen) && ReachedFrom(m, done, seen) && SeenFrom(m, done, seen)
  {
    SeenIsReachable(m, Roots(m, done), seen);
    SeenMeans(m, done, seen);
  }

  /** What is seen is what the members before the first that stops the execution lead to. */
  ghost predicate SeenUpToStop<T(!new)>(m: Module<T>, members: seq<Member<T>>, seen: set<T>) {
    forall n: nat :: StopsAt(members, n) ==> SeenFrom(m, members[..n], seen)
  }

  lemma SeenUpTo<T(!new)>(m: Module<T>, members: seq<Member<T>>, n: nat, seen: set<T>)
    requires n <= |members| && GoUpTo(members, n)
    requires n < |members| ==> !GoesOn(members[n])
    requires SeenFrom(m, members[..n], seen)
    ensures AllFit(members) <==> n == |members|
    ensures SeenUpToStop(m, members, seen)
  {
    StopsOnlyAt(members, n);
  }

  /** Where the loop over the members leaves off. */
  lemma ExplorationEnds<T(!new)>(m: Module<T>, members: seq<Member<T>>, n: nat, seen: set<T>, instantiated: set<T>)
    requires n <= |members| && GoUpTo(members, n)
    requires n < |members| ==> !GoesOn(members[n])
    requires Explored(m, members[..n], seen, instantiated)
    ensures AllFit(members) <==> n == |members|
    ensures Closed(m, seen) && ReachedFrom(m, Executed(members), seen)
    ensures SeenUpToStop(m, members, seen)
  {
    ExploredMeans(m, members[..n], seen, instantiated);
    ExecutedIs(members, n);
    SeenUpTo(m, members, n, seen);
  }

  /** If no class stops the execution, all members count. */
  lemma SeenByAll<T(!new)>(m: Module<T>, members: seq<Member<T>>, seen: set<T>)
    requires AllFit(members) && SeenUpToStop(m, members, seen)
    ensures SeenFrom(m, members, seen)
  {
    assert StopsAt(members, |members|);
    assert members[..|members|] == members;
  }

  /** What has been seen after executing some members: closed, and just what they lead to. */
  ghost predicate Explored<T(!new)>(m: Module<T>, done: seq<Member<T>>, seen: set<T>, instantiated: set<T>) {
    && Closed(m, seen)
    && Roots(m, done) <= seen
    && AllReach(m, Roots(m, done), {}, seen)
    && (forall c :: c in instantiated ==> DirectReturns(m, c) <= seen)
  }

  lemma ExploredOneMore<T(!new)>(m: Module<T>, done: seq<Member<T>>, member: Member<T>,
                                 before: set<T>, instances: set<T>, seen: set<T>, instantiated: set<T>)
    requires Explored(m, done, before, instances)
    requires before <= seen && MemberRoots(m, member) <= seen
    requires ClosedBeyond(m, before, seen) && AllReach(m, MemberRoots(m, member), before, seen)
    requires forall c :: c in instantiated && c !in instances ==> DirectReturns(m, c) <= seen
    ensures Explored(m, done + [member], seen, instantiated)
  {
    RootsAppend(m, done, member);
    GrowRoots(m, Roots(m, done), MemberRoots(m, member), before, seen);
  }

  lemma GrowReach<T(!new)>(m: Module<T>, roots: set<T>, more: set<T>, before: set<T>, seen: set<T>)
    requires AllReach(m, roots, before, seen) && roots <= more
    ensures AllReach(m, more, before, seen)
  {
    forall x | x in seen && x !in before ensures Reachable(m, more, x) { MoreRoots(m, roots, more, x); }
  }

  lemma GrowRoots<T(!new)>(m: Module<T>, roots: set<T>, added: set<T>, before: set<T>, seen: set<T>)
    requires AllReach(m, roots, {}, before) && AllReach(m, added, before, seen)
    ensures AllReach(m, roots + added, {}, seen)
  {
    forall x | x in seen ensures Reachable(m, roots + added, x) {
      MoreRoots(m, if x in before then roots else added, roots + added, x);
    }
  }

  lemma SeenIsReachable<T(!new)>(m: Module<T>, roots: set<T>, seen: set<T>)
    requires Closed(m, seen) && roots <= seen && forall x :: x in seen ==> Reachable(m, roots, x)
    ensures forall x :: x in seen <==> Reachable(m, roots, x)
  {
    forall x | Reachable(m, roots, x) ensures x in seen {
      var p :| PathBetween(m, roots, p, x);
      ClosedHoldsPath(m, roots, seen, p, x);
    }
  }
}
