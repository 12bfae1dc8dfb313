/** Filtering of the child's environment by name patterns. */
module EnvPolicy {
  import opened Sequences
  import opened Glob
  import opened Order

  datatype Default = Pass | Clear
  datatype Variable = Variable(name: string, value: string)

  datatype Policy = Policy(default: Default, allow: seq<string>, deny: seq<string>) {
    predicate IsActive() {
      default != Pass || allow != [] || deny != []
    }
  }

  ghost predicate Listed(patterns: seq<string>, name: string) {
    exists p | p in patterns :: Matches(p, name)
  }

  /** `deny` wins over `allow`, which wins over the default. */
  ghost predicate Keeps(policy: Policy, name: string) {
    !Listed(policy.deny, name) && (Listed(policy.allow, name) || policy.default == Pass)
  }

  ghost function KeepTest(policy: Policy): Variable -> bool {
    (v: Variable) => Keeps(policy, v.name)
  }

  ghost function DropTest(policy: Policy): Variable -> bool {
    (v: Variable) => !Keeps(policy, v.name)
  }

  function Names(vars: seq<Variable>): seq<string> {
    Map(vars, (v: Variable) => v.name)
  }

  ghost function Kept(policy: Policy, parent: seq<Variable>): seq<Variable> {
    Filter(parent, KeepTest(policy))
  }

  ghost function Dropped(policy: Policy, parent: seq<Variable>): seq<Variable> {
    Filter(parent, DropTest(policy))
  }

  method AnyMatches(patterns: seq<string>, name: string) returns (found: bool)
    ensures found <==> Listed(patterns, name)
  {
    for i := 0 to |patterns|
      invariant forall j | 0 <= j < i :: !Matches(patterns[j], name)
    {
      var ok := GlobMatch(patterns[i], name);
      if ok {
        return true;
      }
    }
    return false;
  }

  method Resolve(policy: Policy, parent: seq<Variable>) returns (kept: seq<Variable>, removed: seq<string>)
    ensures kept == Kept(policy, parent)
    ensures Sorted(removed) && multiset(removed) == multiset(Names(Dropped(policy, parent)))
  {
    kept, removed := [], [];
    for i := 0 to |parent|
      invariant kept == Kept(policy, parent[..i])
      invariant removed == Names(Dropped(policy, parent[..i]))
    {
      var v := parent[i];
      assert parent[..i + 1][..i] == parent[..i];
      var denied := AnyMatches(policy.deny, v.name);
      var allowed := AnyMatches(policy.allow, v.name);
      var keep := if denied then false else if allowed then true else policy.default == Pass;
      if keep {
        kept := kept + [v];
      } else {
        removed := removed + [v.name];
      }
    }
    assert parent[..|parent|] == parent;
    removed := Sort(removed);
  }

  /** An inactive policy leaves the environment untouched, so skipping it is safe. */
  lemma InactiveIsIdentity(policy: Policy, parent: seq<Variable>)
    requires !policy.IsActive()
    ensures Kept(policy, parent) == parent && Dropped(policy, parent) == []
  {
    FilterAll(parent, KeepTest(policy));
    FilterNone(parent, DropTest(policy));
  }

  /** Which variables are kept, exactly. */
  lemma KeptExactly(policy: Policy, parent: seq<Variable>, v: Variable)
    ensures v in Kept(policy, parent)
            <==> && v in parent
                 && (forall p | p in policy.deny :: !Matches(p, v.name))
                 && (policy.default == Pass || exists p | p in policy.allow :: Matches(p, v.name))
    ensures v in parent ==> (v in Dropped(policy, parent) <==> v !in Kept(policy, parent))
  {
    FilterHas(parent, KeepTest(policy), v);
    FilterHas(parent, DropTest(policy), v);
  }

  /** The names reported as removed are those of the variables that are not kept, as
      often as there are such variables. */
  lemma RemovedExactly(policy: Policy, parent: seq<Variable>, name: string)
    ensures name in Names(Dropped(policy, parent)) <==> exists v :: v in Dropped(policy, parent) && v.name == name
    ensures |Names(Dropped(policy, parent))| == |parent| - |Kept(policy, parent)|
  {
    var dropped := Dropped(policy, parent);
    FilterCount(parent, KeepTest(policy), DropTest(policy));
    if v :| v in dropped && v.name == name {
      var i :| 0 <= i < |dropped| && dropped[i] == v;
      assert Names(dropped)[i] == name;
    }
  }

  /** The two results split the parent; resolving the kept part again drops nothing. */
  lemma ResolveIsStable(policy: Policy, parent: seq<Variable>)
    ensures |Kept(policy, parent)| + |Dropped(policy, parent)| == |parent|
    ensures Kept(policy, Kept(policy, parent)) == Kept(policy, parent)
    ensures Dropped(policy, Kept(policy, parent)) == []
    ensures forall v | v in Kept(policy, parent) :: !Listed(policy.deny, v.name)
    ensures policy.default == Clear ==> forall v | v in Kept(policy, parent) :: Listed(policy.allow, v.name)
  {
    FilterCount(parent, KeepTest(policy), DropTest(policy));
    FilterAll(Kept(policy, parent), KeepTest(policy));
    FilterNone(Kept(policy, parent), DropTest(policy));
  }
}
