/** The level-by-level searches of `pkg/frontend/authenticate.go` over the grant tables, and the
    reachability each of them decides. */
module RoleSearch {
  import opened Paths
  import opened RoleCatalog

  /** With-grant-option edges, from the granted role to the role it was granted to. */
  ghost function OptionEdges(t: Tables): Edges {
    set r | r in t.roleGrants && r.withGrantOption :: (r.granted, r.grantee)
  }

  /** Inheritance edges, from a role to the roles granted to it. */
  ghost function InheritEdges(t: Tables): Edges {
    set r | r in t.roleGrants :: (r.grantee, r.granted)
  }

  function GranteesWithOption(t: Tables, role: Id): (s: set<Id>)
    ensures forall v :: v in s <==> (role, v) in OptionEdges(t)
  {
    var hits := set r | r in t.roleGrants && r.withGrantOption && r.granted == role;
    assert forall v :: (role, v) in OptionEdges(t) ==> GrantRow(role, v, true) in hits;
    set r | r in hits :: r.grantee
  }

  function InheritedRoles(t: Tables, role: Id): (s: set<Id>)
    ensures forall v :: v in s <==> (role, v) in InheritEdges(t)
  {
    var hits := set r | r in t.roleGrants && r.grantee == role;
    assert forall v | (role, v) in InheritEdges(t) :: exists r :: r in hits && r.granted == v by {
      forall v | (role, v) in InheritEdges(t)
        ensures exists r :: r in hits && r.granted == v
      {
        var r :| r in t.roleGrants && (r.grantee, r.granted) == (role, v);
        assert r in hits;
      }
    }
    set r | r in hits :: r.granted
  }

  /** The session of the user who runs a statement. */
  datatype Session = Session(userId: Id, defaultRole: Id, useSecondaryRoles: bool)

  /** The roles in use: the default role, and all granted ones when secondary roles are enabled. */
  function RolesInUse(t: Tables, ses: Session): (s: set<Id>)
    ensures ses.defaultRole in s
    ensures forall v :: v in s <==>
      || v == ses.defaultRole
      || (ses.useSecondaryRoles && exists g :: g in t.userGrants && g.granted == v && g.grantee == ses.userId)
  {
    {ses.defaultRole} +
    if ses.useSecondaryRoles then set g | g in t.userGrants && g.grantee == ses.userId :: g.granted else {}
  }

  /** Scans the smaller of two sets for a member of the other. */
  method SetIsIntersected(a: set<Id>, b: set<Id>) returns (yes: bool)
    ensures yes <==> exists v :: v in a && v in b
  {
    var small, big := a, b;
    if |a| > |b| {
      small, big := b, a;
    }
    var todo := small;
    while todo != {}
      invariant todo <= small
      invariant forall v :: v in small && v !in todo ==> v !in big
      decreases todo
    {
      var v :| v in todo;
      if v in big {
        return true;
      }
      todo := todo - {v};
    }
    return false;
  }

  /** Some role in use can be reached from `role` over one or more with-grant-option edges. */
  ghost predicate LinkedToUse(t: Tables, inUse: set<Id>, role: Id) {
    exists u :: u in inUse && ReachesPlus(OptionEdges(t), role, u)
  }

  /** Adds the grantees of `role` that were not visited before to both sets. */
  method NewGrantees(t: Tables, role: Id, visited: set<Id>, next: set<Id>) returns (new_: set<Id>, visited': set<Id>,
                     next': set<Id>)
    ensures forall v :: v in new_ <==> (role, v) in OptionEdges(t) && v !in visited
    ensures visited' == visited + new_ && next' == next + new_
  {
    new_ := GranteesWithOption(t, role) - visited;
    visited', next' := visited + new_, next + new_;
  }

  /** Everything reachable by at least one edge from `role` that was found so far is in `visited`,
      and the successors of all of it are, but for the roles still to be expanded. */
  ghost predicate Frontier(es: Edges, role: Id, visited: set<Id>, todo: set<Id>) {
    && (forall v :: v in visited ==> ReachesPlus(es, role, v))
    && todo <= visited + {role}
    && (forall e :: e in es && e.0 in visited + {role} && e.0 !in todo ==> e.1 in visited)
  }

  /** The search for a role in use, level by level; only roles not visited before are tested. */
  method FindLink(t: Tables, inUse: set<Id>, role: Id) returns (found: bool)
    ensures found <==> LinkedToUse(t, inUse, role)
  {
    ghost var es := OptionEdges(t);
    ghost var universe := set r | r in t.roleGrants :: r.grantee;
    var level, visited := {role}, {};
    found := false;
    while level != {} && !found
      invariant visited <= universe
      invariant !found ==> Frontier(es, role, visited, level)
      invariant !found ==> visited !! inUse
      invariant found ==> LinkedToUse(t, inUse, role)
      decreases universe - visited, level
    {
      ghost var visited0 := visited;
      var next := {};
      var todo := level;
      while todo != {}
        invariant todo <= level
        invariant visited0 <= visited <= universe && next == visited - visited0
        invariant Frontier(es, role, visited, todo + next)
        invariant visited !! inUse
        decreases todo
      {
        var ri :| ri in todo;
        var fresh_;
        ghost var before, nextBefore := visited, next;
        fresh_, visited, next := NewGrantees(t, ri, visited, next);
        Expand(es, role, before, todo + nextBefore, ri, fresh_);
        assert visited <= universe;
        var hit := SetIsIntersected(fresh_, inUse);
        if hit {
          found := true;
          break;
        }
        assert (todo + nextBefore) - {ri} + fresh_ <= (todo - {ri}) + next;
        FrontierGrows(es, role, visited, (todo + nextBefore) - {ri} + fresh_, (todo - {ri}) + next);
        todo := todo - {ri};
      }
      if !found {
        assert todo + next == next;
        assert visited == visited0 + next;
      }
      level := next;
    }
    if !found {
      Exhausted(es, role, visited);
    }
  }

  lemma {:induction false} Expand(es: Edges, role: Id, visited: set<Id>, todo: set<Id>, ri: Id, fresh_: set<Id>)
    requires Frontier(es, role, visited, todo) && ri in todo
    requires forall v :: v in fresh_ <==> (ri, v) in es && v !in visited
    ensures Frontier(es, role, visited + fresh_, (todo - {ri}) + fresh_)
  {
    forall v | v in fresh_
      ensures ReachesPlus(es, role, v)
    {
      if ri == role {
        ReachesRefl(es, v);
        EdgeThenReaches(es, role, v, v);
      } else {
        PlusThenEdge(es, role, ri, v);
      }
    }
    SuccessorsSeen(es, visited, ri, fresh_);
  }

  lemma {:induction false} SuccessorsSeen(es: Edges, visited: set<Id>, ri: Id, fresh_: set<Id>)
    requires forall v :: v in fresh_ <==> (ri, v) in es && v !in visited
    ensures forall e :: e in es && e.0 == ri ==> e.1 in visited || e.1 in fresh_
  {}

  lemma {:induction false} FrontierGrows(es: Edges, role: Id, visited: set<Id>, todo: set<Id>, more: set<Id>)
    requires Frontier(es, role, visited, todo) && todo <= more <= visited + {role}
    ensures Frontier(es, role, visited, more)
  {}

  lemma {:induction false} PlusThenEdge(es: Edges, a: Id, b: Id, c: Id)
    requires ReachesPlus(es, a, b) && (b, c) in es
    ensures ReachesPlus(es, a, c)
  {
    var d := FirstEdge(es, a, b);
    EdgeReaches(es, b, c);
    ReachesTrans(es, d, b, c);
    EdgeThenReaches(es, a, d, c);
  }

  /** When nothing is left to expand, `visited` is all that one or more edges reach. */
  lemma {:induction false} Exhausted(es: Edges, role: Id, visited: set<Id>)
    requires Frontier(es, role, visited, {})
    ensures forall v :: ReachesPlus(es, role, v) ==> v in visited
  {
    forall v | ReachesPlus(es, role, v)
      ensures v in visited
    {
      var w := FirstEdge(es, role, v);
      assert Closed(es, visited);
      ClosedReaches(es, visited, w, v);
    }
  }

  datatype Answer = Answer(yes: bool) | NoRole(name: string)

  ghost predicate GrantedWithOption(t: Tables, role: Id, user: Id) {
    exists g :: g in t.userGrants && g.withGrantOption && g.granted == role && g.grantee == user
  }

  /** A role can be passed on when it is in use and was granted to the user with grant option, or
      is linked to a role in use. */
  ghost predicate CanPassOn(t: Tables, ses: Session, role: Id) {
    || (role in RolesInUse(t, ses) && GrantedWithOption(t, role, ses.userId))
    || LinkedToUse(t, RolesInUse(t, ses), role)
  }

  /** Whether the user may grant all the named roles to others. */
  method CanGrantRoles(t: Tables, ses: Session, names: seq<string>) returns (a: Answer)
    ensures a.NoRole? ==> a.name in names && a.name !in t.roles
    ensures a.Answer? ==> RolesKnown(t, names)
    ensures a.Answer? ==> (a.yes <==> forall k :: 0 <= k < |names| ==> CanPassOn(t, ses, t.roles[names[k]]))
  {
    for k := 0 to |names|
      invariant forall i :: 0 <= i < k ==> names[i] in t.roles
    {
      if names[k] !in t.roles {
        return NoRole(names[k]);
      }
    }
    var inUse := RolesInUse(t, ses);
    for k := 0 to |names|
      invariant forall i :: 0 <= i < k ==> CanPassOn(t, ses, t.roles[names[i]])
    {
      var role := t.roles[names[k]];
      if role in inUse &&
         exists g :: g in t.userGrants && g.withGrantOption && g.granted == role && g.grantee == ses.userId {
        continue;
      }
      var found := FindLink(t, inUse, role);
      if !found {
        return Answer(false);
      }
    }
    return Answer(true);
  }

  /** The roles that hold a privilege with grant option: a view of mo_role_privs. */
  type PrivHolders = map<int, set<Id>>

  ghost predicate CanPassPrivilege(t: Tables, ses: Session, holders: set<Id>) {
    exists r :: r in holders && (r in RolesInUse(t, ses) || LinkedToUse(t, RolesInUse(t, ses), r))
  }

  /** Whether the user may grant all the given privileges to others. */
  method CanGrantPrivileges(t: Tables, ses: Session, withOption: PrivHolders, privs: seq<int>) returns (yes: bool)
    ensures yes <==> forall k :: 0 <= k < |privs| ==>
              CanPassPrivilege(t, ses, if privs[k] in withOption then withOption[privs[k]] else {})
  {
    var inUse := RolesInUse(t, ses);
    for k := 0 to |privs|
      invariant forall i :: 0 <= i < k ==>
        CanPassPrivilege(t, ses, if privs[i] in withOption then withOption[privs[i]] else {})
    {
      var holders := if privs[k] in withOption then withOption[privs[k]] else {};
      var direct := SetIsIntersected(holders, inUse);
      if direct {
        continue;
      }
      var todo, found := holders, false;
      while todo != {} && !found
        invariant todo <= holders
        invariant found ==> CanPassPrivilege(t, ses, holders)
        invariant !found ==> forall r :: r in holders && r !in todo ==> !LinkedToUse(t, inUse, r)
        decreases todo
      {
        var rx :| rx in todo;
        todo := todo - {rx};
        found := FindLink(t, inUse, rx);
      }
      if !found {
        return false;
      }
    }
    return true;
  }
}
