/** GRANT ROLE, REVOKE ROLE and DROP ROLE as they run: row by row inside a transaction. */
module RoleStatements {
  import opened Wrappers
  import opened Paths
  import opened RoleCatalog
  import G = RoleGraph

  class Catalog {
    const sys: bool
    var roles: map<string, Id>
    var users: map<string, Id>
    var roleGrants: set<GrantRow>
    var userGrants: set<GrantRow>
    var rolePrivs: set<RolePriv>

    function State(): Tables
      reads this
    {
      Tables(roles, users, roleGrants, userGrants, rolePrivs)
    }

    /** The role graph has no cycle. */
    ghost predicate Valid()
      reads this
    {
      Acyclic(EdgesOf(roleGrants))
    }

    /** An account before its first GRANT. */
    constructor (sys: bool, roles: map<string, Id>, users: map<string, Id>, userGrants: set<GrantRow>,
                 rolePrivs: set<RolePriv>)
      ensures Valid() && roleGrants == {}
      ensures this.sys == sys && State() == Tables(roles, users, {}, userGrants, rolePrivs)
    {
      this.sys, this.roles, this.users, this.userGrants := sys, roles, users, userGrants;
      roleGrants, this.rolePrivs := {}, rolePrivs;
      new;
      NoEdgesNoCycle();
    }

    method Rollback(saved: Tables)
      modifies this
      ensures State() == saved
    {
      roles, users, roleGrants, userGrants := saved.roles, saved.users, saved.roleGrants, saved.userGrants;
      rolePrivs := saved.rolePrivs;
    }

    /** Loads mo_role_grant into the graph used for the loop check. */
    method LoadGraph() returns (g: G.Graph)
      ensures fresh(g) && g.Valid() && g.Live() == EdgesOf(roleGrants)
    {
      g := new G.Graph();
      var todo := roleGrants;
      while todo != {}
        invariant todo <= roleGrants
        invariant g.Valid() && fresh(g)
        invariant g.Live() == EdgesOf(roleGrants - todo)
        decreases todo
      {
        var r :| r in todo;
        var _ := g.AddEdge(r.granted, r.grantee);
        EdgesOfOneMore(roleGrants - todo, r);
        assert roleGrants - (todo - {r}) == (roleGrants - todo) + {r};
        todo := todo - {r};
      }
      assert roleGrants - {} == roleGrants;
    }

    method GrantRole(s: Stmt) returns (o: Outcome)
      requires s.Grant?
      modifies this
      ensures GrantSpec(old(State()), sys, s, State(), o)
    {
      ghost var t := State();
      ghost var es := EdgesOf(roleGrants);
      var saved := State();

      // the granted roles must exist
      var from := [];
      for k := 0 to |s.from|
        invariant |from| == k
        invariant forall i :: 0 <= i < k ==> s.from[i] in t.roles && Some(from[i]) == ResolveRole(t, s.from[i])
      {
        var vr := ResolveRole(State(), s.from[k]);
        if vr.None? {
          return Refused(NoSuchRole(s.from[k]));
        }
        from := from + [vr.value];
      }
      assert from == RolesNamed(t, s.from);

      // a grantee is a role, or else a user
      var to := [];
      var needGraph := false;
      for k := 0 to |s.to|
        invariant |to| == k
        invariant forall i :: 0 <= i < k ==>
          (s.to[i] in t.roles || s.to[i] in t.users) && Some(to[i]) == ResolveGrantee(t, sys, s.to[i])
        invariant needGraph <==> HasRole(to)
      {
        var vr := ResolveGrantee(State(), sys, s.to[k]);
        if vr.None? {
          return Refused(NoSuchRoleOrUser(s.to[k]));
        }
        to := to + [vr.value];
        needGraph := needGraph || vr.value.kind == RoleType;
      }
      assert to == GranteesNamed(t, sys, s.to);

      var graph := new G.Graph();
      if needGraph {
        graph := LoadGraph();
      }

      o := GrantPairs(s, from, to, graph);
      if o.Refused? {
        Rollback(saved);
      }
    }

    /** The two nested loops over roles and grantees; on a refusal the tables are left half done. */
    method GrantPairs(s: Stmt, from: seq<VerifiedRole>, to: seq<VerifiedRole>, graph: G.Graph) returns (o: Outcome)
      requires s.Grant? && graph.Valid()
      requires HasRole(to) ==> graph.Live() == EdgesOf(roleGrants)
      modifies this`roleGrants, this`userGrants, graph
      ensures o == Done ==> GrantDone(old(State()), sys, s, State(), from, to)
      ensures o.Refused? ==> o.reason.SpecialRole? || o.reason.RoleGrantedToSelf?
      ensures o.Refused? ==> exists i, j :: StoppedAt(old(EdgesOf(roleGrants)), sys, from, to, i, j, o.reason)
    {
      ghost var t := State();
      StartProgress(t, sys, s, from, to);
      for i := 0 to |from|
        invariant graph.Valid()
        invariant HasRole(to) ==> graph.Live() == EdgesOf(t.roleGrants)
        invariant Progress(t, sys, s, from, to, i, 0, State())
      {
        for j := 0 to |to|
          invariant graph.Valid()
          invariant HasRole(to) ==> graph.Live() == EdgesOf(t.roleGrants)
          invariant Progress(t, sys, s, from, to, i, j, State())
        {
          ghost var mid := State();
          o := GrantPair(s, from[i], to[j], graph);
          if o.Refused? {
            assert StoppedAt(EdgesOf(t.roleGrants), sys, from, to, i, j, o.reason);
            return;
          }
          StepProgress(t, sys, s, from, to, i, j, mid, State());
        }
        RowProgress(t, sys, s, from, to, i, State());
      }
      o := Done;
    }

    /** One pair: the special-role rules, the loop test, then insert, update or nothing. */
    method GrantPair(s: Stmt, f: VerifiedRole, g: VerifiedRole, graph: G.Graph) returns (o: Outcome)
      requires s.Grant? && graph.Valid()
      modifies this`roleGrants, this`userGrants, graph
      ensures graph.Valid()
      ensures o.Refused? <==> SpecialInGrant(sys, f, g) || PairLoops(old(graph.Live()), f, g)
      ensures o.Refused? ==>
        o.reason == if SpecialInGrant(sys, f, g) then SpecialRole(f.name, g.name) else RoleGrantedToSelf(f.name, g.name)
      ensures o == Done ==>
        graph.Live() == old(graph.Live()) && State() == AfterPair(old(State()), f, g, s.withGrantOption)
    {
      if SpecialInGrant(sys, f, g) {
        return Refused(SpecialRole(f.name, g.name));
      }
      if g.kind == RoleType {
        var loops := PairTest(graph, f.id, g.id);
        if loops {
          return Refused(RoleGrantedToSelf(f.name, g.name));
        }
        roleGrants := Upsert(roleGrants, f.id, g.id, s.withGrantOption);
      } else {
        userGrants := Upsert(userGrants, f.id, g.id, s.withGrantOption);
      }
      o := Done;
    }

    method RevokeRole(s: Stmt) returns (o: Outcome)
      requires s.Revoke?
      modifies this
      ensures RevokeSpec(old(State()), sys, s, State(), o)
    {
      ghost var t := State();
      var saved := State();

      // grantees first; an unknown one stays out under IF EXISTS
      var to := [];
      for k := 0 to |s.to|
        invariant |to| == k
        invariant forall i :: 0 <= i < k ==> to[i] == ResolveGrantee(t, sys, s.to[i])
        invariant s.ifExists || forall i :: 0 <= i < k ==> s.to[i] in t.roles || s.to[i] in t.users
      {
        var vr := ResolveGrantee(State(), sys, s.to[k]);
        if vr.None? && !s.ifExists {
          return Refused(NoSuchRoleOrUser(s.to[k]));
        }
        to := to + [vr];
      }

      var from := [];
      for k := 0 to |s.from|
        invariant |from| == k
        invariant forall i :: 0 <= i < k ==> s.from[i] in t.roles && Some(from[i]) == ResolveRole(t, s.from[i])
      {
        var vr := ResolveRole(State(), s.from[k]);
        if vr.None? {
          return Refused(NoSuchRole(s.from[k]));
        }
        from := from + [vr.value];
      }
      assert from == RolesNamed(t, s.from);

      assert to[..] == to;
      o := RevokePairs(s, from, to);
      if o.Refused? {
        Rollback(saved);
      }
    }

    method RevokePairs(s: Stmt, from: seq<VerifiedRole>, to: seq<Option<VerifiedRole>>) returns (o: Outcome)
      requires s.Revoke? && RolesKnown(State(), s.from) && from == RolesNamed(State(), s.from)
      requires |to| == |s.to| && forall k :: 0 <= k < |to| ==> to[k] == ResolveGrantee(State(), sys, s.to[k])
      modifies this`roleGrants, this`userGrants
      ensures o == Done ==> RevokeDone(old(State()), sys, State(), from, ExistingGrantees(old(State()), sys, s.to))
      ensures o.Refused? ==> o.reason.SpecialRole? && RevokeMayRefuse(old(State()), sys, s, o.reason)
    {
      ghost var t := State();
      ghost var all := ExistingGrantees(t, sys, s.to);
      StartRevoke(t, sys, from, all);
      for i := 0 to |from|
        invariant RevokeProgress(t, sys, from, all, i, 0, State())
      {
        ghost var j;
        o, j := RevokeRow(s.to, from, i, to, t);
        if o.Refused? {
          SpecialRefusal(t, sys, s, i, j);
          return;
        }
        RowRevoke(t, sys, from, all, i, State());
      }
      o := Done;
    }

    /** The inner loop: one role is taken from every grantee, up to a special one. */
    method RevokeRow(names: seq<string>, from: seq<VerifiedRole>, i: nat, to: seq<Option<VerifiedRole>>,
                     ghost t: Tables)
      returns (o: Outcome, ghost j: nat)
      requires i < |from|
      requires |to| == |names| && forall k :: 0 <= k < |to| ==> to[k] == ResolveGrantee(t, sys, names[k])
      requires RevokeProgress(t, sys, from, ExistingGrantees(t, sys, names), i, 0, State())
      modifies this`roleGrants, this`userGrants
      ensures o == Done ==>
        RevokeProgress(t, sys, from, ExistingGrantees(t, sys, names), i, |ExistingGrantees(t, sys, names)|, State())
      ensures o.Refused? ==> j < |to| && to[j].Some? && SpecialInRevoke(sys, from[i], to[j].value)
      ensures o.Refused? ==> o.reason == SpecialRole(from[i].name, to[j].value.name)
    {
      ghost var all := ExistingGrantees(t, sys, names);
      j := 0;
      assert names[..0] == [];
      for k := 0 to |to|
        invariant RevokeProgress(t, sys, from, all, i, |ExistingGrantees(t, sys, names[..k])|, State())
      {
        ExistingStep(t, sys, names, k);
        if to[k].Some? {
          ghost var mid, at := State(), |ExistingGrantees(t, sys, names[..k])|;
          o := RevokePair(from[i], to[k].value);
          if o.Refused? {
            j := k;
            return;
          }
          StepRevoke(t, sys, from, all, i, at, mid, State());
        }
      }
      assert names[..|to|] == names;
      o := Done;
    }

    method RevokePair(f: VerifiedRole, g: VerifiedRole) returns (o: Outcome)
      modifies this`roleGrants, this`userGrants
      ensures o == if SpecialInRevoke(sys, f, g) then Refused(SpecialRole(f.name, g.name)) else Done
      ensures o == Done ==>
        State() == if g.kind == RoleType then old(State()).(roleGrants := Without(old(roleGrants), {(f.id, g.id)}))
                   else old(State()).(userGrants := Without(old(userGrants), {(f.id, g.id)}))
    {
      if SpecialInRevoke(sys, f, g) {
        return Refused(SpecialRole(f.name, g.name));
      }
      if g.kind == RoleType {
        roleGrants := set r | r in roleGrants && !(r.granted == f.id && r.grantee == g.id);
      } else {
        userGrants := set r | r in userGrants && !(r.granted == f.id && r.grantee == g.id);
      }
      o := Done;
    }

    method DropRole(s: Stmt) returns (o: Outcome)
      requires s.Drop?
      modifies this
      ensures DropSpec(old(State()), sys, s, State(), o)
    {
      ghost var t := State();
      var saved := State();
      NothingPurged(t);
      for k := 0 to |s.names|
        invariant State() == Purged(t, IdsOfNames(t, s.names[..k]))
        invariant s.ifExists || forall i :: 0 <= i < k ==> StillThere(t, s.names, i)
        invariant forall i :: 0 <= i < k && StillThere(t, s.names, i) ==>
          !IsAdminRole(sys, s.names[i]) && !IsPublic(s.names[i])
      {
        var refusal := DropNamed(t, s, k);
        if refusal.Some? {
          Rollback(saved);
          return Refused(refusal.value);
        }
      }
      assert s.names[..|s.names|] == s.names;
      o := Done;
    }

    /** One round of the loop, for the k-th name. */
    method DropNamed(ghost t: Tables, s: Stmt, k: nat) returns (refusal: Option<Refusal>)
      requires s.Drop? && k < |s.names| && State() == Purged(t, IdsOfNames(t, s.names[..k]))
      modifies this`roles, this`userGrants, this`roleGrants, this`rolePrivs
      ensures refusal.None? ==>
        && State() == Purged(t, IdsOfNames(t, s.names[..k + 1]))
        && (StillThere(t, s.names, k) ==> !IsAdminRole(sys, s.names[k]) && !IsPublic(s.names[k]))
        && (s.ifExists || StillThere(t, s.names, k))
      ensures refusal.Some? ==>
        if StillThere(t, s.names, k)
        then refusal.value == SpecialRole(s.names[k], "") && (IsAdminRole(sys, s.names[k]) || IsPublic(s.names[k]))
        else refusal.value == NoSuchRole(s.names[k]) && !s.ifExists
    {
      var name := s.names[k];
      refusal := None;
      PurgeOneMore(t, s.names, k);
      var vr := ResolveRole(State(), name);
      if vr.None? {
        if !s.ifExists {
          refusal := Some(NoSuchRole(name));
        }
      } else if IsAdminRole(sys, vr.value.name) || IsPublic(vr.value.name) {
        refusal := Some(SpecialRole(name, ""));
      } else {
        DeleteRole(vr.value.id);
        PurgeTwice(t, IdsOfNames(t, s.names[..k]), vr.value.id);
      }
    }

    /** Deletes one role from mo_role, mo_user_grant, mo_role_grant and mo_role_privs. */
    method DeleteRole(id: Id)
      modifies this`roles, this`userGrants, this`roleGrants, this`rolePrivs
      ensures State() == Purged(old(State()), {id})
    {
      roles := map n | n in roles && roles[n] != id :: roles[n];
      userGrants := set r | r in userGrants && r.granted != id;
      roleGrants := set r | r in roleGrants && !(r.granted == id || r.grantee == id);
      rolePrivs := set r | r in rolePrivs && r.role != id;
    }

    /** Any statement, run against a catalog whose role graph is acyclic, leaves it acyclic. */
    method Execute(s: Stmt) returns (o: Outcome)
      requires Valid()
      modifies this
      ensures Valid()
      ensures Next(old(State()), sys, s, State(), o)
    {
      match s {
        case Grant(_, _, _) => o := GrantRole(s);
        case Revoke(_, _, _) => o := RevokeRole(s);
        case Drop(_, _) => o := DropRole(s);
      }
      NextKeepsAcyclic(old(State()), sys, s, State(), o);
    }

    /** A whole session of statements is a run of the specification, acyclic throughout. */
    method ExecuteAll(ss: seq<Stmt>) returns (os: seq<Outcome>, ghost ts: seq<Tables>)
      requires Valid()
      modifies this
      ensures Valid()
      ensures IsRun(sys, ts, ss, os) && ts[0] == old(State()) && ts[|ss|] == State()
      ensures forall k :: 0 <= k < |ts| ==> Acyclic(EdgesOf(ts[k].roleGrants))
    {
      os, ts := [], [State()];
      for k := 0 to |ss|
        invariant Valid()
        invariant |ts| == k + 1 && |os| == k
        invariant ts[0] == old(State()) && ts[k] == State()
        invariant forall i :: 0 <= i < k ==> Next(ts[i], sys, ss[i], ts[i + 1], os[i])
        invariant forall i :: 0 <= i <= k ==> Acyclic(EdgesOf(ts[i].roleGrants))
      {
        var o := Execute(ss[k]);
        os, ts := os + [o], ts + [State()];
      }
    }

    /** Tests one pair against the graph and leaves the graph as it was, unless a loop shows up. */
    static method PairTest(graph: G.Graph, from: Id, to: Id) returns (loops: bool)
      requires graph.Valid()
      modifies graph
      ensures loops <==> from == to || LoopFrom(old(graph.Live()) + {(from, to)}, from)
      ensures graph.Valid()
      ensures !loops ==> graph.Live() == old(graph.Live())
    {
      if from == to {
        return true;
      }
      ghost var before := graph.edges;
      var id := graph.AddEdge(from, to);
      loops := graph.HasLoop(from);
      if !loops {
        graph.RemoveEdge(id);
        G.TestEdgeRestored(before, G.Edge(from, to, false));
      }
    }
  }

  lemma {:induction false} NoEdgesNoCycle()
    ensures Acyclic(EdgesOf({}))
  {
    assert EdgesOf({}) == {};
    forall v | ReachesPlus({}, v, v)
      ensures false
    {
      var w := FirstEdge({}, v, v);
    }
  }

  lemma {:induction false} EdgesOfOneMore(rows: set<GrantRow>, r: GrantRow)
    ensures EdgesOf(rows + {r}) == EdgesOf(rows) + {(r.granted, r.grantee)}
  {}

  predicate HasRole(rs: seq<VerifiedRole>) {
    exists k :: 0 <= k < |rs| && rs[k].kind == RoleType
  }

  ghost function AfterPair(t: Tables, f: VerifiedRole, g: VerifiedRole, option: bool): Tables {
    if g.kind == RoleType then
      t.(roleGrants := Overwrite(t.roleGrants, {(f.id, g.id)}, option))
    else
      t.(userGrants := Overwrite(t.userGrants, {(f.id, g.id)}, option))
  }

  /** All pairs before (i, j) passed and their rows are in place; nothing else changed. */
  ghost predicate Progress(t: Tables, sys: bool, s: Stmt, from: seq<VerifiedRole>, to: seq<VerifiedRole>, i: int,
                           j: int, now: Tables)
    requires s.Grant?
  {
    && PairsPass(EdgesOf(t.roleGrants), sys, from, to, i, j)
    && now == t.(roleGrants := Overwrite(t.roleGrants, KeysBefore(from, to, RoleType, i, j), s.withGrantOption),
                 userGrants := Overwrite(t.userGrants, KeysBefore(from, to, UserType, i, j), s.withGrantOption))
  }

  lemma {:induction false} StartProgress(t: Tables, sys: bool, s: Stmt, from: seq<VerifiedRole>, to: seq<VerifiedRole>)
    requires s.Grant?
    ensures Progress(t, sys, s, from, to, 0, 0, t)
  {}

  lemma {:induction false} StepProgress(t: Tables, sys: bool, s: Stmt, from: seq<VerifiedRole>, to: seq<VerifiedRole>,
                                        i: nat, j: nat, mid: Tables, now: Tables)
    requires s.Grant? && i < |from| && j < |to|
    requires Progress(t, sys, s, from, to, i, j, mid)
    requires !SpecialInGrant(sys, from[i], to[j]) && !PairLoops(EdgesOf(t.roleGrants), from[i], to[j])
    requires now == AfterPair(mid, from[i], to[j], s.withGrantOption)
    ensures Progress(t, sys, s, from, to, i, j + 1, now)
  {
    PassOneMore(EdgesOf(t.roleGrants), sys, from, to, i, j);
    var k := (from[i].id, to[j].id);
    KeysStep(from, to, RoleType, i, j);
    KeysStep(from, to, UserType, i, j);
    OverwriteMore(t.roleGrants, KeysBefore(from, to, RoleType, i, j), k, s.withGrantOption);
    OverwriteMore(t.userGrants, KeysBefore(from, to, UserType, i, j), k, s.withGrantOption);
  }

  lemma {:induction false} RowProgress(t: Tables, sys: bool, s: Stmt, from: seq<VerifiedRole>, to: seq<VerifiedRole>,
                                       i: nat, now: Tables)
    requires s.Grant? && Progress(t, sys, s, from, to, i, |to|, now)
    ensures Progress(t, sys, s, from, to, i + 1, 0, now)
  {
    KeysRowEnd(from, to, RoleType, i);
    KeysRowEnd(from, to, UserType, i);
    PassRowEnd(EdgesOf(t.roleGrants), sys, from, to, i);
  }

  /** The rows of all pairs before (i, j) are gone, none of them special; nothing else changed. */
  ghost predicate RevokeProgress(t: Tables, sys: bool, from: seq<VerifiedRole>, to: seq<VerifiedRole>, i: int, j: int,
                                 now: Tables) {
    && (forall a, b :: 0 <= a < |from| && 0 <= b < |to| && Before(a, b, i, j) ==> !SpecialInRevoke(sys, from[a], to[b]))
    && now == t.(roleGrants := Without(t.roleGrants, KeysBefore(from, to, RoleType, i, j)),
                 userGrants := Without(t.userGrants, KeysBefore(from, to, UserType, i, j)))
  }

  lemma {:induction false} StartRevoke(t: Tables, sys: bool, from: seq<VerifiedRole>, to: seq<VerifiedRole>)
    ensures RevokeProgress(t, sys, from, to, 0, 0, t)
  {}

  lemma {:induction false} StepRevoke(t: Tables, sys: bool, from: seq<VerifiedRole>, to: seq<VerifiedRole>, i: nat,
                                      j: nat, mid: Tables, now: Tables)
    requires i < |from| && j < |to| && RevokeProgress(t, sys, from, to, i, j, mid)
    requires !SpecialInRevoke(sys, from[i], to[j])
    requires now == if to[j].kind == RoleType then mid.(roleGrants := Without(mid.roleGrants, {(from[i].id, to[j].id)}))
                    else mid.(userGrants := Without(mid.userGrants, {(from[i].id, to[j].id)}))
    ensures RevokeProgress(t, sys, from, to, i, j + 1, now)
  {
    KeysStep(from, to, RoleType, i, j);
    KeysStep(from, to, UserType, i, j);
    forall a, b | 0 <= a < |from| && 0 <= b < |to| && Before(a, b, i, j + 1)
      ensures !SpecialInRevoke(sys, from[a], to[b])
    {
      assert Before(a, b, i, j) || (a == i && b == j);
    }
  }

  lemma {:induction false} RowRevoke(t: Tables, sys: bool, from: seq<VerifiedRole>, to: seq<VerifiedRole>, i: nat,
                                     now: Tables)
    requires RevokeProgress(t, sys, from, to, i, |to|, now)
    ensures RevokeProgress(t, sys, from, to, i + 1, 0, now)
  {}

  lemma {:induction false} SpecialRefusal(t: Tables, sys: bool, s: Stmt, i: nat, j: nat)
    requires s.Revoke? && RolesKnown(t, s.from) && i < |s.from| && j < |s.to| && ResolveGrantee(t, sys, s.to[j]).Some?
    requires SpecialInRevoke(sys, RolesNamed(t, s.from)[i], ResolveGrantee(t, sys, s.to[j]).value)
    ensures RevokeMayRefuse(t, sys, s,
                            SpecialRole(RolesNamed(t, s.from)[i].name, ResolveGrantee(t, sys, s.to[j]).value.name))
  {}

  lemma {:induction false} ExistingPrefix(t: Tables, sys: bool, names: seq<string>, j: nat)
    requires j <= |names|
    ensures ExistingGrantees(t, sys, names[..j]) <= ExistingGrantees(t, sys, names)
    decreases |names|
  {
    if j == |names| {
      assert names[..j] == names;
    } else {
      ExistingPrefix(t, sys, names[..|names| - 1], j);
      assert names[..|names| - 1][..j] == names[..j];
    }
  }

  /** The j-th name adds at most one grantee, at the next place of the full list. */
  lemma {:induction false} ExistingStep(t: Tables, sys: bool, names: seq<string>, j: nat)
    requires j < |names|
    ensures var r, at := ResolveGrantee(t, sys, names[j]), |ExistingGrantees(t, sys, names[..j])|;
            && |ExistingGrantees(t, sys, names[..j + 1])| == at + (if r.Some? then 1 else 0)
            && (r.Some? ==> at < |ExistingGrantees(t, sys, names)| && ExistingGrantees(t, sys, names)[at] == r.value)
  {
    assert names[..j + 1][..j] == names[..j];
    ExistingPrefix(t, sys, names, j + 1);
  }

  lemma {:induction false} NothingPurged(t: Tables)
    ensures Purged(t, IdsOfNames(t, [])) == t
  {}

  lemma {:induction false} PurgeTwice(t: Tables, ids: set<Id>, id: Id)
    ensures Purged(Purged(t, ids), {id}) == Purged(t, ids + {id})
  {}

  lemma {:induction false} PurgeOneMore(t: Tables, names: seq<string>, k: nat)
    requires k < |names|
    ensures IdsOfNames(t, names[..k + 1])
         == IdsOfNames(t, names[..k]) + if names[k] in t.roles then {t.roles[names[k]]} else {}
  {
    assert names[..k + 1] == names[..k] + [names[k]];
  }

  lemma {:induction false} PassOneMore(es: Edges, sys: bool, from: seq<VerifiedRole>, to: seq<VerifiedRole>, i: nat,
                                       j: nat)
    requires i < |from| && j < |to| && PairsPass(es, sys, from, to, i, j)
    requires !SpecialInGrant(sys, from[i], to[j]) && !PairLoops(es, from[i], to[j])
    ensures PairsPass(es, sys, from, to, i, j + 1)
  {}

  lemma {:induction false} PassRowEnd(es: Edges, sys: bool, from: seq<VerifiedRole>, to: seq<VerifiedRole>, i: nat)
    requires PairsPass(es, sys, from, to, i, |to|)
    ensures PairsPass(es, sys, from, to, i + 1, 0)
  {}
}
