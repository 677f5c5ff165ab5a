/** The catalog tables of one account and the statements GRANT ROLE, REVOKE ROLE and DROP ROLE,
    each one a transaction. */
module RoleCatalog {
  import opened Wrappers
  import opened Paths

  const MO_ADMIN := "moadmin"
  const ACCOUNT_ADMIN := "accountadmin"
  const PUBLIC := "public"

  /** A row of mo_role_grant (granted role, grantee role) or of mo_user_grant (role, user). */
  datatype GrantRow = GrantRow(granted: Id, grantee: Id, withGrantOption: bool)

  datatype ObjType = TableObj | DatabaseObj | AccountObj | OtherObj

  datatype Level = Star | StarStar | Database | DatabaseStar | DatabaseTable | Table | Routine

  datatype Priv = Priv(id: int)

  /** A row of mo_role_privs; object id 0 stands for all objects. */
  datatype RolePriv = RolePriv(role: Id, obj: ObjType, objId: nat, priv: Priv, level: Level)

  datatype Tables = Tables(
    roles: map<string, Id>,
    users: map<string, Id>,
    roleGrants: set<GrantRow>,
    userGrants: set<GrantRow>,
    rolePrivs: set<RolePriv>)

  datatype Kind = RoleType | UserType

  datatype VerifiedRole = VerifiedRole(kind: Kind, name: string, id: Id, userIsAdmin: bool)

  datatype Refusal =
    | NoSuchRole(name: string)
    | NoSuchRoleOrUser(name: string)
    | SpecialRole(from: string, to: string)
    | RoleGrantedToSelf(from: string, to: string)

  datatype Outcome = Done | Refused(reason: Refusal)

  datatype Stmt =
    | Grant(from: seq<string>, to: seq<string>, withGrantOption: bool)
    | Revoke(from: seq<string>, to: seq<string>, ifExists: bool)
    | Drop(names: seq<string>, ifExists: bool)

  // ---- The role graph a table of grants stands for ----

  ghost function EdgesOf(rows: set<GrantRow>): Edges {
    set r | r in rows :: (r.granted, r.grantee)
  }

  /** `rows` with every key in `keys` present exactly once, carrying the given option. */
  ghost function Overwrite(rows: set<GrantRow>, keys: Edges, option: bool): set<GrantRow> {
    (set r | r in rows && (r.granted, r.grantee) !in keys)
    + (set k | k in keys :: GrantRow(k.0, k.1, option))
  }

  ghost function Without(rows: set<GrantRow>, keys: Edges): set<GrantRow> {
    set r | r in rows && (r.granted, r.grantee) !in keys
  }

  lemma {:induction false} OverwriteEdges(rows: set<GrantRow>, keys: Edges, option: bool)
    ensures EdgesOf(Overwrite(rows, keys, option)) == EdgesOf(rows) + keys
  {
    var res := Overwrite(rows, keys, option);
    forall e
      ensures e in EdgesOf(res) <==> e in EdgesOf(rows) + keys
    {
      if e in keys {
        assert GrantRow(e.0, e.1, option) in res;
      } else if e in EdgesOf(rows) {
        var r :| r in rows && (r.granted, r.grantee) == e;
        assert r in res;
      }
    }
  }

  lemma {:induction false} OverwriteMore(rows: set<GrantRow>, keys: Edges, k: (Id, Id), option: bool)
    ensures Overwrite(Overwrite(rows, keys, option), {k}, option) == Overwrite(rows, keys + {k}, option)
  {}

  /** The check-then-insert-or-update that GRANT runs for one pair. */
  function Upsert(rows: set<GrantRow>, granted: Id, grantee: Id, option: bool): (r: set<GrantRow>)
    ensures r == Overwrite(rows, {(granted, grantee)}, option)
  {
    var hits := set x | x in rows && x.granted == granted && x.grantee == grantee;
    if hits == {} then
      rows + {GrantRow(granted, grantee, option)}
    else if exists x :: x in hits && x.withGrantOption != option then
      (rows - hits) + set x | x in hits :: x.(withGrantOption := option)
    else
      assert forall x :: x in hits ==> x == GrantRow(granted, grantee, option);
      rows
  }

  // ---- Name resolution and the special roles ----

  predicate IsAdminRole(sys: bool, name: string) {
    if sys then name == MO_ADMIN else name == ACCOUNT_ADMIN
  }

  predicate IsPublic(name: string) {
    name == PUBLIC
  }

  function ResolveRole(t: Tables, name: string): Option<VerifiedRole> {
    if name in t.roles then Some(VerifiedRole(RoleType, name, t.roles[name], false)) else None
  }

  predicate UserIsAdministrator(t: Tables, sys: bool, user: Id) {
    var admin := if sys then MO_ADMIN else ACCOUNT_ADMIN;
    admin in t.roles && exists g :: g in t.userGrants && g.granted == t.roles[admin] && g.grantee == user
  }

  /** The name of a role wins over the name of a user. */
  function ResolveGrantee(t: Tables, sys: bool, name: string): Option<VerifiedRole> {
    if name in t.roles then
      ResolveRole(t, name)
    else if name in t.users then
      Some(VerifiedRole(UserType, name, t.users[name], UserIsAdministrator(t, sys, t.users[name])))
    else
      None
  }

  /** The special-role rules of GRANT. */
  predicate SpecialInGrant(sys: bool, from: VerifiedRole, to: VerifiedRole) {
    if IsAdminRole(sys, from.name) && to.kind == UserType && !to.userIsAdmin then
      true
    else if IsAdminRole(sys, from.name) && to.kind == RoleType && !IsAdminRole(sys, to.name) then
      true
    else if !IsAdminRole(sys, from.name) && IsPublic(from.name) && to.kind == RoleType then
      true
    else
      to.kind == RoleType && (IsAdminRole(sys, to.name) || IsPublic(to.name))
  }

  /** The special-role rules of REVOKE. */
  predicate SpecialInRevoke(sys: bool, from: VerifiedRole, to: VerifiedRole) {
    || IsAdminRole(sys, from.name)
    || IsPublic(from.name)
    || (to.kind == RoleType && (IsAdminRole(sys, to.name) || IsPublic(to.name)))
  }

  // ---- What the statements promise ----

  /** Granting `from` to the role `to` alone, on top of `es`, would make a role a member of itself. */
  ghost predicate PairLoops(es: Edges, from: VerifiedRole, to: VerifiedRole) {
    to.kind == RoleType && (from.id == to.id || LoopFrom(es + {(from.id, to.id)}, from.id))
  }

  /** Position (a, b) is visited before position (i, j). */
  predicate Before(a: int, b: int, i: int, j: int) {
    a < i || (a == i && b < j)
  }

  /** The keys of the pairs visited before (i, j) whose grantee is of the given kind. */
  ghost function KeysBefore(from: seq<VerifiedRole>, to: seq<VerifiedRole>, kind: Kind, i: int, j: int): Edges {
    set a, b | 0 <= a < |from| && 0 <= b < |to| && Before(a, b, i, j) && to[b].kind == kind
      :: (from[a].id, to[b].id)
  }

  ghost function Keys(from: seq<VerifiedRole>, to: seq<VerifiedRole>, kind: Kind): Edges {
    KeysBefore(from, to, kind, |from|, 0)
  }

  ghost function Ids(rs: seq<VerifiedRole>): set<Id> {
    set a | 0 <= a < |rs| :: rs[a].id
  }

  ghost function RoleIds(rs: seq<VerifiedRole>): set<Id> {
    set a | 0 <= a < |rs| && rs[a].kind == RoleType :: rs[a].id
  }

  lemma {:induction false} KeysAreProduct(from: seq<VerifiedRole>, to: seq<VerifiedRole>)
    ensures Keys(from, to, RoleType) == Product(Ids(from), RoleIds(to))
  {}

  lemma {:induction false} KeysStep(from: seq<VerifiedRole>, to: seq<VerifiedRole>, kind: Kind, i: nat, j: nat)
    requires i < |from| && j < |to|
    ensures KeysBefore(from, to, kind, i, j + 1)
         == KeysBefore(from, to, kind, i, j) + if to[j].kind == kind then {(from[i].id, to[j].id)} else {}
  {
    var l, r := KeysBefore(from, to, kind, i, j + 1), KeysBefore(from, to, kind, i, j);
    forall k
      ensures k in l <==> k in r || (to[j].kind == kind && k == (from[i].id, to[j].id))
    {
      if k in l {
        var a, b :| 0 <= a < |from| && 0 <= b < |to| &&
          Before(a, b, i, j + 1) && to[b].kind == kind && k == (from[a].id, to[b].id);
        assert Before(a, b, i, j) || (a == i && b == j);
      }
      if k in r {
        var a, b :| 0 <= a < |from| && 0 <= b < |to| &&
          Before(a, b, i, j) && to[b].kind == kind && k == (from[a].id, to[b].id);
        assert Before(a, b, i, j + 1);
      }
      if to[j].kind == kind && k == (from[i].id, to[j].id) {
        assert Before(i, j, i, j + 1);
      }
    }
  }

  lemma {:induction false} KeysRowEnd(from: seq<VerifiedRole>, to: seq<VerifiedRole>, kind: Kind, i: nat)
    ensures KeysBefore(from, to, kind, i, |to|) == KeysBefore(from, to, kind, i + 1, 0)
  {}

  /** Every pair up to (i, j) passes the special-role rules and the one-at-a-time loop test. */
  ghost predicate PairsPass(es: Edges, sys: bool, from: seq<VerifiedRole>, to: seq<VerifiedRole>, i: int, j: int) {
    forall a, b :: 0 <= a < |from| && 0 <= b < |to| && Before(a, b, i, j) ==>
      !SpecialInGrant(sys, from[a], to[b]) && !PairLoops(es, from[a], to[b])
  }

  predicate RolesKnown(t: Tables, names: seq<string>) {
    forall k :: 0 <= k < |names| ==> names[k] in t.roles
  }

  predicate GranteesKnown(t: Tables, names: seq<string>) {
    forall k :: 0 <= k < |names| ==> names[k] in t.roles || names[k] in t.users
  }

  ghost function RolesNamed(t: Tables, names: seq<string>): (rs: seq<VerifiedRole>)
    requires RolesKnown(t, names)
    ensures |rs| == |names|
    ensures forall k :: 0 <= k < |names| ==> Some(rs[k]) == ResolveRole(t, names[k])
  {
    seq(|names|, k requires 0 <= k < |names| => ResolveRole(t, names[k]).value)
  }

  ghost function GranteesNamed(t: Tables, sys: bool, names: seq<string>): (rs: seq<VerifiedRole>)
    requires GranteesKnown(t, names)
    ensures |rs| == |names|
    ensures forall k :: 0 <= k < |names| ==> Some(rs[k]) == ResolveGrantee(t, sys, names[k])
  {
    seq(|names|, k requires 0 <= k < |names| => ResolveGrantee(t, sys, names[k]).value)
  }

  /** Specification of GRANT: it takes effect on the whole product of roles and grantees, or on
      nothing. A refusal names what was unknown, or the first pair that did not pass. */
  ghost predicate GrantSpec(t: Tables, sys: bool, s: Stmt, t': Tables, o: Outcome) {
    && s.Grant?
    && (o.Refused? ==> t' == t)
    && (o == Done ==> RolesKnown(t, s.from) && GranteesKnown(t, s.to))
    && (o == Done ==> GrantDone(t, sys, s, t', RolesNamed(t, s.from), GranteesNamed(t, sys, s.to)))
    && (o.Refused? && o.reason.NoSuchRole? ==>
          !RolesKnown(t, s.from) && o.reason.name in s.from && o.reason.name !in t.roles)
    && (o.Refused? && o.reason.NoSuchRoleOrUser? ==>
          !GranteesKnown(t, s.to) && o.reason.name in s.to && o.reason.name !in t.roles && o.reason.name !in t.users)
    && (o.Refused? && (o.reason.SpecialRole? || o.reason.RoleGrantedToSelf?) ==>
          RolesKnown(t, s.from) && GranteesKnown(t, s.to))
    && (o.Refused? && (o.reason.SpecialRole? || o.reason.RoleGrantedToSelf?) ==>
          exists i, j :: StoppedAt(EdgesOf(t.roleGrants), sys, RolesNamed(t, s.from),
                               GranteesNamed(t, sys, s.to), i, j, o.reason))
  }

  ghost predicate GrantDone(t: Tables, sys: bool, s: Stmt, t': Tables, from: seq<VerifiedRole>, to: seq<VerifiedRole>)
    requires s.Grant?
  {
    && PairsPass(EdgesOf(t.roleGrants), sys, from, to, |from|, 0)
    && t' == t.(roleGrants := Overwrite(t.roleGrants, Keys(from, to, RoleType), s.withGrantOption),
                userGrants := Overwrite(t.userGrants, Keys(from, to, UserType), s.withGrantOption))
  }

  /** (i, j) is the first pair, in the order of the statement, that does not pass. */
  ghost predicate StoppedAt(es: Edges, sys: bool, from: seq<VerifiedRole>, to: seq<VerifiedRole>, i: int, j: int,
                            why: Refusal)
    requires why.SpecialRole? || why.RoleGrantedToSelf?
  {
    && 0 <= i < |from| && 0 <= j < |to|
    && why.from == from[i].name && why.to == to[j].name
    && PairsPass(es, sys, from, to, i, j)
    && (why.SpecialRole? <==> SpecialInGrant(sys, from[i], to[j]))
    && (why.RoleGrantedToSelf? ==> PairLoops(es, from[i], to[j]))
  }

  /** The grantees of a REVOKE that exist; the others are skipped under IF EXISTS. */
  ghost function ExistingGrantees(t: Tables, sys: bool, names: seq<string>): seq<VerifiedRole> {
    if names == [] then []
    else
      var rest := ExistingGrantees(t, sys, names[..|names| - 1]);
      match ResolveGrantee(t, sys, names[|names| - 1])
      case None => rest
      case Some(r) => rest + [r]
  }

  /** Specification of REVOKE: a refused one changes nothing, a successful one deletes exactly the
      rows of the product. */
  ghost predicate RevokeSpec(t: Tables, sys: bool, s: Stmt, t': Tables, o: Outcome) {
    && s.Revoke?
    && (o.Refused? ==> t' == t && RevokeMayRefuse(t, sys, s, o.reason))
    && (o == Done ==> RolesKnown(t, s.from) && (s.ifExists || GranteesKnown(t, s.to)))
    && (o == Done ==> RevokeDone(t, sys, t', RolesNamed(t, s.from), ExistingGrantees(t, sys, s.to)))
  }

  ghost predicate RevokeMayRefuse(t: Tables, sys: bool, s: Stmt, why: Refusal)
    requires s.Revoke?
  {
    match why
    case NoSuchRoleOrUser(n) => !s.ifExists && n in s.to && n !in t.roles && n !in t.users
    case NoSuchRole(n) => n in s.from && n !in t.roles
    case SpecialRole(f, g) =>
      && f in s.from && ResolveRole(t, f).Some?
      && g in s.to && ResolveGrantee(t, sys, g).Some?
      && SpecialInRevoke(sys, ResolveRole(t, f).value, ResolveGrantee(t, sys, g).value)
    case RoleGrantedToSelf(_, _) => false
  }

  ghost predicate RevokeDone(t: Tables, sys: bool, t': Tables, from: seq<VerifiedRole>, to: seq<VerifiedRole>) {
    && (forall a, b :: 0 <= a < |from| && 0 <= b < |to| ==> !SpecialInRevoke(sys, from[a], to[b]))
    && t' == t.(roleGrants := Without(t.roleGrants, Keys(from, to, RoleType)),
                userGrants := Without(t.userGrants, Keys(from, to, UserType)))
  }

  /** What remains of the tables when the roles with the given ids are gone. */
  ghost function Purged(t: Tables, ids: set<Id>): Tables {
    t.(roles := (map n | n in t.roles && t.roles[n] !in ids :: t.roles[n]),
       roleGrants := (set r | r in t.roleGrants && r.granted !in ids && r.grantee !in ids),
       userGrants := (set r | r in t.userGrants && r.granted !in ids),
       rolePrivs := (set r | r in t.rolePrivs && r.role !in ids))
  }

  ghost function IdsOfNames(t: Tables, names: seq<string>): set<Id> {
    set n | n in names && n in t.roles :: t.roles[n]
  }

  /** The k-th name of a DROP still exists when its turn comes: it is a role and was not dropped
      under an earlier position. */
  ghost predicate StillThere(t: Tables, names: seq<string>, k: nat)
    requires k < |names|
  {
    names[k] in t.roles && t.roles[names[k]] !in IdsOfNames(t, names[..k])
  }

  /** Specification of DROP: a refused one changes nothing, a successful one removes the named
      roles, every grant that mentions them, and their privileges. */
  ghost predicate DropSpec(t: Tables, sys: bool, s: Stmt, t': Tables, o: Outcome) {
    s.Drop? &&
    if o.Refused? then
      && t' == t
      && (|| (o.reason.NoSuchRole? && !s.ifExists
              && exists k :: 0 <= k < |s.names| && s.names[k] == o.reason.name && !StillThere(t, s.names, k))
          || (o.reason.SpecialRole?
              && exists k :: 0 <= k < |s.names| && s.names[k] == o.reason.from && StillThere(t, s.names, k)
                             && (IsAdminRole(sys, s.names[k]) || IsPublic(s.names[k]))))
    else
      && (s.ifExists || forall k :: 0 <= k < |s.names| ==> StillThere(t, s.names, k))
      && (forall k :: 0 <= k < |s.names| && StillThere(t, s.names, k) ==>
            !IsAdminRole(sys, s.names[k]) && !IsPublic(s.names[k]))
      && t' == Purged(t, IdsOfNames(t, s.names))
  }

  ghost predicate Next(t: Tables, sys: bool, s: Stmt, t': Tables, o: Outcome) {
    match s
    case Grant(_, _, _) => GrantSpec(t, sys, s, t', o)
    case Revoke(_, _, _) => RevokeSpec(t, sys, s, t', o)
    case Drop(_, _) => DropSpec(t, sys, s, t', o)
  }

  // ---- Safety over whole runs ----

  /** Passing the one-at-a-time loop test for every pair is the same as the whole product staying
      acyclic: GRANT is refused for a loop exactly when its full product would close a cycle. */
  lemma {:induction false} PairTestsDecideProduct(es: Edges, from: seq<VerifiedRole>, to: seq<VerifiedRole>)
    requires Acyclic(es)
    ensures Acyclic(es + Product(Ids(from), RoleIds(to))) <==>
            forall a, b :: 0 <= a < |from| && 0 <= b < |to| ==> !PairLoops(es, from[a], to[b])
  {
    ProductAcyclic(es, Ids(from), RoleIds(to));
    forall a, b | 0 <= a < |from| && 0 <= b < |to| && to[b].kind == RoleType
      ensures PairLoops(es, from[a], to[b]) <==> Reaches(es, to[b].id, from[a].id)
    {
      SingleEdgeLoop(es, from[a].id, to[b].id);
      ReachesRefl(es, from[a].id);
    }
    if BackPath(es, Ids(from), RoleIds(to)) {
      var f, t :| f in Ids(from) && t in RoleIds(to) && Reaches(es, t, f);
      var a :| 0 <= a < |from| && from[a].id == f;
      var b :| 0 <= b < |to| && to[b].kind == RoleType && to[b].id == t;
      assert PairLoops(es, from[a], to[b]);
    }
  }

  /** With all names known and all special-role rules met, GRANT succeeds if and only if the old
      edges plus the whole product have no cycle. */
  lemma {:induction false} GrantRefusedIffProductCycles(t: Tables, sys: bool, s: Stmt, t': Tables, o: Outcome)
    requires Acyclic(EdgesOf(t.roleGrants))
    requires GrantSpec(t, sys, s, t', o)
    requires RolesKnown(t, s.from) && GranteesKnown(t, s.to)
    requires NoSpecial(sys, RolesNamed(t, s.from), GranteesNamed(t, sys, s.to))
    ensures o == Done <==>
            Acyclic(EdgesOf(t.roleGrants) + Product(Ids(RolesNamed(t, s.from)), RoleIds(GranteesNamed(t, sys, s.to))))
    ensures o != Done ==> o.reason.RoleGrantedToSelf? && t' == t
  {
    var es, from, to := EdgesOf(t.roleGrants), RolesNamed(t, s.from), GranteesNamed(t, sys, s.to);
    PairTestsDecideProduct(es, from, to);
    if o == Done {
      AllPairsPass(es, sys, from, to);
    } else {
      var i, j :| StoppedAt(es, sys, from, to, i, j, o.reason);
    }
  }

  ghost predicate NoSpecial(sys: bool, from: seq<VerifiedRole>, to: seq<VerifiedRole>) {
    forall a, b :: 0 <= a < |from| && 0 <= b < |to| ==> !SpecialInGrant(sys, from[a], to[b])
  }

  lemma {:induction false} AllPairsPass(es: Edges, sys: bool, from: seq<VerifiedRole>, to: seq<VerifiedRole>)
    requires PairsPass(es, sys, from, to, |from|, 0)
    ensures forall a, b :: 0 <= a < |from| && 0 <= b < |to| ==> !PairLoops(es, from[a], to[b])
  {}

  lemma {:induction false} FewerRowsFewerEdges(rows: set<GrantRow>, rows': set<GrantRow>)
    requires rows <= rows'
    ensures EdgesOf(rows) <= EdgesOf(rows')
  {}

  lemma {:induction false} GrantKeepsAcyclic(t: Tables, sys: bool, s: Stmt, t': Tables, from: seq<VerifiedRole>,
                                             to: seq<VerifiedRole>)
    requires Acyclic(EdgesOf(t.roleGrants)) && s.Grant? && GrantDone(t, sys, s, t', from, to)
    ensures Acyclic(EdgesOf(t'.roleGrants))
  {
    KeysAreProduct(from, to);
    OverwriteEdges(t.roleGrants, Keys(from, to, RoleType), s.withGrantOption);
    AllPairsPass(EdgesOf(t.roleGrants), sys, from, to);
    PairTestsDecideProduct(EdgesOf(t.roleGrants), from, to);
  }

  lemma {:induction false} NextKeepsAcyclic(t: Tables, sys: bool, s: Stmt, t': Tables, o: Outcome)
    requires Acyclic(EdgesOf(t.roleGrants)) && Next(t, sys, s, t', o)
    ensures Acyclic(EdgesOf(t'.roleGrants))
  {
    if s.Grant? && o == Done {
      GrantKeepsAcyclic(t, sys, s, t', RolesNamed(t, s.from), GranteesNamed(t, sys, s.to));
    } else {
      assert t'.roleGrants <= t.roleGrants;
      FewerRowsFewerEdges(t'.roleGrants, t.roleGrants);
      SubgraphAcyclic(EdgesOf(t'.roleGrants), EdgesOf(t.roleGrants));
    }
  }

  /** A serial run: one statement after another, each against the tables the previous one left. */
  ghost predicate IsRun(sys: bool, ts: seq<Tables>, ss: seq<Stmt>, os: seq<Outcome>) {
    && |ts| == |ss| + 1
    && |os| == |ss|
    && forall k :: 0 <= k < |ss| ==> Next(ts[k], sys, ss[k], ts[k + 1], os[k])
  }

  /** Starting from an empty mo_role_grant, the role graph is acyclic at every point of every run. */
  lemma {:induction false} RunsStayAcyclic(sys: bool, ts: seq<Tables>, ss: seq<Stmt>, os: seq<Outcome>, k: nat)
    requires IsRun(sys, ts, ss, os) && ts[0].roleGrants == {}
    requires k < |ts|
    ensures Acyclic(EdgesOf(ts[k].roleGrants))
  {
    if k == 0 {
      assert EdgesOf({}) == {};
      forall v
        ensures !ReachesPlus({}, v, v)
      {
        if ReachesPlus({}, v, v) {
          var w := FirstEdge({}, v, v);
        }
      }
    } else {
      RunsStayAcyclic(sys, ts, ss, os, k - 1);
      NextKeepsAcyclic(ts[k - 1], sys, ss[k - 1], ts[k], os[k - 1]);
    }
  }
}
