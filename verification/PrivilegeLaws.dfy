/** Roles and privileges on the rows of the tables: what the predicates of the searches and of the
    privilege check come down to. */
module PrivilegeLaws {
  import opened Wrappers
  import opened Paths
  import opened RoleCatalog
  import opened RoleSearch
  import opened Privileges
  import opened PrivilegeAnswers

  // ---- A role has a privilege ----

  /** The row gives the role this privilege on objects of this type. */
  predicate Gives(r: RolePriv, role: Id, x: Target) {
    r.role == role && r.obj == x.obj && r.priv == x.priv
  }

  /** On the account: a row for all objects at level "*". */
  lemma {:induction false} AccountPrivilege(c: Catalog, a: Asker, role: Id, x: Target)
    requires x.obj == AccountObj
    ensures HasPrivilege(c, a, role, x) <==>
      exists r :: r in c.grants.rolePrivs && Gives(r, role, x) && r.objId == 0 && r.level == Star
  {
    assert Levels(AccountObj)[0] == Star;
  }

  /** The row is one for all databases, or for the database itself. */
  ghost predicate CoversDatabase(c: Catalog, r: RolePriv, db: string) {
    || (r.objId == 0 && (r.level == Star || r.level == StarStar))
    || (r.level == Database && DbRow(r.objId, db) in c.dbs)
  }

  /** On a database, which is the current one if none is named. */
  lemma {:induction false} DatabasePrivilege(c: Catalog, a: Asker, role: Id, x: Target)
    requires x.obj == DatabaseObj
    ensures HasPrivilege(c, a, role, x) <==>
      exists r :: r in c.grants.rolePrivs && Gives(r, role, x)
        && CoversDatabase(c, r, if x.db == "" then a.db else x.db)
  {
    var db := if x.db == "" then a.db else x.db;
    assert Levels(DatabaseObj)[0] == Database && Levels(DatabaseObj)[1] == Star && Levels(DatabaseObj)[2] == StarStar;
    if r :| r in c.grants.rolePrivs && Gives(r, role, x) && CoversDatabase(c, r, db) {
      if r.level == Database && DbRow(r.objId, db) in c.dbs {
        assert InDbQuery(c, role, DatabaseObj, {Database}, db, x.priv);
      } else {
        assert GlobalQuery(c, role, DatabaseObj, r.level, x.priv);
      }
    }
    if HasPrivilege(c, a, role, x) {
      var k :| 0 <= k < |Levels(x.obj)| && Query(c, role, x.obj, Levels(x.obj)[k], db, x.tab, x.priv) == Some(true);
      if k == 0 {
        var r, d :| r in c.grants.rolePrivs && d in c.dbs && r.role == role && r.obj == DatabaseObj && r.priv == x.priv
          && r.level == Database && d.id == r.objId && d.name == db;
        assert d == DbRow(r.objId, db) && CoversDatabase(c, r, db);
      } else {
        var r :| r in c.grants.rolePrivs && r.role == role && r.obj == DatabaseObj && r.priv == x.priv
          && r.objId == 0 && r.level == Levels(x.obj)[k];
        assert CoversDatabase(c, r, db);
      }
    }
  }

  /** The row is one for all tables, for all tables of the database, or for the table itself. */
  ghost predicate CoversTable(c: Catalog, r: RolePriv, db: string, tab: string) {
    || (r.objId == 0 && r.level == StarStar)
    || ((r.level == DatabaseStar || r.level == Star) && DbRow(r.objId, db) in c.dbs)
    || ((r.level == DatabaseTable || r.level == Table) && TableIn(c, r.objId, db, tab))
  }

  /** The table with this id has this name and is in a database of this name. */
  ghost predicate TableIn(c: Catalog, id: nat, db: string, tab: string) {
    exists dbId :: DbRow(dbId, db) in c.dbs && TableRow(id, tab, dbId) in c.tables
  }

  /** On a table. */
  lemma {:induction false} TablePrivilege(c: Catalog, a: Asker, role: Id, x: Target)
    requires x.obj == TableObj
    ensures HasPrivilege(c, a, role, x) <==>
      exists r :: r in c.grants.rolePrivs && Gives(r, role, x)
        && CoversTable(c, r, if x.db == "" then a.db else x.db, x.tab)
  {
    var db := if x.db == "" then a.db else x.db;
    if r :| r in c.grants.rolePrivs && Gives(r, role, x) && CoversTable(c, r, db, x.tab) {
      CoveredTableHeld(c, a, role, x, db, r);
    }
    if HasPrivilege(c, a, role, x) {
      var k :| 0 <= k < |Levels(x.obj)| && Query(c, role, x.obj, Levels(x.obj)[k], db, x.tab, x.priv) == Some(true);
      var r := HeldTableCovered(c, role, x, db, k);
    }
  }

  lemma {:induction false} CoveredTableHeld(c: Catalog, a: Asker, role: Id, x: Target, db: string, r: RolePriv)
    requires x.obj == TableObj && db == FullDb(a, x.db) && r in c.grants.rolePrivs && Gives(r, role, x)
    requires CoversTable(c, r, db, x.tab)
    ensures HasPrivilege(c, a, role, x)
  {
    var ls := Levels(TableObj);
    assert ls[0] == StarStar && ls[1] == DatabaseStar && ls[3] == DatabaseTable;
    if r.objId == 0 && r.level == StarStar {
      assert GlobalQuery(c, role, TableObj, StarStar, x.priv);
      assert Query(c, role, x.obj, ls[0], db, x.tab, x.priv) == Some(true);
    } else if r.level == DatabaseStar || r.level == Star {
      assert InDbQuery(c, role, TableObj, {DatabaseStar, Star}, db, x.priv);
      assert Query(c, role, x.obj, ls[1], db, x.tab, x.priv) == Some(true);
    } else {
      var dbId :| DbRow(dbId, db) in c.dbs && TableRow(r.objId, x.tab, dbId) in c.tables;
      TableQueryHolds(c, role, db, x.tab, x.priv, r, DbRow(dbId, db), TableRow(r.objId, x.tab, dbId));
      assert Query(c, role, x.obj, ls[3], db, x.tab, x.priv) == Some(true);
    }
  }

  lemma {:induction false} TableQueryHolds(c: Catalog, role: Id, db: string, tab: string, priv: Priv, r: RolePriv,
                                           d: DbRow, t: TableRow)
    requires r in c.grants.rolePrivs && d in c.dbs && t in c.tables
    requires r.role == role && r.obj == TableObj && r.priv == priv && (r.level == DatabaseTable || r.level == Table)
    requires d.id == t.dbId && r.objId == t.id && d.name == db && t.name == tab
    ensures TableQuery(c, role, db, tab, priv)
  {}

  lemma {:induction false} HeldTableCovered(c: Catalog, role: Id, x: Target, db: string, k: nat) returns (r: RolePriv)
    requires x.obj == TableObj && k < |Levels(x.obj)|
    requires Query(c, role, x.obj, Levels(x.obj)[k], db, x.tab, x.priv) == Some(true)
    ensures r in c.grants.rolePrivs && Gives(r, role, x) && CoversTable(c, r, db, x.tab)
  {
    if k == 0 {
      r :| r in c.grants.rolePrivs && r.role == role && r.obj == TableObj && r.priv == x.priv
        && r.objId == 0 && r.level == StarStar;
    } else if k <= 2 {
      var d;
      r, d :| r in c.grants.rolePrivs && d in c.dbs && r.role == role && r.obj == TableObj && r.priv == x.priv
        && r.level in {DatabaseStar, Star} && d.id == r.objId && d.name == db;
      assert d == DbRow(r.objId, db);
    } else {
      var d, t;
      r, d, t :| r in c.grants.rolePrivs && d in c.dbs && t in c.tables && r.role == role && r.obj == TableObj
        && r.priv == x.priv && r.level in {DatabaseTable, Table}
        && d.id == t.dbId && r.objId == t.id && d.name == db && t.name == x.tab;
      assert d == DbRow(d.id, db) && t == TableRow(r.objId, x.tab, d.id);
    }
  }

  /** On anything else nobody has a privilege. */
  lemma {:induction false} OtherPrivilege(c: Catalog, a: Asker, role: Id, x: Target)
    ensures HasPrivilege(c, a, role, x) ==> x.obj != OtherObj
  {}

  // ---- Which roles an asker has, and may pass on ----

  /** The default role, or, with secondary roles, any role that was granted to the user. */
  ghost predicate InUse(t: Tables, ses: Session, role: Id) {
    || role == ses.defaultRole
    || (ses.useSecondaryRoles && exists r :: r in t.userGrants && r.granted == role && r.grantee == ses.userId)
  }

  ghost predicate Granted(t: Tables, granted: Id, grantee: Id) {
    exists r :: r in t.roleGrants && r.granted == granted && r.grantee == grantee
  }

  /** A chain of roles from one in use, each granted to the one in front of it. */
  ghost predicate InheritsAlong(t: Tables, ses: Session, role: Id, p: seq<Id>) {
    && |p| > 0 && InUse(t, ses, p[0]) && p[|p| - 1] == role
    && forall i :: 0 <= i < |p| - 1 ==> Granted(t, p[i + 1], p[i])
  }

  lemma {:induction false} InheritEdge(t: Tables, u: Id, v: Id)
    ensures (u, v) in InheritEdges(t) <==> Granted(t, v, u)
  {
    if Granted(t, v, u) {
      var r :| r in t.roleGrants && r.granted == v && r.grantee == u;
      assert (r.grantee, r.granted) == (u, v);
    }
  }

  /** A role is inherited over such a chain of grants. */
  lemma {:induction false} InheritedIff(c: Catalog, a: Asker, role: Id)
    ensures Inherited(c, a, role) <==> exists p :: InheritsAlong(c.grants, a.ses, role, p)
  {
    if Inherited(c, a, role) {
      var s :| s in RolesInUse(c.grants, a.ses) && Reaches(InheritEdges(c.grants), s, role);
      var p :| IsPath(InheritEdges(c.grants), s, role, p);
      PathInherits(c.grants, a.ses, s, role, p);
    }
    if p :| InheritsAlong(c.grants, a.ses, role, p) {
      InheritsPath(c.grants, a.ses, role, p);
      assert p[0] in RolesInUse(c.grants, a.ses);
    }
  }

  lemma {:induction false} PathInherits(t: Tables, ses: Session, s: Id, role: Id, p: seq<Id>)
    requires s in RolesInUse(t, ses) && IsPath(InheritEdges(t), s, role, p)
    ensures InheritsAlong(t, ses, role, p)
  {
    forall i | 0 <= i < |p| - 1
      ensures Granted(t, p[i + 1], p[i])
    {
      assert (p[i], p[i + 1]) in InheritEdges(t);
      InheritEdge(t, p[i], p[i + 1]);
    }
  }

  lemma {:induction false} InheritsPath(t: Tables, ses: Session, role: Id, p: seq<Id>)
    requires InheritsAlong(t, ses, role, p)
    ensures IsPath(InheritEdges(t), p[0], role, p)
  {
    forall i | 0 <= i < |p| - 1
      ensures (p[i], p[i + 1]) in InheritEdges(t)
    {
      InheritEdge(t, p[i], p[i + 1]);
    }
  }

  /** A chain of roles to one in use, each granted with grant option to the one behind it. */
  ghost predicate PassedAlong(t: Tables, ses: Session, role: Id, p: seq<Id>) {
    && |p| > 1 && p[0] == role && InUse(t, ses, p[|p| - 1])
    && forall i :: 0 <= i < |p| - 1 ==> GrantRow(p[i], p[i + 1], true) in t.roleGrants
  }

  /** A role may be passed on if it is in use and was granted to the user with grant option, or if such a
      chain of one or more grants leads from it to a role in use. */
  lemma {:induction false} CanPassOnIff(t: Tables, ses: Session, role: Id)
    ensures CanPassOn(t, ses, role) <==>
      || (InUse(t, ses, role) && GrantRow(role, ses.userId, true) in t.userGrants)
      || exists p :: PassedAlong(t, ses, role, p)
  {
    LinkedIff(t, ses, role);
    if GrantedWithOption(t, role, ses.userId) {
      var g :| g in t.userGrants && g.withGrantOption && g.granted == role && g.grantee == ses.userId;
      assert g == GrantRow(role, ses.userId, true);
    }
  }

  lemma {:induction false} OptionEdge(t: Tables, u: Id, v: Id)
    ensures (u, v) in OptionEdges(t) <==> GrantRow(u, v, true) in t.roleGrants
  {
    if (u, v) in OptionEdges(t) {
      var r :| r in t.roleGrants && r.withGrantOption && (r.granted, r.grantee) == (u, v);
      assert r == GrantRow(u, v, true);
    }
    if GrantRow(u, v, true) in t.roleGrants {
      var r := GrantRow(u, v, true);
      assert (r.granted, r.grantee) == (u, v);
    }
  }

  lemma {:induction false} LinkedIff(t: Tables, ses: Session, role: Id)
    ensures LinkedToUse(t, RolesInUse(t, ses), role) <==> exists p :: PassedAlong(t, ses, role, p)
  {
    if LinkedToUse(t, RolesInUse(t, ses), role) {
      var u :| u in RolesInUse(t, ses) && ReachesPlus(OptionEdges(t), role, u);
      var p :| IsPath(OptionEdges(t), role, u, p) && |p| > 1;
      PathPasses(t, ses, role, u, p);
    }
    if p :| PassedAlong(t, ses, role, p) {
      PassesPath(t, ses, role, p);
      assert p[|p| - 1] in RolesInUse(t, ses);
    }
  }

  lemma {:induction false} PathPasses(t: Tables, ses: Session, role: Id, u: Id, p: seq<Id>)
    requires u in RolesInUse(t, ses) && IsPath(OptionEdges(t), role, u, p) && |p| > 1
    ensures PassedAlong(t, ses, role, p)
  {
    forall i | 0 <= i < |p| - 1
      ensures GrantRow(p[i], p[i + 1], true) in t.roleGrants
    {
      assert (p[i], p[i + 1]) in OptionEdges(t);
      OptionEdge(t, p[i], p[i + 1]);
    }
  }

  lemma {:induction false} PassesPath(t: Tables, ses: Session, role: Id, p: seq<Id>)
    requires PassedAlong(t, ses, role, p)
    ensures IsPath(OptionEdges(t), role, p[|p| - 1], p)
  {
    forall i | 0 <= i < |p| - 1
      ensures (p[i], p[i + 1]) in OptionEdges(t)
    {
      OptionEdge(t, p[i], p[i + 1]);
    }
  }

  /** A privilege may be passed on if some role that holds it with grant option is in use, or is at the
      start of such a chain. */
  lemma {:induction false} CanPassPrivilegeIff(t: Tables, ses: Session, holders: set<Id>)
    ensures CanPassPrivilege(t, ses, holders) <==>
      exists r :: r in holders && (InUse(t, ses, r) || exists p :: PassedAlong(t, ses, r, p))
  {
    forall r | r in holders
      ensures r in RolesInUse(t, ses) || LinkedToUse(t, RolesInUse(t, ses), r) <==>
        InUse(t, ses, r) || exists p :: PassedAlong(t, ses, r, p)
    {
      LinkedIff(t, ses, r);
    }
  }

  // ---- What a set of privileges asks for ----

  /** The user writes to a database that only the system writes. */
  predicate WritesSystem(a: Asker, ps: PrivilegeSet, x: Target) {
    && a.realUser && ps.writesDirectly
    && (if x.db == "" then a.db else x.db) in {"mo_catalog", "information_schema", "system", "system_metrics", "mysql"}
  }

  ghost predicate TargetMet(c: Catalog, a: Asker, ps: PrivilegeSet, role: Id, x: Target) {
    HasPrivilege(c, a, role, x) && !WritesSystem(a, ps, x)
  }

  ghost predicate ItemMet(c: Catalog, a: Asker, ps: PrivilegeSet, role: Id, item: Item) {
    match item
    case GrantItem(name, _) => name in c.grants.roles && CanPassOn(c.grants, a.ses, c.grants.roles[name])
    case PrivItem(x) => TargetMet(c, a, ps, role, x)
  }

  ghost predicate EntryMet(c: Catalog, a: Asker, ps: PrivilegeSet, role: Id, e: Entry) {
    match e
    case General(x) => TargetMet(c, a, ps, role, x)
    case Compound(None) => false
    case Compound(Some(items)) => forall item :: item in items ==> ItemMet(c, a, ps, role, item)
  }

  /** A set is satisfied when one role of the asker meets one of its entries, and every item of it. */
  lemma {:induction false} UserOkIff(c: Catalog, a: Asker, ps: PrivilegeSet)
    ensures UserOk(c, a, ps) <==>
      exists role, e :: Inherited(c, a, role) && e in ps.entries && EntryMet(c, a, ps, role, e)
  {
    if UserOk(c, a, ps) {
      var role :| Inherited(c, a, role) && RoleOk(c, a, ps, role);
      var k :| 0 <= k < |ps.entries| && EntryOk(c, a, ps.writesDirectly, role, ps.entries[k]);
      EntryMetIff(c, a, ps, role, ps.entries[k]);
      assert ps.entries[k] in ps.entries;
    }
    if role, e :| Inherited(c, a, role) && e in ps.entries && EntryMet(c, a, ps, role, e) {
      var k :| 0 <= k < |ps.entries| && ps.entries[k] == e;
      EntryMetIff(c, a, ps, role, e);
      assert RoleOk(c, a, ps, role);
    }
  }

  lemma {:induction false} EntryMetIff(c: Catalog, a: Asker, ps: PrivilegeSet, role: Id, e: Entry)
    ensures EntryMet(c, a, ps, role, e) <==> EntryOk(c, a, ps.writesDirectly, role, e)
  {
    match e
    case General(x) =>
      assert [PrivItem(x)][0] == PrivItem(x);
      ItemMetIff(c, a, ps, role, PrivItem(x));
    case Compound(None) =>
    case Compound(Some(items)) =>
      forall k | 0 <= k < |items|
        ensures ItemMet(c, a, ps, role, items[k]) <==> ItemOk(c, a, ps.writesDirectly, role, items[k])
      {
        ItemMetIff(c, a, ps, role, items[k]);
      }
      EveryItem(c, a, ps, role, items);
  }

  lemma {:induction false} EveryItem(c: Catalog, a: Asker, ps: PrivilegeSet, role: Id, items: seq<Item>)
    ensures (forall item :: item in items ==> ItemMet(c, a, ps, role, item)) <==>
      forall k :: 0 <= k < |items| ==> ItemMet(c, a, ps, role, items[k])
  {}

  lemma {:induction false} ItemMetIff(c: Catalog, a: Asker, ps: PrivilegeSet, role: Id, item: Item)
    ensures ItemMet(c, a, ps, role, item) <==> ItemOk(c, a, ps.writesDirectly, role, item)
  {}

  /** The right to grant a role in CREATE USER: an unknown role is an error, and so is the administrator role
      for somebody if the asker may pass it on. */
  lemma {:induction false} GrantItemAnswer(c: Catalog, a: Asker, writes: bool, facts: Facts, role: Id, name: string,
                                           users: seq<string>)
    ensures var s, admin := ItemStep(c, a, writes, facts, role, GrantItem(name, users)),
                            if a.sys then "moadmin" else "accountadmin";
      && s.facts == facts
      && (s.r == Ok(false) <==> name in c.grants.roles && !CanPassOn(c.grants, a.ses, c.grants.roles[name]))
      && (s.r == Err <==>
            || name !in c.grants.roles
            || (users != [] && name == admin && CanPassOn(c.grants, a.ses, c.grants.roles[name])))
  {}

  // ---- Consequences for every history ----

  /** After any history of checks, a real user who writes to a database of the system in every entry of a
      set is never told yes. */
  lemma {:induction false} SystemNeverGranted(c: Catalog, a: Asker, pss: seq<PrivilegeSet>, ps: PrivilegeSet)
    requires forall e :: e in ps.entries ==> WritesSystemIn(a, ps, e)
    ensures CheckStep(c, a, After(c, a, pss), ps).r != Ok(true)
  {
    AnswerBetween(c, a, pss, ps);
    if Pooled(c, a, ps) {
      var k :| 0 <= k < |ps.entries| && EntryPooled(c, a, MyRoles(c, a), ps.writesDirectly, ps.entries[k]);
      assert WritesSystemIn(a, ps, ps.entries[k]);
      SystemNotPooled(c, a, MyRoles(c, a), ps, ps.entries[k]);
    }
  }

  ghost predicate WritesSystemIn(a: Asker, ps: PrivilegeSet, e: Entry) {
    match e
    case General(x) => WritesSystem(a, ps, x)
    case Compound(None) => false
    case Compound(Some(items)) =>
      exists k :: 0 <= k < |items| && items[k].PrivItem? && WritesSystem(a, ps, items[k].target)
  }

  lemma {:induction false} SystemNotPooled(c: Catalog, a: Asker, mine: iset<Id>, ps: PrivilegeSet, e: Entry)
    requires WritesSystemIn(a, ps, e)
    ensures !EntryPooled(c, a, mine, ps.writesDirectly, e)
  {
    var items := Parts(e).value;
    var k :| 0 <= k < |items| && items[k].PrivItem? && WritesSystem(a, ps, items[k].target);
    assert !ItemPooled(c, a, mine, ps.writesDirectly, items[k]);
  }
}
