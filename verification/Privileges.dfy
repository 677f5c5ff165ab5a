/** Privilege rows, the queries over them, and what it means for a role to satisfy a privilege set. */
module Privileges {
  import opened Wrappers
  import opened Paths
  import opened RoleCatalog
  import opened RoleSearch

  /** A row of mo_database, a row of mo_tables. */
  datatype DbRow = DbRow(id: nat, name: string)
  datatype TableRow = TableRow(id: nat, name: string, dbId: nat)

  datatype Catalog = Catalog(grants: Tables, dbs: set<DbRow>, tables: set<TableRow>)

  /** The order in which the levels of an object type are tried; other types have none. */
  function Levels(obj: ObjType): seq<Level> {
    match obj
    case AccountObj => [Star]
    case DatabaseObj => [Database, Star, StarStar]
    case TableObj => [StarStar, DatabaseStar, Star, DatabaseTable, Table]
    case OtherObj => []
  }

  /** Whether the row is one for the given role, object type and privilege. */
  predicate RowFor(x: RolePriv, role: Id, obj: ObjType, priv: Priv) {
    x.role == role && x.obj == obj && x.priv == priv
  }

  /** The query of a privilege at one level: whether it returns a row, or that the level is
      unsupported for the object type. */
  function Query(c: Catalog, role: Id, obj: ObjType, pl: Level, db: string, tab: string, priv: Priv): Option<bool> {
    match (obj, pl)
    case (TableObj, DatabaseTable) => Some(TableQuery(c, role, db, tab, priv))
    case (TableObj, Table) => Some(TableQuery(c, role, db, tab, priv))
    case (TableObj, DatabaseStar) => Some(InDbQuery(c, role, obj, {DatabaseStar, Star}, db, priv))
    case (TableObj, Star) => Some(InDbQuery(c, role, obj, {DatabaseStar, Star}, db, priv))
    case (TableObj, StarStar) => Some(GlobalQuery(c, role, obj, StarStar, priv))
    case (DatabaseObj, Star) => Some(GlobalQuery(c, role, obj, Star, priv))
    case (DatabaseObj, StarStar) => Some(GlobalQuery(c, role, obj, StarStar, priv))
    case (DatabaseObj, Database) => Some(InDbQuery(c, role, obj, {Database}, db, priv))
    case (AccountObj, Star) => Some(GlobalQuery(c, role, obj, Star, priv))
    case _ => None
  }

  predicate GlobalQuery(c: Catalog, role: Id, obj: ObjType, pl: Level, priv: Priv) {
    exists x :: x in c.grants.rolePrivs && RowFor(x, role, obj, priv) && x.objId == 0 && x.level == pl
  }

  predicate InDbQuery(c: Catalog, role: Id, obj: ObjType, pls: set<Level>, db: string, priv: Priv) {
    exists x, d :: x in c.grants.rolePrivs && d in c.dbs && RowFor(x, role, obj, priv) &&
      x.level in pls && d.id == x.objId && d.name == db
  }

  predicate TableQuery(c: Catalog, role: Id, db: string, tab: string, priv: Priv) {
    exists x, d, t :: x in c.grants.rolePrivs && d in c.dbs && t in c.tables && RowFor(x, role, TableObj, priv)
      && x.level in {DatabaseTable, Table} && d.id == t.dbId && x.objId == t.id && d.name == db && t.name == tab
  }

  // ---- Privilege sets ----

  datatype Target = Target(obj: ObjType, priv: Priv, db: string, tab: string)

  /** An item of a compound entry: the right to grant a role in CREATE USER, or a privilege. */
  datatype Item = GrantItem(role: string, users: seq<string>) | PrivItem(target: Target)

  datatype Entry = General(target: Target) | Compound(items: Option<seq<Item>>)

  datatype PrivilegeSet = PrivilegeSet(entries: seq<Entry>, writesDirectly: bool)

  /** Who asks: the session's roles, current database and origin. */
  datatype Asker = Asker(ses: Session, sys: bool, db: string, realUser: bool)

  const BANNED_DATABASES := {"mo_catalog", "information_schema", "system", "system_metrics", "mysql"}

  function FullDb(a: Asker, db: string): string {
    if |db| == 0 then a.db else db
  }

  /** A real user writes a catalog database directly. */
  predicate OperatesCatalog(a: Asker, writes: bool, db: string) {
    a.realUser && writes && FullDb(a, db) in BANNED_DATABASES
  }

  /** The role has the privilege at one of the levels of its object type. */
  predicate HasPrivilege(c: Catalog, a: Asker, role: Id, x: Target) {
    exists k :: 0 <= k < |Levels(x.obj)| &&
      Query(c, role, x.obj, Levels(x.obj)[k], FullDb(a, x.db), x.tab, x.priv) == Some(true)
  }

  /** When roles are dropped, they have no privilege left, and all others have what they had. */
  lemma {:induction false} DroppedHasNothing(c: Catalog, ids: set<Id>, a: Asker, role: Id, x: Target)
    ensures HasPrivilege(c.(grants := Purged(c.grants, ids)), a, role, x) <==>
      HasPrivilege(c, a, role, x) && role !in ids
  {
    var c' := c.(grants := Purged(c.grants, ids));
    forall k | 0 <= k < |Levels(x.obj)|
      ensures Query(c', role, x.obj, Levels(x.obj)[k], FullDb(a, x.db), x.tab, x.priv) == Some(true) <==>
        Query(c, role, x.obj, Levels(x.obj)[k], FullDb(a, x.db), x.tab, x.priv) == Some(true) && role !in ids
    {
      QueryPurged(c, ids, role, x.obj, Levels(x.obj)[k], FullDb(a, x.db), x.tab, x.priv);
    }
  }

  lemma {:induction false} QueryPurged(c: Catalog, ids: set<Id>, role: Id, obj: ObjType, pl: Level, db: string,
                                       tab: string, priv: Priv)
    ensures Query(c.(grants := Purged(c.grants, ids)), role, obj, pl, db, tab, priv) == Some(true) <==>
      Query(c, role, obj, pl, db, tab, priv) == Some(true) && role !in ids
  {
    var c' := c.(grants := Purged(c.grants, ids));
    assert forall x :: x in c'.grants.rolePrivs <==> x in c.grants.rolePrivs && x.role !in ids;
  }

  ghost predicate ItemOk(c: Catalog, a: Asker, writes: bool, role: Id, item: Item) {
    match item
    case GrantItem(r, _) => r in c.grants.roles && CanPassOn(c.grants, a.ses, c.grants.roles[r])
    case PrivItem(x) => HasPrivilege(c, a, role, x) && !OperatesCatalog(a, writes, x.db)
  }

  /** The items an entry demands together. */
  function Parts(e: Entry): Option<seq<Item>> {
    match e
    case General(x) => Some([PrivItem(x)])
    case Compound(items) => items
  }

  ghost predicate EntryOk(c: Catalog, a: Asker, writes: bool, role: Id, e: Entry) {
    match Parts(e)
    case None => false
    case Some(items) => forall k :: 0 <= k < |items| ==> ItemOk(c, a, writes, role, items[k])
  }

  /** The role satisfies at least one entry of the set. */
  ghost predicate RoleOk(c: Catalog, a: Asker, ps: PrivilegeSet, role: Id) {
    exists k :: 0 <= k < |ps.entries| && EntryOk(c, a, ps.writesDirectly, role, ps.entries[k])
  }

  /** A role the asker uses, directly or by inheritance. */
  ghost predicate Inherited(c: Catalog, a: Asker, role: Id) {
    exists s :: s in RolesInUse(c.grants, a.ses) && Reaches(InheritEdges(c.grants), s, role)
  }

  /** The meaning of a check: some role in use or inherited satisfies the set. */
  ghost predicate UserOk(c: Catalog, a: Asker, ps: PrivilegeSet) {
    exists role :: Inherited(c, a, role) && RoleOk(c, a, ps, role)
  }

  /** The roles an asker uses or inherits. */
  ghost function MyRoles(c: Catalog, a: Asker): iset<Id> {
    iset r | Inherited(c, a, r)
  }

  /** Some entry has every item held by some of the roles, though perhaps not all by one role. */
  ghost predicate PooledBy(c: Catalog, a: Asker, mine: iset<Id>, ps: PrivilegeSet) {
    exists k :: 0 <= k < |ps.entries| && EntryPooled(c, a, mine, ps.writesDirectly, ps.entries[k])
  }

  ghost predicate EntryPooled(c: Catalog, a: Asker, mine: iset<Id>, writes: bool, e: Entry) {
    match Parts(e)
    case None => false
    case Some(items) => forall k :: 0 <= k < |items| ==> ItemPooled(c, a, mine, writes, items[k])
  }

  ghost predicate ItemPooled(c: Catalog, a: Asker, mine: iset<Id>, writes: bool, item: Item) {
    exists role :: role in mine && ItemOk(c, a, writes, role, item)
  }

  /** The same for the roles of the asker. */
  ghost predicate Pooled(c: Catalog, a: Asker, ps: PrivilegeSet) {
    PooledBy(c, a, MyRoles(c, a), ps)
  }

  // ---- Sets the check answers without error ----

  /** The item raises no error. */
  ghost predicate ItemPlain(c: Catalog, a: Asker, item: Item) {
    match item
    case GrantItem(r, users) =>
      && r in c.grants.roles
      && (users == [] || !IsAdminRole(a.sys, r) || !CanPassOn(c.grants, a.ses, c.grants.roles[r]))
    case PrivItem(x) => x.obj != OtherObj
  }

  ghost predicate EntryAnswerable(c: Catalog, a: Asker, e: Entry) {
    match Parts(e)
    case None => true
    case Some(items) => forall k :: 0 <= k < |items| ==> ItemPlain(c, a, items[k])
  }

  /** Nothing in the set raises an error. */
  ghost predicate Answerable(c: Catalog, a: Asker, ps: PrivilegeSet) {
    forall k :: 0 <= k < |ps.entries| ==> EntryAnswerable(c, a, ps.entries[k])
  }

  /** At most one item of an entry is a privilege; the others do not depend on the role. */
  predicate EntryPlain(e: Entry) {
    match Parts(e)
    case None => true
    case Some(items) => forall i, j :: 0 <= i < j < |items| ==> items[i].GrantItem? || items[j].GrantItem?
  }

  predicate Plain(ps: PrivilegeSet) {
    forall k :: 0 <= k < |ps.entries| ==> EntryPlain(ps.entries[k])
  }
}
