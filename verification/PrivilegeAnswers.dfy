/** What a privilege check answers, as a function of the facts its cache holds, and when that is what
    the tables say. */
module PrivilegeAnswers {
  import opened Wrappers
  import opened Paths
  import opened RoleCatalog
  import opened RoleSearch
  import opened Privileges

  /** Where the cache files a fact. A fact filed under TableAny(Star) would not say which database
      it is about. */
  datatype Slot =
    | TableAny(level: Level) | TableInDb(db: string) | TableNamed(db: string, tab: string)
    | DbAny(level: Level) | DbNamed(db: string)
    | AccountAny(level: Level)
    | NoSlot

  function SlotOf(obj: ObjType, pl: Level, db: string, tab: string): Slot {
    match (obj, pl)
    case (TableObj, StarStar) => TableAny(pl)
    case (TableObj, Star) => TableAny(pl)
    case (TableObj, DatabaseStar) => TableInDb(db)
    case (TableObj, DatabaseTable) => TableNamed(db, tab)
    case (TableObj, Table) => TableNamed(db, tab)
    case (DatabaseObj, Star) => DbAny(pl)
    case (DatabaseObj, StarStar) => DbAny(pl)
    case (DatabaseObj, Database) => DbNamed(db)
    case (AccountObj, _) => AccountAny(pl)
    case _ => NoSlot
  }

  /** A privilege filed under a slot. Facts do not say whose they are. */
  datatype Fact = Fact(slot: Slot, priv: Priv)

  type Facts = iset<Fact>

  function FactOf(a: Asker, x: Target, pl: Level): Fact {
    Fact(SlotOf(x.obj, pl, FullDb(a, x.db), x.tab), x.priv)
  }

  /** The query of a privilege at one level of its object type. */
  predicate Holds(c: Catalog, a: Asker, role: Id, x: Target, pl: Level) {
    Query(c, role, x.obj, pl, FullDb(a, x.db), x.tab, x.priv) == Some(true)
  }

  ghost predicate Known(a: Asker, facts: Facts, x: Target) {
    exists k :: 0 <= k < |Levels(x.obj)| && FactOf(a, x, Levels(x.obj)[k]) in facts
  }

  // ---- The check, step by step ----

  datatype Result = Ok(yes: bool) | Err

  /** An answer, and what the cache holds afterwards. */
  datatype Step = Step(r: Result, facts: Facts)

  /** One privilege of one role, from level k on: the cache is asked before the tables. */
  ghost function ScanLevels(c: Catalog, a: Asker, facts: Facts, role: Id, x: Target, k: nat): Step
    requires k <= |Levels(x.obj)|
    decreases |Levels(x.obj)| - k
  {
    if k == |Levels(x.obj)| then Step(Ok(false), facts)
    else
      var pl := Levels(x.obj)[k];
      if FactOf(a, x, pl) in facts then Step(Ok(true), facts)
      else if Holds(c, a, role, x, pl) then Step(Ok(true), facts + iset{FactOf(a, x, pl)})
      else ScanLevels(c, a, facts, role, x, k + 1)
  }

  ghost function TargetStep(c: Catalog, a: Asker, facts: Facts, role: Id, x: Target): Step {
    if x.obj == OtherObj then Step(Err, facts) else ScanLevels(c, a, facts, role, x, 0)
  }

  /** The right to grant a role in CREATE USER: unknown roles and, if the right is there, administrator
      roles for somebody are errors. */
  ghost function GrantAnswer(c: Catalog, a: Asker, role: string, users: seq<string>): Result {
    if role !in c.grants.roles then Err
    else if !CanPassOn(c.grants, a.ses, c.grants.roles[role]) then Ok(false)
    else if users != [] && IsAdminRole(a.sys, role) then Err
    else Ok(true)
  }

  ghost function ItemStep(c: Catalog, a: Asker, writes: bool, facts: Facts, role: Id, item: Item): Step {
    match item
    case GrantItem(name, users) => Step(GrantAnswer(c, a, name, users), facts)
    case PrivItem(x) =>
      var s := TargetStep(c, a, facts, role, x);
      if s.r == Ok(true) && OperatesCatalog(a, writes, x.db) then s.(r := Ok(false)) else s
  }

  /** All items of an entry, from the k-th on, until one is not granted. */
  ghost function ItemsStep(c: Catalog, a: Asker, writes: bool, facts: Facts, role: Id, items: seq<Item>, k: nat): Step
    requires k <= |items|
    decreases |items| - k
  {
    if k == |items| then Step(Ok(true), facts)
    else
      var s := ItemStep(c, a, writes, facts, role, items[k]);
      if s.r == Ok(true) then ItemsStep(c, a, writes, s.facts, role, items, k + 1) else s
  }

  ghost function EntryStep(c: Catalog, a: Asker, writes: bool, facts: Facts, role: Id, e: Entry): Step {
    match Parts(e)
    case None => Step(Ok(false), facts)
    case Some(items) => ItemsStep(c, a, writes, facts, role, items, 0)
  }

  /** The entries of a set for one role, until one is granted. */
  ghost function EntriesStep(c: Catalog, a: Asker, facts: Facts, role: Id, ps: PrivilegeSet, k: nat): Step
    requires k <= |ps.entries|
    decreases |ps.entries| - k
  {
    if k == |ps.entries| then Step(Ok(false), facts)
    else
      var s := EntryStep(c, a, ps.writesDirectly, facts, role, ps.entries[k]);
      if s.r == Ok(false) then EntriesStep(c, a, s.facts, role, ps, k + 1) else s
  }

  ghost function RolesStep(c: Catalog, a: Asker, facts: Facts, roles: seq<Id>, ps: PrivilegeSet): Step {
    if roles == [] then Step(Ok(false), facts)
    else
      var s := EntriesStep(c, a, facts, roles[0], ps, 0);
      if s.r == Ok(false) then RolesStep(c, a, s.facts, roles[1..], ps) else s
  }

  /** What the roles seen so far inherit and do not contain. */
  ghost function NextLevel(c: Catalog, visited: set<Id>): set<Id> {
    set e | e in InheritEdges(c.grants) && e.0 in visited && e.1 !in visited :: e.1
  }

  ghost function Universe(c: Catalog, a: Asker): set<Id> {
    RolesInUse(c.grants, a.ses) + set x | x in c.grants.roleGrants :: x.granted
  }

  /** The levels of inheritance behind the roles seen so far. */
  ghost function ClimbStep(c: Catalog, a: Asker, facts: Facts, visited: set<Id>, ps: PrivilegeSet): Step
    decreases Universe(c, a) - visited
  {
    var next := NextLevel(c, visited);
    if next == {} then Step(Ok(false), facts)
    else
      var s := RolesStep(c, a, facts, Ascending(next), ps);
      Shrinks(c, a, visited);
      if s.r == Ok(false) then ClimbStep(c, a, s.facts, visited + next, ps) else s
  }

  lemma {:induction false} Shrinks(c: Catalog, a: Asker, visited: set<Id>)
    ensures NextLevel(c, visited) !! visited && NextLevel(c, visited) <= Universe(c, a)
    ensures NextLevel(c, visited) != {} ==>
      Universe(c, a) - (visited + NextLevel(c, visited)) < Universe(c, a) - visited
  {}

  /** A whole check. */
  ghost function CheckStep(c: Catalog, a: Asker, facts: Facts, ps: PrivilegeSet): Step {
    var start := RolesInUse(c.grants, a.ses);
    var s := RolesStep(c, a, facts, Ascending(start), ps);
    if s.r == Ok(false) then ClimbStep(c, a, s.facts, start, ps) else s
  }

  /** The facts after a history of checks on an empty cache. */
  ghost function After(c: Catalog, a: Asker, pss: seq<PrivilegeSet>): Facts {
    if pss == [] then iset{} else CheckStep(c, a, After(c, a, pss[..|pss| - 1]), pss[|pss| - 1]).facts
  }

  /** The answers along such a history. */
  ghost function Answers(c: Catalog, a: Asker, pss: seq<PrivilegeSet>): (rs: seq<Result>)
    ensures |rs| == |pss|
  {
    if pss == [] then []
    else
      var before := pss[..|pss| - 1];
      Answers(c, a, before) + [CheckStep(c, a, After(c, a, before), pss[|pss| - 1]).r]
  }

  /** A set of roles in ascending order. */
  ghost function Ascending(roles: set<Id>): seq<Id> {
    if roles == {} then [] else [Least(roles)] + Ascending(roles - {Least(roles)})
  }

  ghost function Least(roles: set<Id>): (m: Id)
    requires roles != {}
    ensures m in roles && forall v :: v in roles ==> m.value <= v.value
  {
    SomeLeast(roles);
    var m :| IsLeast(roles, m);
    m
  }

  predicate IsLeast(roles: set<Id>, m: Id) {
    m in roles && forall v :: v in roles ==> m.value <= v.value
  }

  lemma {:induction false} SomeLeast(roles: set<Id>)
    requires roles != {}
    ensures exists m :: IsLeast(roles, m)
  {
    var v :| v in roles;
    if roles == {v} {
      assert IsLeast(roles, v);
    } else {
      SomeLeast(roles - {v});
      var m :| IsLeast(roles - {v}, m);
      assert IsLeast(roles, if v.value <= m.value then v else m);
    }
  }

  lemma {:induction false} AscendingHolds(roles: set<Id>)
    ensures forall v :: v in Ascending(roles) <==> v in roles
  {
    if roles != {} {
      AscendingHolds(roles - {Least(roles)});
    }
  }

  lemma {:induction false} AscendingSorted(roles: set<Id>, i: nat, j: nat)
    requires i < j < |Ascending(roles)|
    ensures Ascending(roles)[i].value <= Ascending(roles)[j].value && Ascending(roles)[i] != Ascending(roles)[j]
  {
    var rest := roles - {Least(roles)};
    AscendingHolds(rest);
    if i > 0 {
      AscendingSorted(rest, i - 1, j - 1);
    } else {
      assert Ascending(rest)[j - 1] in Ascending(rest);
    }
  }

  // ---- What the facts in the cache are worth ----

  /** The query that a slot stands for. */
  predicate SlotQuery(c: Catalog, role: Id, slot: Slot, priv: Priv) {
    match slot
    case TableAny(l) => l == StarStar && GlobalQuery(c, role, TableObj, l, priv)
    case TableInDb(d) => InDbQuery(c, role, TableObj, {DatabaseStar, Star}, d, priv)
    case TableNamed(d, t) => TableQuery(c, role, d, t, priv)
    case DbAny(l) => l in {Star, StarStar} && GlobalQuery(c, role, DatabaseObj, l, priv)
    case DbNamed(d) => InDbQuery(c, role, DatabaseObj, {Database}, d, priv)
    case AccountAny(l) => l == Star && GlobalQuery(c, role, AccountObj, l, priv)
    case NoSlot => false
  }

  /** Asking at a level is asking what its slot stands for, but for tables at level "*", whose query is
      that of the slot for "db.*". */
  lemma {:induction false} SlotIsQuery(c: Catalog, a: Asker, role: Id, x: Target, k: nat)
    requires k < |Levels(x.obj)|
    ensures var pl, fact := Levels(x.obj)[k], FactOf(a, x, Levels(x.obj)[k]);
      if fact.slot == TableAny(Star) then
        k == 2 && Levels(x.obj)[1] == DatabaseStar && (Holds(c, a, role, x, pl) <==> Holds(c, a, role, x, DatabaseStar))
      else Holds(c, a, role, x, pl) <==> SlotQuery(c, role, fact.slot, fact.priv)
  {}

  /** Some of the roles has what the fact says. */
  ghost predicate Witnessed(c: Catalog, mine: iset<Id>, f: Fact) {
    exists r :: r in mine && SlotQuery(c, r, f.slot, f.priv)
  }

  /** Every fact is witnessed; in particular nothing is filed under TableAny(Star). */
  ghost predicate Sound(c: Catalog, mine: iset<Id>, facts: Facts) {
    forall f :: f in facts ==> Witnessed(c, mine, f)
  }

  /** Facts are only added, and only sound ones. */
  ghost predicate Grows(c: Catalog, mine: iset<Id>, facts: Facts, facts': Facts) {
    facts <= facts' && (Sound(c, mine, facts) ==> Sound(c, mine, facts'))
  }

  lemma {:induction false} KnownIsHeld(c: Catalog, a: Asker, mine: iset<Id>, facts: Facts, x: Target) returns (w: Id)
    requires Sound(c, mine, facts) && Known(a, facts, x)
    ensures w in mine && HasPrivilege(c, a, w, x)
  {
    var k :| 0 <= k < |Levels(x.obj)| && FactOf(a, x, Levels(x.obj)[k]) in facts;
    var f := FactOf(a, x, Levels(x.obj)[k]);
    w :| w in mine && SlotQuery(c, w, f.slot, f.priv);
    SlotIsQuery(c, a, w, x, k);
  }

  /** The first level that decides. */
  lemma {:induction false} ScanLaw(c: Catalog, a: Asker, mine: iset<Id>, facts: Facts, role: Id, x: Target, k: nat)
    requires role in mine && k <= |Levels(x.obj)| && forall j :: 0 <= j < k ==> !Holds(c, a, role, x, Levels(x.obj)[j])
    ensures var s := ScanLevels(c, a, facts, role, x, k);
      && Grows(c, mine, facts, s.facts)
      && s.r.Ok?
      && (s.r == Ok(true) ==> Known(a, s.facts, x) && (Known(a, facts, x) || HasPrivilege(c, a, role, x)))
    decreases |Levels(x.obj)| - k
  {
    if k < |Levels(x.obj)| {
      var pl := Levels(x.obj)[k];
      if FactOf(a, x, pl) !in facts && !Holds(c, a, role, x, pl) {
        ScanLaw(c, a, mine, facts, role, x, k + 1);
      } else {
        SlotIsQuery(c, a, role, x, k);
      }
    }
  }

  lemma {:induction false} ScanFinds(c: Catalog, a: Asker, facts: Facts, role: Id, x: Target, k: nat, j: nat)
    requires k <= j < |Levels(x.obj)|
    requires (FactOf(a, x, Levels(x.obj)[j]) in facts || Holds(c, a, role, x, Levels(x.obj)[j]))
    ensures ScanLevels(c, a, facts, role, x, k).r == Ok(true)
    decreases |Levels(x.obj)| - k
  {
    var pl := Levels(x.obj)[k];
    if FactOf(a, x, pl) !in facts && !Holds(c, a, role, x, pl) {
      ScanFinds(c, a, facts, role, x, k + 1, j);
    }
  }

  /** A privilege is granted to a role if and only if the cache knows it, of whichever role, or the role
      has it. */
  lemma {:induction false} TargetLaw(c: Catalog, a: Asker, mine: iset<Id>, facts: Facts, role: Id, x: Target)
    requires role in mine
    ensures var s := TargetStep(c, a, facts, role, x);
      && Grows(c, mine, facts, s.facts)
      && (s.r.Err? <==> x.obj == OtherObj)
      && (s.r == Ok(true) <==> x.obj != OtherObj && (Known(a, facts, x) || HasPrivilege(c, a, role, x)))
      && (s.r == Ok(true) ==> Known(a, s.facts, x))
  {
    if x.obj != OtherObj {
      ScanLaw(c, a, mine, facts, role, x, 0);
      if Known(a, facts, x) {
        var j :| 0 <= j < |Levels(x.obj)| && FactOf(a, x, Levels(x.obj)[j]) in facts;
        ScanFinds(c, a, facts, role, x, 0, j);
      } else if HasPrivilege(c, a, role, x) {
        var j :| 0 <= j < |Levels(x.obj)| && Holds(c, a, role, x, Levels(x.obj)[j]);
        ScanFinds(c, a, facts, role, x, 0, j);
      }
    }
  }

  /** The cache alone grants the item, to whichever role. */
  ghost predicate ItemReady(c: Catalog, a: Asker, writes: bool, facts: Facts, item: Item) {
    match item
    case GrantItem(_, _) => ItemOk(c, a, writes, a.ses.defaultRole, item)
    case PrivItem(x) => Known(a, facts, x) && !OperatesCatalog(a, writes, x.db)
  }

  ghost predicate EntryReady(c: Catalog, a: Asker, writes: bool, facts: Facts, e: Entry) {
    match Parts(e)
    case None => false
    case Some(items) => ItemsReady(c, a, writes, facts, items, 0)
  }

  ghost predicate ItemsReady(c: Catalog, a: Asker, writes: bool, facts: Facts, items: seq<Item>, k: nat) {
    forall i :: k <= i < |items| ==> ItemReady(c, a, writes, facts, items[i])
  }

  ghost predicate SetReady(c: Catalog, a: Asker, facts: Facts, ps: PrivilegeSet, k: nat) {
    exists j :: k <= j < |ps.entries| && EntryReady(c, a, ps.writesDirectly, facts, ps.entries[j])
  }

  lemma {:induction false} ItemLaw(c: Catalog, a: Asker, mine: iset<Id>, writes: bool, facts: Facts, role: Id,
                                   item: Item)
    requires role in mine
    ensures var s := ItemStep(c, a, writes, facts, role, item);
      && Grows(c, mine, facts, s.facts)
      && (ItemPlain(c, a, item) <==> s.r.Ok?)
      && (s.r == Ok(true) ==> ItemReady(c, a, writes, s.facts, item))
      && (s.r == Ok(false) ==> !ItemOk(c, a, writes, role, item))
      && (ItemReady(c, a, writes, facts, item) && ItemPlain(c, a, item) ==> s.r == Ok(true))
  {
    if item.PrivItem? {
      TargetLaw(c, a, mine, facts, role, item.target);
    }
  }

  lemma {:induction false} ReadyStays(c: Catalog, a: Asker, writes: bool, facts: Facts, facts': Facts, item: Item)
    requires facts <= facts' && ItemReady(c, a, writes, facts, item)
    ensures ItemReady(c, a, writes, facts', item)
  {}

  lemma {:induction false} ItemsLaw(c: Catalog, a: Asker, mine: iset<Id>, writes: bool, facts: Facts, role: Id,
                                    items: seq<Item>, k: nat)
    requires role in mine && k <= |items|
    ensures var s := ItemsStep(c, a, writes, facts, role, items, k);
      && Grows(c, mine, facts, s.facts)
      && ((forall i :: 0 <= i < |items| ==> ItemPlain(c, a, items[i])) ==> s.r.Ok?)
      && (s.r == Ok(true) ==> ItemsReady(c, a, writes, s.facts, items, k))
      && (s.r == Ok(false) ==> exists i :: 0 <= i < |items| && !ItemOk(c, a, writes, role, items[i]))
      && (ItemsReady(c, a, writes, facts, items, k) && (forall i :: 0 <= i < |items| ==> ItemPlain(c, a, items[i])) ==>
            s.r == Ok(true))
    decreases |items| - k
  {
    if k < |items| {
      ItemLaw(c, a, mine, writes, facts, role, items[k]);
      var s := ItemStep(c, a, writes, facts, role, items[k]);
      if s.r == Ok(true) {
        ItemsLaw(c, a, mine, writes, s.facts, role, items, k + 1);
        var end := ItemsStep(c, a, writes, s.facts, role, items, k + 1).facts;
        ReadyStays(c, a, writes, s.facts, end, items[k]);
        if ItemsReady(c, a, writes, facts, items, k) {
          forall i | k + 1 <= i < |items|
            ensures ItemReady(c, a, writes, s.facts, items[i])
          {
            ReadyStays(c, a, writes, facts, s.facts, items[i]);
          }
        }
      }
    }
  }

  lemma {:induction false} EntryLaw(c: Catalog, a: Asker, mine: iset<Id>, writes: bool, facts: Facts, role: Id,
                                    e: Entry)
    requires role in mine
    ensures var s := EntryStep(c, a, writes, facts, role, e);
      && Grows(c, mine, facts, s.facts)
      && (EntryAnswerable(c, a, e) ==> s.r.Ok?)
      && (s.r == Ok(true) ==> EntryReady(c, a, writes, s.facts, e))
      && (s.r == Ok(false) ==> !EntryOk(c, a, writes, role, e))
      && (EntryReady(c, a, writes, facts, e) && EntryAnswerable(c, a, e) ==> s.r == Ok(true))
  {
    if Parts(e).Some? {
      ItemsLaw(c, a, mine, writes, facts, role, Parts(e).value, 0);
    }
  }

  lemma {:induction false} EntryStays(c: Catalog, a: Asker, writes: bool, facts: Facts, facts': Facts, e: Entry)
    requires facts <= facts' && EntryReady(c, a, writes, facts, e)
    ensures EntryReady(c, a, writes, facts', e)
  {
    var items := Parts(e).value;
    forall i | 0 <= i < |items|
      ensures ItemReady(c, a, writes, facts', items[i])
    {
      ReadyStays(c, a, writes, facts, facts', items[i]);
    }
  }

  /** A yes means that the cache can now answer by itself. */
  ghost predicate Decides(c: Catalog, a: Asker, mine: iset<Id>, facts: Facts, ps: PrivilegeSet, s: Step) {
    && Grows(c, mine, facts, s.facts)
    && (Answerable(c, a, ps) ==> s.r.Ok?)
    && (s.r == Ok(true) ==> SetReady(c, a, s.facts, ps, 0))
  }

  lemma {:induction false} EntriesLaw(c: Catalog, a: Asker, mine: iset<Id>, facts: Facts, role: Id, ps: PrivilegeSet,
                                      k: nat)
    requires role in mine && k <= |ps.entries|
    ensures Decides(c, a, mine, facts, ps, EntriesStep(c, a, facts, role, ps, k))
    decreases |ps.entries| - k
  {
    if k < |ps.entries| {
      EntryLaw(c, a, mine, ps.writesDirectly, facts, role, ps.entries[k]);
      var s := EntryStep(c, a, ps.writesDirectly, facts, role, ps.entries[k]);
      if s.r == Ok(false) {
        EntriesLaw(c, a, mine, s.facts, role, ps, k + 1);
      } else if s.r == Ok(true) {
        assert SetReady(c, a, s.facts, ps, 0);
      }
    }
  }

  lemma {:induction false} EntriesReject(c: Catalog, a: Asker, mine: iset<Id>, facts: Facts, role: Id,
                                         ps: PrivilegeSet, k: nat, j: nat)
    requires role in mine && k <= j < |ps.entries| && EntriesStep(c, a, facts, role, ps, k).r == Ok(false)
    ensures !EntryOk(c, a, ps.writesDirectly, role, ps.entries[j])
    decreases j - k
  {
    var s := EntryStep(c, a, ps.writesDirectly, facts, role, ps.entries[k]);
    if k < j {
      EntriesReject(c, a, mine, s.facts, role, ps, k + 1, j);
    } else {
      EntryLaw(c, a, mine, ps.writesDirectly, facts, role, ps.entries[k]);
    }
  }

  lemma {:induction false} RoleRejected(c: Catalog, a: Asker, mine: iset<Id>, facts: Facts, role: Id, ps: PrivilegeSet)
    requires role in mine && EntriesStep(c, a, facts, role, ps, 0).r == Ok(false)
    ensures !RoleOk(c, a, ps, role)
  {
    forall j | 0 <= j < |ps.entries|
      ensures !EntryOk(c, a, ps.writesDirectly, role, ps.entries[j])
    {
      EntriesReject(c, a, mine, facts, role, ps, 0, j);
    }
  }

  lemma {:induction false} EntryTried(c: Catalog, a: Asker, mine: iset<Id>, writes: bool, facts: Facts, role: Id,
                                      e: Entry)
    requires role in mine && EntryAnswerable(c, a, e)
    ensures facts <= EntryStep(c, a, writes, facts, role, e).facts && EntryStep(c, a, writes, facts, role, e).r.Ok?
  {
    EntryLaw(c, a, mine, writes, facts, role, e);
  }

  lemma {:induction false} EntryGranted(c: Catalog, a: Asker, mine: iset<Id>, writes: bool, facts: Facts, role: Id,
                                        e: Entry)
    requires role in mine && EntryAnswerable(c, a, e) && EntryReady(c, a, writes, facts, e)
    ensures EntryStep(c, a, writes, facts, role, e).r == Ok(true)
  {
    EntryLaw(c, a, mine, writes, facts, role, e);
  }

  lemma {:induction false} EntriesFind(c: Catalog, a: Asker, mine: iset<Id>, facts: Facts, role: Id, ps: PrivilegeSet,
                                       k: nat, j: nat)
    requires role in mine && k <= j < |ps.entries| && Answerable(c, a, ps)
    requires EntryReady(c, a, ps.writesDirectly, facts, ps.entries[j])
    ensures EntriesStep(c, a, facts, role, ps, k).r == Ok(true)
    decreases j - k
  {
    var s := EntryStep(c, a, ps.writesDirectly, facts, role, ps.entries[k]);
    if k == j {
      EntryGranted(c, a, mine, ps.writesDirectly, facts, role, ps.entries[k]);
    } else {
      EntryTried(c, a, mine, ps.writesDirectly, facts, role, ps.entries[k]);
      if s.r == Ok(false) {
        EntryStays(c, a, ps.writesDirectly, facts, s.facts, ps.entries[j]);
        EntriesFind(c, a, mine, s.facts, role, ps, k + 1, j);
      }
    }
  }

  ghost predicate AllRejected(c: Catalog, a: Asker, ps: PrivilegeSet, roles: set<Id>) {
    forall v :: v in roles ==> !RoleOk(c, a, ps, v)
  }

  lemma {:induction false} RolesLaw(c: Catalog, a: Asker, mine: iset<Id>, facts: Facts, roles: seq<Id>,
                                    ps: PrivilegeSet)
    requires forall i :: 0 <= i < |roles| ==> roles[i] in mine
    ensures Decides(c, a, mine, facts, ps, RolesStep(c, a, facts, roles, ps))
    ensures RolesStep(c, a, facts, roles, ps).r == Ok(false) ==>
      forall i :: 0 <= i < |roles| ==> !RoleOk(c, a, ps, roles[i])
    decreases |roles|
  {
    if roles != [] {
      EntriesLaw(c, a, mine, facts, roles[0], ps, 0);
      var s := EntriesStep(c, a, facts, roles[0], ps, 0);
      if s.r == Ok(false) {
        RoleRejected(c, a, mine, facts, roles[0], ps);
        RolesLaw(c, a, mine, s.facts, roles[1..], ps);
        assert roles == [roles[0]] + roles[1..];
      }
    }
  }

  lemma {:induction false} LevelLaw(c: Catalog, a: Asker, mine: iset<Id>, facts: Facts, level: set<Id>,
                                    ps: PrivilegeSet)
    requires forall v :: v in level ==> v in mine
    ensures Decides(c, a, mine, facts, ps, RolesStep(c, a, facts, Ascending(level), ps))
    ensures RolesStep(c, a, facts, Ascending(level), ps).r == Ok(false) ==> AllRejected(c, a, ps, level)
  {
    AscendingHolds(level);
    var keys := Ascending(level);
    assert forall i :: 0 <= i < |keys| ==> keys[i] in keys;
    RolesLaw(c, a, mine, facts, keys, ps);
  }

  // ---- The closure of the roles in use ----

  /** `mine` holds the roles in use and what they inherit, and nothing more: any finite set with
      that closure property covers it. */
  ghost predicate LeastClosed(c: Catalog, a: Asker, mine: iset<Id>) {
    && (forall v :: v in RolesInUse(c.grants, a.ses) ==> v in mine)
    && (forall e :: e in InheritEdges(c.grants) && e.0 in mine ==> e.1 in mine)
    && (forall s: set<Id> :: RolesInUse(c.grants, a.ses) <= s && Closed(InheritEdges(c.grants), s) ==> Covers(s, mine))
  }

  ghost predicate Covers(s: set<Id>, mine: iset<Id>) {
    forall v :: v in mine ==> v in s
  }

  lemma {:induction false} MyRolesLeastClosed(c: Catalog, a: Asker)
    ensures LeastClosed(c, a, MyRoles(c, a))
  {
    StartInherited(c, a);
    forall e | e in InheritEdges(c.grants) && e.0 in MyRoles(c, a)
      ensures e.1 in MyRoles(c, a)
    {
      assert e == (e.0, e.1);
      StepInherited(c, a, e.0);
    }
    forall s: set<Id> | RolesInUse(c.grants, a.ses) <= s && Closed(InheritEdges(c.grants), s)
      ensures Covers(s, MyRoles(c, a))
    {
      ClosureVisited(c, a, s);
    }
  }

  lemma {:induction false} StartInherited(c: Catalog, a: Asker)
    ensures forall v :: v in RolesInUse(c.grants, a.ses) ==> Inherited(c, a, v)
  {
    forall v | v in RolesInUse(c.grants, a.ses)
      ensures Inherited(c, a, v)
    {
      ReachesRefl(InheritEdges(c.grants), v);
    }
  }

  lemma {:induction false} StepInherited(c: Catalog, a: Asker, role: Id)
    requires Inherited(c, a, role)
    ensures forall v :: (role, v) in InheritEdges(c.grants) ==> Inherited(c, a, v)
  {
    forall v | (role, v) in InheritEdges(c.grants)
      ensures Inherited(c, a, v)
    {
      var s :| s in RolesInUse(c.grants, a.ses) && Reaches(InheritEdges(c.grants), s, role);
      EdgeReaches(InheritEdges(c.grants), role, v);
      ReachesTrans(InheritEdges(c.grants), s, role, v);
    }
  }

  /** A closed set that holds the roles in use holds every inherited role. */
  lemma {:induction false} ClosureVisited(c: Catalog, a: Asker, visited: set<Id>)
    requires RolesInUse(c.grants, a.ses) <= visited && Closed(InheritEdges(c.grants), visited)
    ensures forall v :: Inherited(c, a, v) ==> v in visited
  {
    forall v | Inherited(c, a, v)
      ensures v in visited
    {
      var s :| s in RolesInUse(c.grants, a.ses) && Reaches(InheritEdges(c.grants), s, v);
      ClosedReaches(InheritEdges(c.grants), visited, s, v);
    }
  }

  // ---- Whole checks ----

  ghost predicate NoneOk(c: Catalog, a: Asker, mine: iset<Id>, ps: PrivilegeSet) {
    forall v :: v in mine ==> !RoleOk(c, a, ps, v)
  }

  lemma {:induction false} ClimbLaw(c: Catalog, a: Asker, mine: iset<Id>, facts: Facts, visited: set<Id>,
                                    ps: PrivilegeSet)
    requires LeastClosed(c, a, mine) && RolesInUse(c.grants, a.ses) <= visited && forall v :: v in visited ==> v in mine
    requires AllRejected(c, a, ps, visited)
    ensures Decides(c, a, mine, facts, ps, ClimbStep(c, a, facts, visited, ps))
    ensures ClimbStep(c, a, facts, visited, ps).r == Ok(false) ==> NoneOk(c, a, mine, ps)
    decreases Universe(c, a) - visited
  {
    var next := NextLevel(c, visited);
    Shrinks(c, a, visited);
    if next == {} {
      NothingNew(c, visited);
      assert Covers(visited, mine);
    } else {
      LevelLaw(c, a, mine, facts, next, ps);
      var s := RolesStep(c, a, facts, Ascending(next), ps);
      if s.r == Ok(false) {
        ClimbLaw(c, a, mine, s.facts, visited + next, ps);
      }
    }
  }

  lemma {:induction false} NothingNew(c: Catalog, visited: set<Id>)
    requires NextLevel(c, visited) == {}
    ensures Closed(InheritEdges(c.grants), visited)
  {
    forall e | e in InheritEdges(c.grants) && e.0 in visited
      ensures e.1 in visited
    {
      assert e.1 !in NextLevel(c, visited);
    }
  }

  lemma {:induction false} CheckLaw(c: Catalog, a: Asker, mine: iset<Id>, facts: Facts, ps: PrivilegeSet)
    requires LeastClosed(c, a, mine)
    ensures Decides(c, a, mine, facts, ps, CheckStep(c, a, facts, ps))
    ensures CheckStep(c, a, facts, ps).r == Ok(false) ==> NoneOk(c, a, mine, ps)
  {
    var start := RolesInUse(c.grants, a.ses);
    LevelLaw(c, a, mine, facts, start, ps);
    var s := RolesStep(c, a, facts, Ascending(start), ps);
    if s.r == Ok(false) {
      ClimbLaw(c, a, mine, s.facts, start, ps);
    }
  }

  /** What the cache can answer by itself is granted. */
  lemma {:induction false} ReadyGranted(c: Catalog, a: Asker, mine: iset<Id>, facts: Facts, ps: PrivilegeSet)
    requires LeastClosed(c, a, mine) && Answerable(c, a, ps) && SetReady(c, a, facts, ps, 0)
    ensures CheckStep(c, a, facts, ps).r == Ok(true)
  {
    var j :| 0 <= j < |ps.entries| && EntryReady(c, a, ps.writesDirectly, facts, ps.entries[j]);
    var start := RolesInUse(c.grants, a.ses);
    assert a.ses.defaultRole in start;
    EntriesFind(c, a, mine, facts, Ascending(start)[0], ps, 0, j);
  }

  /** What the cache can answer by itself is pooled from the roles of the asker. */
  lemma {:induction false} ReadyPooled(c: Catalog, a: Asker, mine: iset<Id>, facts: Facts, ps: PrivilegeSet)
    requires LeastClosed(c, a, mine) && Sound(c, mine, facts) && SetReady(c, a, facts, ps, 0)
    ensures PooledBy(c, a, mine, ps)
  {
    var j :| 0 <= j < |ps.entries| && EntryReady(c, a, ps.writesDirectly, facts, ps.entries[j]);
    var items := Parts(ps.entries[j]).value;
    forall k | 0 <= k < |items|
      ensures ItemPooled(c, a, mine, ps.writesDirectly, items[k])
    {
      ItemIsPooled(c, a, mine, ps.writesDirectly, facts, items[k]);
    }
  }

  lemma {:induction false} ItemIsPooled(c: Catalog, a: Asker, mine: iset<Id>, writes: bool, facts: Facts, item: Item)
    requires LeastClosed(c, a, mine) && Sound(c, mine, facts) && ItemReady(c, a, writes, facts, item)
    ensures ItemPooled(c, a, mine, writes, item)
  {
    match item
    case GrantItem(_, _) =>
      assert a.ses.defaultRole in mine && ItemOk(c, a, writes, a.ses.defaultRole, item);
    case PrivItem(x) =>
      var w := KnownIsHeld(c, a, mine, facts, x);
      assert w in mine && ItemOk(c, a, writes, w, item);
  }

  // ---- Histories ----

  lemma {:induction false} AfterSound(c: Catalog, a: Asker, mine: iset<Id>, pss: seq<PrivilegeSet>)
    requires LeastClosed(c, a, mine)
    ensures Sound(c, mine, After(c, a, pss))
    decreases |pss|
  {
    if pss != [] {
      AfterSound(c, a, mine, pss[..|pss| - 1]);
      CheckLaw(c, a, mine, After(c, a, pss[..|pss| - 1]), pss[|pss| - 1]);
    }
  }

  /** Whatever was checked before, and whatever the set: no is said only if no role of the asker satisfies
      it, and yes only if its items can be pooled from the roles of the asker. */
  lemma {:induction false} AnswerBetween(c: Catalog, a: Asker, pss: seq<PrivilegeSet>, ps: PrivilegeSet)
    ensures var r := CheckStep(c, a, After(c, a, pss), ps).r;
      && (r == Ok(true) ==> Pooled(c, a, ps))
      && (r == Ok(false) ==> !UserOk(c, a, ps))
      && (Answerable(c, a, ps) ==> r.Ok?)
  {
    var mine, facts := MyRoles(c, a), After(c, a, pss);
    MyRolesLeastClosed(c, a);
    AfterSound(c, a, mine, pss);
    CheckLaw(c, a, mine, facts, ps);
    var s := CheckStep(c, a, facts, ps);
    if s.r == Ok(true) {
      ReadyPooled(c, a, mine, s.facts, ps);
    }
  }

  lemma {:induction false} AnswerAt(c: Catalog, a: Asker, pss: seq<PrivilegeSet>, k: nat)
    requires k < |pss|
    ensures Answers(c, a, pss)[k] == CheckStep(c, a, After(c, a, pss[..k]), pss[k]).r
    decreases |pss|
  {
    var n := |pss| - 1;
    if k < n {
      AnswerAt(c, a, pss[..n], k);
      assert pss[..n][..k] == pss[..k];
    }
  }

  /** Along every history every answer lies between the two. */
  lemma {:induction false} AnswersBetween(c: Catalog, a: Asker, pss: seq<PrivilegeSet>, k: nat)
    requires k < |pss|
    ensures var r := Answers(c, a, pss)[k];
      && (r == Ok(true) ==> Pooled(c, a, pss[k]))
      && (r == Ok(false) ==> !UserOk(c, a, pss[k]))
      && (Answerable(c, a, pss[k]) ==> r.Ok?)
  {
    AnswerAt(c, a, pss, k);
    AnswerBetween(c, a, pss[..k], pss[k]);
  }

  function Alone(x: Target): PrivilegeSet {
    PrivilegeSet([General(x)], false)
  }

  /** A check of one privilege that some role has leaves it known. */
  lemma {:induction false} AloneKnown(c: Catalog, a: Asker, mine: iset<Id>, facts: Facts, x: Target, w: Id)
    requires LeastClosed(c, a, mine) && w in mine && HasPrivilege(c, a, w, x)
    ensures Known(a, CheckStep(c, a, facts, Alone(x)).facts, x)
  {
    var ps, items := Alone(x), Parts(General(x)).value;
    CheckLaw(c, a, mine, facts, ps);
    var s := CheckStep(c, a, facts, ps);
    assert EntryOk(c, a, false, w, ps.entries[0]);
    assert RoleOk(c, a, ps, w);
    var j :| 0 <= j < |ps.entries| && EntryReady(c, a, false, s.facts, ps.entries[j]);
    assert ItemReady(c, a, false, s.facts, items[0]);
  }

  /** Checks of the privileges among the first k items, one by one. */
  function OneByOne(items: seq<Item>, k: nat): seq<PrivilegeSet>
    requires k <= |items|
  {
    if k == 0 then []
    else OneByOne(items, k - 1) + (if items[k - 1].PrivItem? then [Alone(items[k - 1].target)] else [])
  }

  lemma {:induction false} OneByOneStep(c: Catalog, a: Asker, items: seq<Item>, k: nat)
    requires 0 < k <= |items|
    ensures var item := items[k - 1];
      After(c, a, OneByOne(items, k)) ==
        if item.PrivItem? then CheckStep(c, a, After(c, a, OneByOne(items, k - 1)), Alone(item.target)).facts
        else After(c, a, OneByOne(items, k - 1))
  {
    var before, all := OneByOne(items, k - 1), OneByOne(items, k);
    if items[k - 1].PrivItem? {
      assert all[..|all| - 1] == before;
    } else {
      assert all == before;
    }
  }

  lemma {:induction false} OneByOneKnown(c: Catalog, a: Asker, mine: iset<Id>, writes: bool, items: seq<Item>, k: nat,
                                         i: nat)
    requires LeastClosed(c, a, mine) && i < k <= |items|
    requires ItemPooled(c, a, mine, writes, items[i])
    ensures ItemReady(c, a, writes, After(c, a, OneByOne(items, k)), items[i])
    decreases k
  {
    var before, after := After(c, a, OneByOne(items, k - 1)), After(c, a, OneByOne(items, k));
    if i < k - 1 {
      OneByOneKnown(c, a, mine, writes, items, k - 1, i);
      OneByOneGrows(c, a, mine, items, k);
      ReadyStays(c, a, writes, before, after, items[i]);
    } else {
      OneByOneStep(c, a, items, k);
      PooledReady(c, a, mine, writes, before, items[i]);
    }
  }

  lemma {:induction false} OneByOneGrows(c: Catalog, a: Asker, mine: iset<Id>, items: seq<Item>, k: nat)
    requires LeastClosed(c, a, mine) && 0 < k <= |items|
    ensures After(c, a, OneByOne(items, k - 1)) <= After(c, a, OneByOne(items, k))
  {
    OneByOneStep(c, a, items, k);
    if items[k - 1].PrivItem? {
      CheckLaw(c, a, mine, After(c, a, OneByOne(items, k - 1)), Alone(items[k - 1].target));
    }
  }

  lemma {:induction false} PooledReady(c: Catalog, a: Asker, mine: iset<Id>, writes: bool, facts: Facts, item: Item)
    requires LeastClosed(c, a, mine) && ItemPooled(c, a, mine, writes, item)
    ensures ItemReady(c, a, writes,
                      if item.PrivItem? then CheckStep(c, a, facts, Alone(item.target)).facts else facts, item)
  {
    var w :| w in mine && ItemOk(c, a, writes, w, item);
    if item.PrivItem? {
      AloneKnown(c, a, mine, facts, item.target, w);
    }
  }

  /** After every history the answer is what the tables say. */
  ghost predicate AlwaysAgrees(c: Catalog, a: Asker, ps: PrivilegeSet) {
    forall pss :: CheckStep(c, a, After(c, a, pss), ps).r == Ok(UserOk(c, a, ps))
  }

  /** The cache never changes the answer to a set if and only if the set is satisfied by one role as soon
      as it can be pooled from several. */
  lemma {:induction false} AgreesIff(c: Catalog, a: Asker, ps: PrivilegeSet)
    requires Answerable(c, a, ps)
    ensures AlwaysAgrees(c, a, ps) <==> (Pooled(c, a, ps) ==> UserOk(c, a, ps))
  {
    if Pooled(c, a, ps) && !UserOk(c, a, ps) {
      var pss := PooledGranted(c, a, ps);
      assert CheckStep(c, a, After(c, a, pss), ps).r != Ok(UserOk(c, a, ps));
    } else {
      forall pss
        ensures CheckStep(c, a, After(c, a, pss), ps).r == Ok(UserOk(c, a, ps))
      {
        AnswerBetween(c, a, pss, ps);
      }
    }
  }

  /** Whatever can be pooled is granted after some history. */
  lemma {:induction false} PooledGranted(c: Catalog, a: Asker, ps: PrivilegeSet) returns (pss: seq<PrivilegeSet>)
    requires Answerable(c, a, ps) && Pooled(c, a, ps)
    ensures CheckStep(c, a, After(c, a, pss), ps).r == Ok(true)
  {
    var mine := MyRoles(c, a);
    MyRolesLeastClosed(c, a);
    var k :| 0 <= k < |ps.entries| && EntryPooled(c, a, mine, ps.writesDirectly, ps.entries[k]);
    var items := Parts(ps.entries[k]).value;
    pss := OneByOne(items, |items|);
    forall i | 0 <= i < |items|
      ensures ItemReady(c, a, ps.writesDirectly, After(c, a, pss), items[i])
    {
      OneByOneKnown(c, a, mine, ps.writesDirectly, items, |items|, i);
    }
    assert EntryReady(c, a, ps.writesDirectly, After(c, a, pss), ps.entries[k]);
    ReadyGranted(c, a, mine, After(c, a, pss), ps);
  }

  /** With at most one privilege per entry, pooling adds nothing. */
  lemma {:induction false} PlainAgrees(c: Catalog, a: Asker, ps: PrivilegeSet)
    requires Plain(ps)
    ensures Pooled(c, a, ps) ==> UserOk(c, a, ps)
    ensures Answerable(c, a, ps) ==> AlwaysAgrees(c, a, ps)
  {
    if Pooled(c, a, ps) {
      var k :| 0 <= k < |ps.entries| && EntryPooled(c, a, MyRoles(c, a), ps.writesDirectly, ps.entries[k]);
      var w := OneRoleForAll(c, a, ps.writesDirectly, ps.entries[k]);
      assert Inherited(c, a, w) && RoleOk(c, a, ps, w);
    }
    if Answerable(c, a, ps) {
      AgreesIff(c, a, ps);
    }
  }

  lemma {:induction false} OneRoleForAll(c: Catalog, a: Asker, writes: bool, e: Entry) returns (w: Id)
    requires EntryPlain(e) && EntryPooled(c, a, MyRoles(c, a), writes, e)
    ensures w in MyRoles(c, a) && EntryOk(c, a, writes, w, e)
  {
    var items := Parts(e).value;
    if k :| 0 <= k < |items| && items[k].PrivItem? {
      assert ItemPooled(c, a, MyRoles(c, a), writes, items[k]);
      w :| w in MyRoles(c, a) && ItemOk(c, a, writes, w, items[k]);
      forall i | 0 <= i < |items|
        ensures ItemOk(c, a, writes, w, items[i])
      {
        assert ItemPooled(c, a, MyRoles(c, a), writes, items[i]);
        assert i == k || items[i].GrantItem?;
      }
    } else {
      StartInherited(c, a);
      w := a.ses.defaultRole;
      forall i | 0 <= i < |items|
        ensures ItemOk(c, a, writes, w, items[i])
      {
        assert ItemPooled(c, a, MyRoles(c, a), writes, items[i]);
      }
    }
  }

  // ---- Two tables, each readable by another role ----

  const ROLE_A := Id(1)
  const ROLE_B := Id(2)
  const READ := Priv(7)
  const JOIN_ASKER := Asker(Session(Id(9), ROLE_A, true), false, "d", true)
  const JOIN_CATALOG := Catalog(
    Tables(map["a" := ROLE_A, "b" := ROLE_B], map["u" := Id(9)], {},
      {GrantRow(ROLE_A, Id(9), false), GrantRow(ROLE_B, Id(9), false)},
      {RolePriv(ROLE_A, TableObj, 1, READ, Table), RolePriv(ROLE_B, TableObj, 2, READ, Table)}),
    {DbRow(1, "d")},
    {TableRow(1, "t1", 1), TableRow(2, "t2", 1)})
  const T1 := Target(TableObj, READ, "d", "t1")
  const T2 := Target(TableObj, READ, "d", "t2")
  const JOIN_ITEMS := [PrivItem(T1), PrivItem(T2)]
  const JOIN := PrivilegeSet([Compound(Some(JOIN_ITEMS))], false)

  lemma {:induction false} JoinRights()
    ensures HasPrivilege(JOIN_CATALOG, JOIN_ASKER, ROLE_A, T1) && HasPrivilege(JOIN_CATALOG, JOIN_ASKER, ROLE_B, T2)
  {
    var c := JOIN_CATALOG;
    assert RolePriv(ROLE_A, TableObj, 1, READ, Table) in c.grants.rolePrivs &&
      RolePriv(ROLE_B, TableObj, 2, READ, Table) in c.grants.rolePrivs;
    assert DbRow(1, "d") in c.dbs && TableRow(1, "t1", 1) in c.tables && TableRow(2, "t2", 1) in c.tables;
    assert Levels(TableObj)[4] == Table;
    assert Holds(c, JOIN_ASKER, ROLE_A, T1, Table) && Holds(c, JOIN_ASKER, ROLE_B, T2, Table);
  }

  lemma {:induction false} JoinLimits()
    ensures !HasPrivilege(JOIN_CATALOG, JOIN_ASKER, ROLE_A, T2) && !HasPrivilege(JOIN_CATALOG, JOIN_ASKER, ROLE_B, T1)
  {}

  lemma {:induction false} JoinInUse()
    ensures RolesInUse(JOIN_CATALOG.grants, JOIN_ASKER.ses) == {ROLE_A, ROLE_B}
  {
    var t := JOIN_CATALOG.grants;
    assert GrantRow(ROLE_A, Id(9), false) in t.userGrants && GrantRow(ROLE_B, Id(9), false) in t.userGrants;
  }

  lemma {:induction false} NoInheritance(c: Catalog, a: Asker)
    requires c.grants.roleGrants == {}
    ensures forall v :: v in MyRoles(c, a) <==> v in RolesInUse(c.grants, a.ses)
  {
    StartInherited(c, a);
    assert InheritEdges(c.grants) == {};
    ClosureVisited(c, a, RolesInUse(c.grants, a.ses));
  }

  lemma {:induction false} TwoAscending(p: Id, q: Id)
    requires p.value < q.value
    ensures Ascending({p, q}) == [p, q]
  {
    assert Least({p, q}) == p && {p, q} - {p} == {q};
    assert Least({q}) == q && {q} - {q} == {};
    assert Ascending({q}) == [q] + Ascending({}) == [q];
    assert Ascending({p, q}) == [p] + Ascending({q});
  }

  /** Two items for one role: the first is known afterwards if it was, or if the role has it. */
  lemma {:induction false} PairStep(c: Catalog, a: Asker, mine: iset<Id>, facts: Facts, role: Id, items: seq<Item>)
    requires role in mine && |items| == 2 && items[0].PrivItem? && items[1].PrivItem?
    requires ItemPlain(c, a, items[0]) && ItemPlain(c, a, items[1])
    requires !OperatesCatalog(a, false, items[0].target.db) && !OperatesCatalog(a, false, items[1].target.db)
    requires Known(a, facts, items[0].target) || HasPrivilege(c, a, role, items[0].target)
    ensures var s := ItemsStep(c, a, false, facts, role, items, 0);
      && s.r.Ok? && Known(a, s.facts, items[0].target)
      && (HasPrivilege(c, a, role, items[1].target) ==> s.r == Ok(true))
  {
    TargetLaw(c, a, mine, facts, role, items[0].target);
    var s := ItemStep(c, a, false, facts, role, items[0]);
    TargetLaw(c, a, mine, s.facts, role, items[1].target);
    var t := ItemStep(c, a, false, s.facts, role, items[1]);
    assert t.r == Ok(true) ==> ItemsStep(c, a, false, t.facts, role, items, 2) == t;
    assert ItemsStep(c, a, false, s.facts, role, items, 1) == t;
  }

  /** The first role files what it has; the second one needs only the rest. */
  lemma {:induction false} PairGranted(c: Catalog, a: Asker, mine: iset<Id>, p: Id, q: Id, items: seq<Item>,
                                       ps: PrivilegeSet)
    requires p in mine && q in mine && ps == PrivilegeSet([Compound(Some(items))], false)
    requires |items| == 2 && items[0].PrivItem? && items[1].PrivItem?
    requires ItemPlain(c, a, items[0]) && ItemPlain(c, a, items[1])
    requires !OperatesCatalog(a, false, items[0].target.db) && !OperatesCatalog(a, false, items[1].target.db)
    requires HasPrivilege(c, a, p, items[0].target) && HasPrivilege(c, a, q, items[1].target)
    ensures RolesStep(c, a, iset{}, [p, q], ps).r == Ok(true)
  {
    PairStep(c, a, mine, iset{}, p, items);
    var s := EntryStep(c, a, false, iset{}, p, ps.entries[0]);
    assert EntriesStep(c, a, s.facts, p, ps, 1) == Step(Ok(false), s.facts);
    assert EntriesStep(c, a, iset{}, p, ps, 0) == s;
    PairStep(c, a, mine, s.facts, q, items);
    var t := EntryStep(c, a, false, s.facts, q, ps.entries[0]);
    assert EntriesStep(c, a, s.facts, q, ps, 0) == t;
    assert [p, q][1..] == [q];
  }

  lemma {:induction false} HeldPooled(c: Catalog, a: Asker, mine: iset<Id>, role: Id, item: Item)
    requires role in mine && item.PrivItem? && HasPrivilege(c, a, role, item.target)
    ensures ItemPooled(c, a, mine, false, item)
  {
    assert ItemOk(c, a, false, role, item);
  }

  lemma {:induction false} PairAnswerable(c: Catalog, a: Asker, items: seq<Item>, ps: PrivilegeSet)
    requires ps == PrivilegeSet([Compound(Some(items))], false) && |items| == 2
    requires ItemPlain(c, a, items[0]) && ItemPlain(c, a, items[1])
    ensures Answerable(c, a, ps)
  {
    assert EntryAnswerable(c, a, ps.entries[0]);
  }

  lemma {:induction false} PairPooled(c: Catalog, a: Asker, mine: iset<Id>, items: seq<Item>, ps: PrivilegeSet)
    requires ps == PrivilegeSet([Compound(Some(items))], false) && |items| == 2
    requires ItemPooled(c, a, mine, false, items[0]) && ItemPooled(c, a, mine, false, items[1])
    ensures PooledBy(c, a, mine, ps)
  {
    assert EntryPooled(c, a, mine, false, ps.entries[0]);
  }

  lemma {:induction false} PairRejected(c: Catalog, a: Asker, role: Id, items: seq<Item>, ps: PrivilegeSet)
    requires ps == PrivilegeSet([Compound(Some(items))], false)
    requires |items| == 2 && items[0].PrivItem? && items[1].PrivItem?
    requires !HasPrivilege(c, a, role, items[0].target) || !HasPrivilege(c, a, role, items[1].target)
    ensures !RoleOk(c, a, ps, role)
  {
    assert !ItemOk(c, a, false, role, items[0]) || !ItemOk(c, a, false, role, items[1]);
    assert !EntryOk(c, a, false, role, ps.entries[0]);
  }

  lemma {:induction false} NoneIsUserOk(c: Catalog, a: Asker, ps: PrivilegeSet)
    requires NoneOk(c, a, MyRoles(c, a), ps)
    ensures !UserOk(c, a, ps)
  {}

  lemma {:induction false} HeldPlain(c: Catalog, a: Asker, role: Id, item: Item)
    requires item.PrivItem? && HasPrivilege(c, a, role, item.target)
    ensures ItemPlain(c, a, item) && !OperatesCatalog(a, false, item.target.db)
  {}

  lemma {:induction false} InUseRejected(c: Catalog, a: Asker, inUse: set<Id>, ps: PrivilegeSet)
    requires c.grants.roleGrants == {} && inUse == RolesInUse(c.grants, a.ses) && AllRejected(c, a, ps, inUse)
    ensures !UserOk(c, a, ps)
  {
    NoInheritance(c, a);
    assert forall v :: v in MyRoles(c, a) ==> v in inUse;
    NoneIsUserOk(c, a, ps);
  }

  lemma {:induction false} PairNotAllowed(c: Catalog, a: Asker, p: Id, q: Id, items: seq<Item>, ps: PrivilegeSet)
    requires c.grants.roleGrants == {} && RolesInUse(c.grants, a.ses) == {p, q}
    requires ps == PrivilegeSet([Compound(Some(items))], false)
    requires |items| == 2 && items[0].PrivItem? && items[1].PrivItem?
    requires !HasPrivilege(c, a, p, items[1].target) && !HasPrivilege(c, a, q, items[0].target)
    ensures !UserOk(c, a, ps)
  {
    PairRejected(c, a, p, items, ps);
    PairRejected(c, a, q, items, ps);
    InUseRejected(c, a, RolesInUse(c.grants, a.ses), ps);
  }

  lemma {:induction false} PairIsPooled(c: Catalog, a: Asker, p: Id, q: Id, items: seq<Item>, ps: PrivilegeSet)
    requires RolesInUse(c.grants, a.ses) == {p, q} && ps == PrivilegeSet([Compound(Some(items))], false)
    requires |items| == 2 && items[0].PrivItem? && items[1].PrivItem?
    requires HasPrivilege(c, a, p, items[0].target) && HasPrivilege(c, a, q, items[1].target)
    ensures Answerable(c, a, ps) && Pooled(c, a, ps)
  {
    StartInherited(c, a);
    HeldPlain(c, a, p, items[0]);
    HeldPlain(c, a, q, items[1]);
    HeldPooled(c, a, MyRoles(c, a), p, items[0]);
    HeldPooled(c, a, MyRoles(c, a), q, items[1]);
    PairAnswerable(c, a, items, ps);
    PairPooled(c, a, MyRoles(c, a), items, ps);
  }

  lemma {:induction false} PairAnswer(c: Catalog, a: Asker, p: Id, q: Id, items: seq<Item>, ps: PrivilegeSet)
    requires RolesInUse(c.grants, a.ses) == {p, q} && p.value < q.value
    requires ps == PrivilegeSet([Compound(Some(items))], false)
    requires |items| == 2 && items[0].PrivItem? && items[1].PrivItem?
    requires HasPrivilege(c, a, p, items[0].target) && HasPrivilege(c, a, q, items[1].target)
    ensures CheckStep(c, a, iset{}, ps).r == Ok(true)
  {
    HeldPlain(c, a, p, items[0]);
    HeldPlain(c, a, q, items[1]);
    PairGranted(c, a, iset{p, q}, p, q, items, ps);
    TwoAscending(p, q);
  }

  /** No role of the asker may read both tables, */
  lemma {:induction false} JoinNotAllowed()
    ensures Answerable(JOIN_CATALOG, JOIN_ASKER, JOIN) && Pooled(JOIN_CATALOG, JOIN_ASKER, JOIN)
    ensures !UserOk(JOIN_CATALOG, JOIN_ASKER, JOIN)
  {
    JoinRights();
    JoinLimits();
    JoinInUse();
    PairIsPooled(JOIN_CATALOG, JOIN_ASKER, ROLE_A, ROLE_B, JOIN_ITEMS, JOIN);
    PairNotAllowed(JOIN_CATALOG, JOIN_ASKER, ROLE_A, ROLE_B, JOIN_ITEMS, JOIN);
  }

  /** but a join of them is granted by an empty cache. */
  lemma {:induction false} JoinGranted()
    ensures CheckStep(JOIN_CATALOG, JOIN_ASKER, iset{}, JOIN).r == Ok(true)
  {
    JoinRights();
    JoinInUse();
    PairAnswer(JOIN_CATALOG, JOIN_ASKER, ROLE_A, ROLE_B, JOIN_ITEMS, JOIN);
  }
}
