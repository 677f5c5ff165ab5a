/** The session's privilege cache and the two algorithms that decide a privilege set with it. */
module PrivilegeCheck {
  import opened Wrappers
  import opened Paths
  import opened RoleCatalog
  import opened RoleSearch
  import opened Privileges
  import opened PrivilegeAnswers

  class Cache {
    var table: map<Level, set<Priv>>
    var table2: map<string, set<Priv>>
    var table3: map<string, map<string, set<Priv>>>
    var database: map<Level, set<Priv>>
    var database2: map<string, set<Priv>>
    var account: map<Level, set<Priv>>

    constructor ()
      ensures forall s :: Stored(s) == {}
    {
      table, table2, table3 := map[], map[], map[];
      database, database2, account := map[], map[], map[];
    }

    /** The privileges filed under a slot; an absent store is an empty one. */
    function Stored(s: Slot): set<Priv>
      reads this
    {
      match s
      case TableAny(l) => if l in table then table[l] else {}
      case TableInDb(d) => if d in table2 then table2[d] else {}
      case TableNamed(d, t) => if d in table3 && t in table3[d] then table3[d][t] else {}
      case DbAny(l) => if l in database then database[l] else {}
      case DbNamed(d) => if d in database2 then database2[d] else {}
      case AccountAny(l) => if l in account then account[l] else {}
      case NoSlot => {}
    }

    function Has(obj: ObjType, pl: Level, db: string, tab: string, priv: Priv): bool
      reads this
    {
      priv in Stored(SlotOf(obj, pl, db, tab))
    }

    /** All facts in the cache. */
    ghost function Facts(): Facts
      reads this
    {
      iset f: Fact | f.priv in Stored(f.slot)
    }

    method Add(obj: ObjType, pl: Level, db: string, tab: string, priv: Priv)
      requires SlotOf(obj, pl, db, tab) != NoSlot
      modifies this
      ensures Facts() == old(Facts()) + iset{Fact(SlotOf(obj, pl, db, tab), priv)}
    {
      var slot := SlotOf(obj, pl, db, tab);
      var all := Stored(slot) + {priv};
      match slot {
        case TableAny(l) => table := table[l := all];
        case TableInDb(d) => table2 := table2[d := all];
        case TableNamed(d, t) =>
          var inDb := if d in table3 then table3[d] else map[];
          table3 := table3[d := inDb[t := all]];
        case DbAny(l) => database := database[l := all];
        case DbNamed(d) => database2 := database2[d := all];
        case AccountAny(l) => account := account[l := all];
        case NoSlot =>
      }
    }

    method Invalidate()
      modifies this
      ensures Facts() == iset{}
    {
      table, database, account := map[], map[], map[];
      table2, table3, database2 := map[], map[], map[];
    }
  }

  /** Algorithms 1 and 2 for one asker against fixed tables. */
  class Checker {
    const c: Catalog
    const a: Asker
    const cache: Cache

    constructor (c: Catalog, a: Asker, cache: Cache)
      ensures this.c == c && this.a == a && this.cache == cache
    {
      this.c, this.a, this.cache := c, a, cache;
    }

    /** One privilege of one role, level by level, asking the cache before the tables. */
    method VerifyTarget(role: Id, x: Target) returns (r: Result)
      modifies cache
      ensures Step(r, cache.Facts()) == TargetStep(c, a, old(cache.Facts()), role, x)
    {
      if x.obj == OtherObj {
        return Err;
      }
      var db, pls := FullDb(a, x.db), Levels(x.obj);
      for k := 0 to |pls|
        invariant cache.Facts() == old(cache.Facts())
        invariant ScanLevels(c, a, cache.Facts(), role, x, k) == TargetStep(c, a, old(cache.Facts()), role, x)
      {
        var pl := pls[k];
        assert FactOf(a, x, pl) in cache.Facts() <==> cache.Has(x.obj, pl, db, x.tab, x.priv);
        if cache.Has(x.obj, pl, db, x.tab, x.priv) {
          return Ok(true);
        }
        var q := Query(c, role, x.obj, pl, db, x.tab, x.priv);
        assert q.Some?;  // the lists hold supported levels only
        if q.value {
          cache.Add(x.obj, pl, db, x.tab, x.priv);
          return Ok(true);
        }
      }
      return Ok(false);
    }

    /** One item of an entry. */
    method VerifyItem(role: Id, item: Item, writes: bool) returns (r: Result)
      modifies cache
      ensures Step(r, cache.Facts()) == ItemStep(c, a, writes, old(cache.Facts()), role, item)
    {
      match item {
        case GrantItem(name, users) => r := VerifyGrant(name, users);
        case PrivItem(x) =>
          r := VerifyTarget(role, x);
          if r == Ok(true) && OperatesCatalog(a, writes, x.db) {
            r := Ok(false);
          }
      }
    }

    method VerifyGrant(name: string, users: seq<string>) returns (r: Result)
      ensures r == GrantAnswer(c, a, name, users)
    {
      var answer := CanGrantRoles(c.grants, a.ses, [name]);
      if answer.NoRole? {
        return Err;
      }
      assert [name][0] == name;
      if answer.yes {
        for k := 0 to |users|
          invariant k > 0 ==> !IsAdminRole(a.sys, name)
        {
          // the check of special roles, for a user that is not known to be an administrator
          if SpecialInGrant(a.sys, VerifiedRole(RoleType, name, Id(0), false),
                         VerifiedRole(UserType, users[k], Id(0), false)) {
            return Err;
          }
        }
      }
      return Ok(answer.yes);
    }

    method VerifyEntry(role: Id, e: Entry, writes: bool) returns (r: Result)
      modifies cache
      ensures Step(r, cache.Facts()) == EntryStep(c, a, writes, old(cache.Facts()), role, e)
    {
      match e {
        case General(x) =>
          r := VerifyItem(role, PrivItem(x), writes);
          SingleItem(c, a, writes, old(cache.Facts()), role, x);
        case Compound(None) => r := Ok(false);
        case Compound(Some(items)) => r := VerifyItems(role, items, writes);
      }
    }

    method VerifyItems(role: Id, items: seq<Item>, writes: bool) returns (r: Result)
      modifies cache
      ensures Step(r, cache.Facts()) == ItemsStep(c, a, writes, old(cache.Facts()), role, items, 0)
    {
      for k := 0 to |items|
        invariant ItemsStep(c, a, writes, cache.Facts(), role, items, k) ==
          ItemsStep(c, a, writes, old(cache.Facts()), role, items, 0)
      {
        r := VerifyItem(role, items[k], writes);
        if r != Ok(true) {
          return;
        }
      }
      return Ok(true);
    }

    /** Algorithm 2: whether one of the roles, in ascending order, is granted one of the entries. */
    method RoleSetHasPrivilegeSet(roles: set<Id>, ps: PrivilegeSet) returns (r: Result)
      modifies cache
      ensures Step(r, cache.Facts()) == RolesStep(c, a, old(cache.Facts()), Ascending(roles), ps)
    {
      if |ps.entries| == 0 {
        NoEntries(c, a, cache.Facts(), Ascending(roles), ps);
        return Ok(false);
      }
      var todo := roles;
      while todo != {}
        invariant RolesStep(c, a, cache.Facts(), Ascending(todo), ps) ==
          RolesStep(c, a, old(cache.Facts()), Ascending(roles), ps)
        decreases todo
      {
        SomeLeast(todo);
        var role :| IsLeast(todo, role);
        assert role == Least(todo);
        ghost var keys := Ascending(todo);
        assert keys[0] == role && keys[1..] == Ascending(todo - {role});
        r := VerifyEntries(role, ps);
        if r != Ok(false) {
          return;
        }
        todo := todo - {role};
      }
      return Ok(false);
    }

    method VerifyEntries(role: Id, ps: PrivilegeSet) returns (r: Result)
      modifies cache
      ensures Step(r, cache.Facts()) == EntriesStep(c, a, old(cache.Facts()), role, ps, 0)
    {
      for k := 0 to |ps.entries|
        invariant EntriesStep(c, a, cache.Facts(), role, ps, k) == EntriesStep(c, a, old(cache.Facts()), role, ps, 0)
      {
        r := VerifyEntry(role, ps.entries[k], ps.writesDirectly);
        if r != Ok(false) {
          return;
        }
      }
      return Ok(false);
    }

    /** Algorithm 1: level by level through the inherited roles, until one level is accepted or nothing
        new turns up. `levels` are the levels handed to algorithm 2, `seen` what the cache held each time. */
    method UserHasPrivilegeSet(ps: PrivilegeSet) returns (r: Result, ghost levels: seq<set<Id>>, ghost seen: seq<Facts>)
      modifies cache
      ensures Step(r, cache.Facts()) == CheckStep(c, a, old(cache.Facts()), ps)
      ensures Tried(c, a, old(cache.Facts()), ps, levels, seen, Step(r, cache.Facts()))
      ensures r == Ok(false) ==> NextLevel(c, UnionAll(levels)) == {}
    {
      var level := RolesInUse(c.grants, a.ses);
      LevelsStart(c, a);
      levels, seen := [level], [cache.Facts()];
      r := RoleSetHasPrivilegeSet(level, ps);
      var visited, memo: map<Id, set<Id>> := level, map[];
      while r == Ok(false)
        invariant Tried(c, a, old(cache.Facts()), ps, levels, seen, Step(r, cache.Facts()))
        invariant visited == UnionAll(levels)
        invariant level <= visited && ClosedBut(InheritEdges(c.grants), visited, level) && memo.Keys == visited - level
        invariant CheckStep(c, a, old(cache.Facts()), ps) ==
          if r == Ok(false) then ClimbStep(c, a, cache.Facts(), visited, ps) else Step(r, cache.Facts())
        decreases Universe(c, a) - visited, r == Ok(false)
      {
        ghost var before, facts := visited, cache.Facts();
        Shrinks(c, a, visited);
        var next;
        next, visited, memo := ExpandLevel(level, visited, memo);
        if next == {} {
          return;
        }
        r := RoleSetHasPrivilegeSet(next, ps);
        TriedMore(c, a, old(cache.Facts()), ps, levels, seen, facts, next, Step(r, cache.Facts()));
        levels, seen := levels + [next], seen + [facts];
        level := next;
      }
    }

    /** Any sequence of checks on one cache, which starts empty. */
    method CheckMany(pss: seq<PrivilegeSet>) returns (rs: seq<Result>)
      requires cache.Facts() == iset{}
      modifies cache
      ensures cache.Facts() == After(c, a, pss) && rs == Answers(c, a, pss)
    {
      rs := [];
      for k := 0 to |pss|
        invariant cache.Facts() == After(c, a, pss[..k]) && rs == Answers(c, a, pss[..k])
      {
        assert pss[..k + 1][..k] == pss[..k];
        var r := Check(pss[k]);
        rs := rs + [r];
      }
      assert pss[..|pss|] == pss;
    }

    method Check(ps: PrivilegeSet) returns (r: Result)
      modifies cache
      ensures Step(r, cache.Facts()) == CheckStep(c, a, old(cache.Facts()), ps)
    {
      ghost var levels, seen;
      r, levels, seen := UserHasPrivilegeSet(ps);
    }

    /** Expands every role of a level; the memo of roles expanded before is never hit. */
    method ExpandLevel(level: set<Id>, visited: set<Id>, memo: map<Id, set<Id>>)
      returns (next: set<Id>, visited': set<Id>, memo': map<Id, set<Id>>)
      requires level <= visited && ClosedBut(InheritEdges(c.grants), visited, level)
      requires memo.Keys == visited - level
      ensures next == NextLevel(c, visited) && visited' == visited + next
      ensures memo'.Keys == visited
    {
      next, visited', memo' := {}, visited, memo;
      var todo := level;
      while todo != {}
        invariant todo <= level && visited' == visited + next && next !! visited
        invariant next <= NextLevel(c, visited)
        invariant forall e :: e in InheritEdges(c.grants) && e.0 in visited && e.0 !in todo ==> e.1 in visited'
        invariant memo'.Keys == visited - todo
        decreases todo
      {
        var roleA :| roleA in todo;
        assert roleA !in memo';
        var granted := InheritedRoles(c.grants, roleA) - visited';
        visited', next := visited' + granted, next + granted;
        memo' := memo'[roleA := granted];
        todo := todo - {roleA};
      }
    }
  }

  lemma {:induction false} SingleItem(c: Catalog, a: Asker, writes: bool, facts: Facts, role: Id, x: Target)
    ensures EntryStep(c, a, writes, facts, role, General(x)) == ItemStep(c, a, writes, facts, role, PrivItem(x))
  {
    var items := Parts(General(x)).value;
    var s := ItemStep(c, a, writes, facts, role, items[0]);
    assert ItemsStep(c, a, writes, s.facts, role, items, 1) == Step(Ok(true), s.facts);
  }

  lemma {:induction false} NoEntries(c: Catalog, a: Asker, facts: Facts, roles: seq<Id>, ps: PrivilegeSet)
    requires ps.entries == []
    ensures RolesStep(c, a, facts, roles, ps) == Step(Ok(false), facts)
    decreases |roles|
  {
    if roles != [] {
      NoEntries(c, a, facts, roles[1..], ps);
    }
  }

  // ---- Levels of inheritance ----

  ghost function UnionAll(ls: seq<set<Id>>): set<Id> {
    if ls == [] then {} else UnionAll(ls[..|ls| - 1]) + ls[|ls| - 1]
  }

  /** The roles in use, then each time all that the levels so far inherit and do not contain. */
  ghost predicate IsLevels(c: Catalog, a: Asker, ls: seq<set<Id>>) {
    && |ls| > 0
    && ls[0] == RolesInUse(c.grants, a.ses)
    && forall k :: 0 < k < |ls| ==> ls[k] == NextLevel(c, UnionAll(ls[..k]))
  }

  lemma {:induction false} LevelsStart(c: Catalog, a: Asker)
    ensures IsLevels(c, a, [RolesInUse(c.grants, a.ses)])
    ensures UnionAll([RolesInUse(c.grants, a.ses)]) == RolesInUse(c.grants, a.ses)
  {}

  lemma {:induction false} LevelsSnoc(c: Catalog, a: Asker, ls: seq<set<Id>>)
    requires IsLevels(c, a, ls)
    ensures IsLevels(c, a, ls + [NextLevel(c, UnionAll(ls))])
    ensures UnionAll(ls + [NextLevel(c, UnionAll(ls))]) == UnionAll(ls) + NextLevel(c, UnionAll(ls))
  {
    var more := ls + [NextLevel(c, UnionAll(ls))];
    assert more[..|ls|] == ls;
    forall k | 0 < k < |more|
      ensures more[k] == NextLevel(c, UnionAll(more[..k]))
    {
      if k < |ls| {
        assert more[..k] == ls[..k];
      }
    }
  }

  /** Every level but the last was rejected, and the last one gave the answer. */
  ghost predicate Tried(c: Catalog, a: Asker, facts: Facts, ps: PrivilegeSet, levels: seq<set<Id>>, seen: seq<Facts>,
                        end: Step) {
    && IsLevels(c, a, levels) && |seen| == |levels| && seen[0] == facts
    && (forall k :: 0 <= k < |levels| - 1 ==>
          RolesStep(c, a, seen[k], Ascending(levels[k]), ps) == Step(Ok(false), seen[k + 1]))
    && RolesStep(c, a, seen[|seen| - 1], Ascending(levels[|levels| - 1]), ps) == end
  }

  lemma {:induction false} TriedMore(c: Catalog, a: Asker, facts: Facts, ps: PrivilegeSet, levels: seq<set<Id>>,
                                     seen: seq<Facts>,
                                     now: Facts, next: set<Id>, end: Step)
    requires Tried(c, a, facts, ps, levels, seen, Step(Ok(false), now)) && next == NextLevel(c, UnionAll(levels))
    requires RolesStep(c, a, now, Ascending(next), ps) == end
    ensures Tried(c, a, facts, ps, levels + [next], seen + [now], end)
    ensures UnionAll(levels + [next]) == UnionAll(levels) + next
  {
    LevelsSnoc(c, a, levels);
    var ls, fs := levels + [next], seen + [now];
    forall k | 0 <= k < |ls| - 1
      ensures RolesStep(c, a, fs[k], Ascending(ls[k]), ps) == Step(Ok(false), fs[k + 1])
    {
      assert ls[k] == levels[k] && fs[k] == seen[k];
    }
  }

  /** Nothing leads out of `visited` but from the roles of `level`. */
  ghost predicate ClosedBut(es: Edges, visited: set<Id>, level: set<Id>) {
    forall e :: e in es && e.0 in visited && e.0 !in level ==> e.1 in visited
  }
}
