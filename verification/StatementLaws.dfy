/** What a GRANT, a REVOKE or a DROP does to the tables, row by row and in terms of the names in the
    statement, and exactly when it is completed. */
module StatementLaws {
  import opened Wrappers
  import opened Paths
  import opened RoleCatalog

  /** A role named on the left and a role named on the right have these ids. */
  ghost predicate RolePair(t: Tables, from: seq<string>, to: seq<string>, granted: Id, grantee: Id) {
    exists f, g :: f in from && g in to && f in t.roles && g in t.roles
      && t.roles[f] == granted && t.roles[g] == grantee
  }

  /** A role named on the left, and a user named on the right by a name that is no role's. */
  ghost predicate UserPair(t: Tables, from: seq<string>, to: seq<string>, granted: Id, grantee: Id) {
    exists f, g :: f in from && g in to && f in t.roles && g !in t.roles && g in t.users
      && t.roles[f] == granted && t.users[g] == grantee
  }

  ghost predicate Pair(t: Tables, from: seq<string>, to: seq<string>, kind: Kind, granted: Id, grantee: Id) {
    if kind == RoleType then RolePair(t, from, to, granted, grantee) else UserPair(t, from, to, granted, grantee)
  }

  ghost predicate NamedBy(t: Tables, sys: bool, names: seq<string>, r: VerifiedRole) {
    exists n :: n in names && ResolveGrantee(t, sys, n) == Some(r)
  }

  /** The grantees that the names resolve to, and no others. */
  ghost predicate Names(t: Tables, sys: bool, names: seq<string>, rs: seq<VerifiedRole>) {
    && (forall b :: 0 <= b < |rs| ==> NamedBy(t, sys, names, rs[b]))
    && (forall n :: n in names && ResolveGrantee(t, sys, n).Some? ==> ResolveGrantee(t, sys, n).value in rs)
  }

  lemma {:induction false} GranteesAreNamed(t: Tables, sys: bool, names: seq<string>)
    requires GranteesKnown(t, names)
    ensures Names(t, sys, names, GranteesNamed(t, sys, names))
  {
    var rs := GranteesNamed(t, sys, names);
    forall n | n in names
      ensures ResolveGrantee(t, sys, n).Some? ==> ResolveGrantee(t, sys, n).value in rs
    {
      var k :| 0 <= k < |names| && names[k] == n;
      assert rs[k] in rs;
    }
    forall b | 0 <= b < |rs|
      ensures NamedBy(t, sys, names, rs[b])
    {
      assert names[b] in names;
    }
  }

  lemma {:induction false} ExistingAreNamed(t: Tables, sys: bool, names: seq<string>)
    ensures Names(t, sys, names, ExistingGrantees(t, sys, names))
    decreases |names|
  {
    if names != [] {
      var n := |names| - 1;
      ExistingAreNamed(t, sys, names[..n]);
      var rest, rs := ExistingGrantees(t, sys, names[..n]), ExistingGrantees(t, sys, names);
      assert forall x :: x in names <==> x in names[..n] || x == names[n];
      assert forall x :: x in rs <==> x in rest || Some(x) == ResolveGrantee(t, sys, names[n]);
      forall b | 0 <= b < |rs|
        ensures NamedBy(t, sys, names, rs[b])
      {
        if b < |rest| {
          assert rs[b] == rest[b] && NamedBy(t, sys, names[..n], rest[b]);
        } else {
          assert names[n] in names;
        }
      }
    }
  }

  lemma {:induction false} RolesAreNamed(t: Tables, names: seq<string>)
    requires RolesKnown(t, names)
    ensures var rs := RolesNamed(t, names);
      && (forall a :: 0 <= a < |rs| ==> rs[a].name in names && rs[a].name in t.roles && rs[a].id == t.roles[rs[a].name])
      && (forall n :: n in names ==> VerifiedRole(RoleType, n, t.roles[n], false) in rs)
  {
    var rs := RolesNamed(t, names);
    forall n | n in names
      ensures VerifiedRole(RoleType, n, t.roles[n], false) in rs
    {
      var k :| 0 <= k < |names| && names[k] == n;
      assert rs[k] in rs;
    }
  }

  /** The keys of a statement are the pairs that it names. */
  lemma {:induction false} KeysAreNamed(t: Tables, sys: bool, from: seq<string>, to: seq<string>, rs: seq<VerifiedRole>,
                                        kind: Kind, granted: Id, grantee: Id)
    requires RolesKnown(t, from) && Names(t, sys, to, rs)
    ensures (granted, grantee) in Keys(RolesNamed(t, from), rs, kind) <==> Pair(t, from, to, kind, granted, grantee)
  {
    if (granted, grantee) in Keys(RolesNamed(t, from), rs, kind) {
      KeyIsNamed(t, sys, from, to, rs, kind, granted, grantee);
    }
    if Pair(t, from, to, kind, granted, grantee) {
      NamedIsKey(t, sys, from, to, rs, kind, granted, grantee);
    }
  }

  lemma {:induction false} KeyIsNamed(t: Tables, sys: bool, from: seq<string>, to: seq<string>, rs: seq<VerifiedRole>,
                                      kind: Kind, granted: Id, grantee: Id)
    requires RolesKnown(t, from) && Names(t, sys, to, rs)
    requires (granted, grantee) in Keys(RolesNamed(t, from), rs, kind)
    ensures Pair(t, from, to, kind, granted, grantee)
  {
    var fs := RolesNamed(t, from);
    RolesAreNamed(t, from);
    var a, b :| 0 <= a < |fs| && 0 <= b < |rs| && rs[b].kind == kind && fs[a].id == granted && rs[b].id == grantee;
    assert NamedBy(t, sys, to, rs[b]);
    var g :| g in to && ResolveGrantee(t, sys, g) == Some(rs[b]);
    var f := fs[a].name;
    assert f in from && t.roles[f] == granted;
  }

  lemma {:induction false} NamedIsKey(t: Tables, sys: bool, from: seq<string>, to: seq<string>, rs: seq<VerifiedRole>,
                                      kind: Kind, granted: Id, grantee: Id)
    requires RolesKnown(t, from) && Names(t, sys, to, rs) && Pair(t, from, to, kind, granted, grantee)
    ensures (granted, grantee) in Keys(RolesNamed(t, from), rs, kind)
  {
    var fs := RolesNamed(t, from);
    RolesAreNamed(t, from);
    var f, g := PairNames(t, from, to, kind, granted, grantee);
    var a :| 0 <= a < |fs| && fs[a] == VerifiedRole(RoleType, f, t.roles[f], false);
    var b :| 0 <= b < |rs| && rs[b] == ResolveGrantee(t, sys, g).value;
    assert Before(a, b, |fs|, 0);
    assert (fs[a].id, rs[b].id) in Keys(fs, rs, kind);
  }

  lemma {:induction false} PairNames(t: Tables, from: seq<string>, to: seq<string>, kind: Kind, granted: Id,
                                     grantee: Id)
    returns (f: string, g: string)
    requires Pair(t, from, to, kind, granted, grantee)
    ensures f in from && g in to && f in t.roles && t.roles[f] == granted
    ensures kind == RoleType ==> g in t.roles && t.roles[g] == grantee
    ensures kind == UserType ==> g !in t.roles && g in t.users && t.users[g] == grantee
  {
    if kind == RoleType {
      f, g :| f in from && g in to && f in t.roles && g in t.roles && t.roles[f] == granted && t.roles[g] == grantee;
    } else {
      f, g :| f in from && g in to && f in t.roles && g !in t.roles && g in t.users
        && t.roles[f] == granted && t.users[g] == grantee;
    }
  }

  // ---- Which rows there are afterwards ----

  /** A completed GRANT leaves every named pair with exactly one row, which carries the option of the
      statement, and all other rows as they were. */
  lemma {:induction false} GrantWrites(t: Tables, sys: bool, s: Stmt, t': Tables)
    requires GrantSpec(t, sys, s, t', Done)
    ensures t'.roles == t.roles && t'.users == t.users && t'.rolePrivs == t.rolePrivs
    ensures forall r :: r in t'.roleGrants <==>
      if RolePair(t, s.from, s.to, r.granted, r.grantee) then r.withGrantOption == s.withGrantOption
      else r in t.roleGrants
    ensures forall r :: r in t'.userGrants <==>
      if UserPair(t, s.from, s.to, r.granted, r.grantee) then r.withGrantOption == s.withGrantOption
      else r in t.userGrants
  {
    var rs := GranteesNamed(t, sys, s.to);
    GranteesAreNamed(t, sys, s.to);
    forall r: GrantRow
      ensures (r.granted, r.grantee) in Keys(RolesNamed(t, s.from), rs, RoleType) <==>
        RolePair(t, s.from, s.to, r.granted, r.grantee)
      ensures (r.granted, r.grantee) in Keys(RolesNamed(t, s.from), rs, UserType) <==>
        UserPair(t, s.from, s.to, r.granted, r.grantee)
    {
      KeysAreNamed(t, sys, s.from, s.to, rs, RoleType, r.granted, r.grantee);
      KeysAreNamed(t, sys, s.from, s.to, rs, UserType, r.granted, r.grantee);
    }
    OverwrittenRows(t.roleGrants, Keys(RolesNamed(t, s.from), rs, RoleType), s.withGrantOption);
    OverwrittenRows(t.userGrants, Keys(RolesNamed(t, s.from), rs, UserType), s.withGrantOption);
  }

  lemma {:induction false} OverwrittenRows(rows: set<GrantRow>, keys: Edges, option: bool)
    ensures forall r :: r in Overwrite(rows, keys, option) <==>
      if (r.granted, r.grantee) in keys then r.withGrantOption == option else r in rows
  {
    forall r: GrantRow | (r.granted, r.grantee) in keys && r.withGrantOption == option
      ensures r in Overwrite(rows, keys, option)
    {
      assert r == GrantRow((r.granted, r.grantee).0, (r.granted, r.grantee).1, option);
    }
  }

  /** A completed REVOKE deletes exactly the rows of the named pairs. */
  lemma {:induction false} RevokeDeletes(t: Tables, sys: bool, s: Stmt, t': Tables)
    requires RevokeSpec(t, sys, s, t', Done)
    ensures t'.roles == t.roles && t'.users == t.users && t'.rolePrivs == t.rolePrivs
    ensures forall r :: r in t'.roleGrants <==>
      r in t.roleGrants && !RolePair(t, s.from, s.to, r.granted, r.grantee)
    ensures forall r :: r in t'.userGrants <==>
      r in t.userGrants && !UserPair(t, s.from, s.to, r.granted, r.grantee)
  {
    var rs := ExistingGrantees(t, sys, s.to);
    ExistingAreNamed(t, sys, s.to);
    forall r: GrantRow
      ensures (r.granted, r.grantee) in Keys(RolesNamed(t, s.from), rs, RoleType) <==>
        RolePair(t, s.from, s.to, r.granted, r.grantee)
      ensures (r.granted, r.grantee) in Keys(RolesNamed(t, s.from), rs, UserType) <==>
        UserPair(t, s.from, s.to, r.granted, r.grantee)
    {
      KeysAreNamed(t, sys, s.from, s.to, rs, RoleType, r.granted, r.grantee);
      KeysAreNamed(t, sys, s.from, s.to, rs, UserType, r.granted, r.grantee);
    }
  }

  /** Some name of the statement is the name of the role with this id. */
  ghost predicate DropNames(t: Tables, names: seq<string>, id: Id) {
    exists n :: n in names && n in t.roles && t.roles[n] == id
  }

  /** A completed DROP deletes the named roles and whatever mentions them, and nothing else. */
  lemma {:induction false} DropDeletes(t: Tables, sys: bool, s: Stmt, t': Tables)
    requires DropSpec(t, sys, s, t', Done)
    ensures t'.users == t.users
    ensures forall n :: n in t'.roles <==> n in t.roles && !DropNames(t, s.names, t.roles[n])
    ensures forall n :: n in t'.roles ==> t'.roles[n] == t.roles[n]
    ensures forall r :: r in t'.roleGrants <==>
      r in t.roleGrants && !DropNames(t, s.names, r.granted) && !DropNames(t, s.names, r.grantee)
    ensures forall r :: r in t'.userGrants <==> r in t.userGrants && !DropNames(t, s.names, r.granted)
    ensures forall r :: r in t'.rolePrivs <==> r in t.rolePrivs && !DropNames(t, s.names, r.role)
  {
    assert forall id :: id in IdsOfNames(t, s.names) <==> DropNames(t, s.names, id);
  }

  /** Revoking what was granted restores the tables, if none of it was granted before. */
  lemma {:induction false} RevokeUndoesGrant(t: Tables, sys: bool, s: Stmt, t': Tables, r: Stmt, t'': Tables)
    requires GrantSpec(t, sys, s, t', Done) && RevokeSpec(t', sys, r, t'', Done) && r.from == s.from && r.to == s.to
    requires forall x :: x in t.roleGrants ==> !RolePair(t, s.from, s.to, x.granted, x.grantee)
    requires forall x :: x in t.userGrants ==> !UserPair(t, s.from, s.to, x.granted, x.grantee)
    ensures t'' == t
  {
    GrantWrites(t, sys, s, t');
    RevokeDeletes(t', sys, r, t'');
    forall x: GrantRow
      ensures RolePair(t', s.from, s.to, x.granted, x.grantee) <==> RolePair(t, s.from, s.to, x.granted, x.grantee)
      ensures UserPair(t', s.from, s.to, x.granted, x.grantee) <==> UserPair(t, s.from, s.to, x.granted, x.grantee)
    {}
    assert t''.roleGrants == t.roleGrants && t''.userGrants == t.userGrants;
  }

  // ---- Exactly when a statement is completed ----

  function AdminName(sys: bool): string {
    if sys then "moadmin" else "accountadmin"
  }

  /** The pair may not be granted: the administrator role and the role public go to no role and no role
      goes to them, and only a user who has the administrator role may be granted it. */
  ghost predicate GrantForbidden(t: Tables, sys: bool, f: string, g: string)
    requires f in t.roles
  {
    if g in t.roles then
      f in {AdminName(sys), "public"} || g in {AdminName(sys), "public"}
    else
      && g in t.users && f == AdminName(sys)
      && forall r :: r in t.userGrants ==> !(r.granted == t.roles[f] && r.grantee == t.users[g])
  }

  lemma {:induction false} SpecialGrantIff(t: Tables, sys: bool, f: string, g: string)
    requires f in t.roles && (g in t.roles || g in t.users)
    ensures SpecialInGrant(sys, ResolveRole(t, f).value, ResolveGrantee(t, sys, g).value) <==>
      GrantForbidden(t, sys, f, g)
  {
    assert "public" != "moadmin" && "public" != "accountadmin" by {
      assert |"public"| != |"moadmin"| && |"public"| != |"accountadmin"|;
    }
  }

  /** The pairs of roles that a statement names. */
  ghost function RolePairs(t: Tables, from: seq<string>, to: seq<string>): Edges {
    set f, g | f in from && g in to && f in t.roles && g in t.roles :: (t.roles[f], t.roles[g])
  }

  lemma {:induction false} PairsAreProduct(t: Tables, sys: bool, from: seq<string>, to: seq<string>)
    requires RolesKnown(t, from) && GranteesKnown(t, to)
    ensures RolePairs(t, from, to) == Product(Ids(RolesNamed(t, from)), RoleIds(GranteesNamed(t, sys, to)))
  {
    var rs := GranteesNamed(t, sys, to);
    GranteesAreNamed(t, sys, to);
    KeysAreProduct(RolesNamed(t, from), rs);
    forall e: (Id, Id)
      ensures e in RolePairs(t, from, to) <==> e in Keys(RolesNamed(t, from), rs, RoleType)
    {
      KeysAreNamed(t, sys, from, to, rs, RoleType, e.0, e.1);
    }
  }

  /** A GRANT is completed if and only if all names are known, no pair is forbidden, and the role graph
      with all its pairs has no cycle. */
  lemma {:induction false} GrantDoneIff(t: Tables, sys: bool, s: Stmt, t': Tables, o: Outcome)
    requires Acyclic(EdgesOf(t.roleGrants)) && GrantSpec(t, sys, s, t', o)
    ensures o == Done <==>
      && (forall f :: f in s.from ==> f in t.roles)
      && (forall g :: g in s.to ==> g in t.roles || g in t.users)
      && (forall f, g :: f in s.from && g in s.to ==> !GrantForbidden(t, sys, f, g))
      && Acyclic(EdgesOf(t.roleGrants) + RolePairs(t, s.from, s.to))
  {
    AllKnown(t, s.from, s.to);
    if RolesKnown(t, s.from) && GranteesKnown(t, s.to) {
      var fs, rs := RolesNamed(t, s.from), GranteesNamed(t, sys, s.to);
      PairsAreProduct(t, sys, s.from, s.to);
      ForbiddenIff(t, sys, s.from, s.to);
      if NoSpecial(sys, fs, rs) {
        GrantRefusedIffProductCycles(t, sys, s, t', o);
      } else if o == Done {
        DoneNoSpecial(t, sys, s, t', fs, rs);
      }
    }
  }

  lemma {:induction false} DoneNoSpecial(t: Tables, sys: bool, s: Stmt, t': Tables, fs: seq<VerifiedRole>,
                                         rs: seq<VerifiedRole>)
    requires s.Grant? && GrantDone(t, sys, s, t', fs, rs)
    ensures NoSpecial(sys, fs, rs)
  {
    forall a, b | 0 <= a < |fs| && 0 <= b < |rs|
      ensures !SpecialInGrant(sys, fs[a], rs[b])
    {
      assert Before(a, b, |fs|, 0);
    }
  }

  lemma {:induction false} AllKnown(t: Tables, from: seq<string>, to: seq<string>)
    ensures RolesKnown(t, from) <==> forall f :: f in from ==> f in t.roles
    ensures GranteesKnown(t, to) <==> forall g :: g in to ==> g in t.roles || g in t.users
  {
    if forall f :: f in from ==> f in t.roles {
      assert forall k :: 0 <= k < |from| ==> from[k] in from;
    }
    if forall g :: g in to ==> g in t.roles || g in t.users {
      assert forall k :: 0 <= k < |to| ==> to[k] in to;
    }
  }

  lemma {:induction false} ForbiddenIff(t: Tables, sys: bool, from: seq<string>, to: seq<string>)
    requires RolesKnown(t, from) && GranteesKnown(t, to)
    ensures forall f :: f in from ==> f in t.roles
    ensures NoSpecial(sys, RolesNamed(t, from), GranteesNamed(t, sys, to)) <==>
      forall f, g :: f in from && g in to ==> !GrantForbidden(t, sys, f, g)
  {
    var fs, rs := RolesNamed(t, from), GranteesNamed(t, sys, to);
    AllKnown(t, from, to);
    forall a, b | 0 <= a < |from| && 0 <= b < |to|
      ensures SpecialInGrant(sys, fs[a], rs[b]) <==> GrantForbidden(t, sys, from[a], to[b])
    {
      SpecialGrantIff(t, sys, from[a], to[b]);
    }
    if NoSpecial(sys, fs, rs) {
      forall f, g | f in from && g in to
        ensures !GrantForbidden(t, sys, f, g)
      {
        var a :| 0 <= a < |from| && from[a] == f;
        var b :| 0 <= b < |to| && to[b] == g;
        assert !SpecialInGrant(sys, fs[a], rs[b]);
      }
    }
    if forall f, g :: f in from && g in to ==> !GrantForbidden(t, sys, f, g) {
      forall a, b | 0 <= a < |fs| && 0 <= b < |rs|
        ensures !SpecialInGrant(sys, fs[a], rs[b])
      {
        assert from[a] in from && to[b] in to;
      }
    }
  }

  /** The pair may not be revoked. */
  predicate RevokeForbidden(t: Tables, sys: bool, f: string, g: string) {
    || (f in {AdminName(sys), "public"} && (g in t.roles || g in t.users))
    || (g in {AdminName(sys), "public"} && g in t.roles)
  }

  /** A REVOKE is completed if and only if all roles are known, so are all grantees unless missing ones
      are to be skipped, and no pair with a known grantee is forbidden. */
  lemma {:induction false} RevokeDoneIff(t: Tables, sys: bool, s: Stmt, t': Tables, o: Outcome)
    requires RevokeSpec(t, sys, s, t', o)
    ensures o == Done <==>
      && (forall f :: f in s.from ==> f in t.roles)
      && (s.ifExists || forall g :: g in s.to ==> g in t.roles || g in t.users)
      && (forall f, g :: f in s.from && g in s.to ==> !RevokeForbidden(t, sys, f, g))
  {
    AllKnown(t, s.from, s.to);
    if o == Done {
      var fs, rs := RolesNamed(t, s.from), ExistingGrantees(t, sys, s.to);
      ExistingAreNamed(t, sys, s.to);
      RolesAreNamed(t, s.from);
      forall f, g | f in s.from && g in s.to && (g in t.roles || g in t.users)
        ensures !RevokeForbidden(t, sys, f, g)
      {
        NotForbidden(t, sys, f, g, fs, rs);
      }
    } else if o.reason.SpecialRole? {
      assert RevokeForbidden(t, sys, o.reason.from, o.reason.to);
    }
  }

  lemma {:induction false} NotForbidden(t: Tables, sys: bool, f: string, g: string, fs: seq<VerifiedRole>,
                                        rs: seq<VerifiedRole>)
    requires f in t.roles && (g in t.roles || g in t.users)
    requires VerifiedRole(RoleType, f, t.roles[f], false) in fs && ResolveGrantee(t, sys, g).value in rs
    requires forall a, b :: 0 <= a < |fs| && 0 <= b < |rs| ==> !SpecialInRevoke(sys, fs[a], rs[b])
    ensures !RevokeForbidden(t, sys, f, g)
  {
    var a :| 0 <= a < |fs| && fs[a] == VerifiedRole(RoleType, f, t.roles[f], false);
    var b :| 0 <= b < |rs| && rs[b] == ResolveGrantee(t, sys, g).value;
    assert !SpecialInRevoke(sys, fs[a], rs[b]);
  }

  /** The k-th name is that of a role which no name before it names. */
  ghost predicate FirstNamed(t: Tables, names: seq<string>, k: nat)
    requires k < |names|
  {
    names[k] in t.roles && forall j :: 0 <= j < k && names[j] in t.roles ==> t.roles[names[j]] != t.roles[names[k]]
  }

  /** A DROP is completed if and only if every name is that of a role not yet dropped, unless others are
      to be skipped, and no role that would be dropped is the administrator role or public. */
  lemma {:induction false} DropDoneIff(t: Tables, sys: bool, s: Stmt, t': Tables, o: Outcome)
    requires DropSpec(t, sys, s, t', o)
    ensures o == Done <==>
      && (s.ifExists || forall k :: 0 <= k < |s.names| ==> FirstNamed(t, s.names, k))
      && (forall k :: 0 <= k < |s.names| && FirstNamed(t, s.names, k) ==> s.names[k] !in {AdminName(sys), "public"})
  {
    forall k | 0 <= k < |s.names|
      ensures StillThere(t, s.names, k) <==> FirstNamed(t, s.names, k)
    {
      StillThereIff(t, s.names, k);
    }
  }

  lemma {:induction false} StillThereIff(t: Tables, names: seq<string>, k: nat)
    requires k < |names|
    ensures StillThere(t, names, k) <==> FirstNamed(t, names, k)
  {
    if names[k] in t.roles {
      if t.roles[names[k]] in IdsOfNames(t, names[..k]) {
        var n :| n in names[..k] && n in t.roles && t.roles[n] == t.roles[names[k]];
        var j :| 0 <= j < k && names[..k][j] == n;
        assert names[j] == n;
      } else {
        forall j | 0 <= j < k && names[j] in t.roles
          ensures t.roles[names[j]] != t.roles[names[k]]
        {
          assert names[..k][j] in names[..k];
        }
      }
    }
  }
}
