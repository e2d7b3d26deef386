/**
 Who may do what: permissions and wildcards (pkg/rbac/model.go) and the RBAC data in the context
 (pkg/rbac/context.go).
 */
module Access {
  import opened Wire
  import opened RbacCodec
  import opened ByteOrder
  import opened RoleGraph

  type Permission = bytes
  type Condition = bytes
  type Address = bytes

  // ----- Permissions -----

  const STAR: byte := 0x2a

  predicate IsWildcard(m: Permission) {
    m != [] && m[|m| - 1] == STAR
  }

  /** A wildcard without its star. */
  function Stem(m: Permission): bytes
    requires IsWildcard(m)
  {
    m[..|m| - 1]
  }

  predicate Allows(m: Permission, p: Permission) {
    if IsWildcard(m) then Stem(m) <= p && !IsWildcard(p) else m == p
  }

  /** A permission that does not end in a star allows itself and nothing else. */
  lemma ExactPermission(m: Permission, p: Permission)
    requires m == [] || m[|m| - 1] != 0x2a
    ensures Allows(m, p) <==> m == p
  {
  }

  /** One that does allows what begins with the rest of it and does not end in a star itself. */
  lemma WildcardPermission(s: bytes, p: Permission)
    ensures Allows(s + [0x2a], p) <==> s <= p && (p == [] || p[|p| - 1] != 0x2a)
  {
    assert (s + [0x2a])[..|s|] == s;
  }

  /** One wildcard covers another exactly when its stem is a prefix of the other's. */
  lemma WildcardOrder(w1: Permission, w2: Permission)
    requires IsWildcard(w1) && IsWildcard(w2)
    ensures (forall p :: Allows(w2, p) ==> Allows(w1, p)) <==> Stem(w1) <= Stem(w2)
  {
    if forall p :: Allows(w2, p) ==> Allows(w1, p) {
      // two extensions that differ in the next byte have only the stem in common
      var a, b := Stem(w2) + [0x61], Stem(w2) + [0x62];
      assert Allows(w2, a) && Allows(w2, b);
      assert Stem(w1) <= a && Stem(w1) <= b;
      assert a[|Stem(w2)|] != b[|Stem(w2)|];
    }
  }

  /** A wildcard allows neither the parent path without its separator nor itself. */
  lemma WildcardScope(path: bytes, p: Permission)
    ensures var w := path + [0x2e, STAR];
            !Allows(w, path) && !Allows(w, w) && (Allows(w, path + [0x2e] + p) <==> !IsWildcard(path + [0x2e] + p))
  {
    var w := path + [0x2e, STAR];
    assert Stem(w) == path + [0x2e];
  }

  // ----- Conditions -----

  /** `"rbac/role/"` */
  const ROLE_CONDITION: bytes := [0x72, 0x62, 0x61, 0x63, 0x2f, 0x72, 0x6f, 0x6c, 0x65, 0x2f]

  function RoleCondition(id: bytes): Condition {
    ROLE_CONDITION + id
  }

  /** `rbac/role/` and the id. */
  lemma RoleConditionBytes(id: bytes)
    ensures |RoleCondition(id)| == 10 + |id| && RoleCondition(id)[10..] == id
    ensures RoleCondition(id)[..10] == [0x72, 0x62, 0x61, 0x63, 0x2f, 0x72, 0x6f, 0x6c, 0x65, 0x2f]
  {
  }

  lemma RoleConditionInjective(a: bytes, b: bytes)
    requires RoleCondition(a) == RoleCondition(b)
    ensures a == b
  {
    assert RoleCondition(a)[|ROLE_CONDITION|..] == a && RoleCondition(b)[|ROLE_CONDITION|..] == b;
  }

  function RoleConditions(ids: set<bytes>): set<Condition> {
    set id | id in ids :: RoleCondition(id)
  }

  /** The permissions of the roles `ids` of a map. */
  function GrantedBy(m: RoleStore, ids: set<bytes>): set<Permission> {
    set id, p | id in ids && id in m && p in m[id].permissions :: p
  }

  function Granted(m: RoleStore): set<Permission> {
    GrantedBy(m, m.Keys)
  }

  function PermissionsOf(r: Role): set<Permission> {
    set p | p in r.permissions
  }

  lemma GrantedStep(m: RoleStore, ids: set<bytes>, id: bytes)
    requires id in m
    ensures GrantedBy(m, ids + {id}) == GrantedBy(m, ids) + PermissionsOf(m[id])
  {
  }

  // ----- Context -----

  /** The Go map `map[Permission]struct{}`, shared by every context derived from the one it is in. */
  class PermissionSet {
    var perms: set<Permission>

    constructor ()
      ensures perms == {}
    {
      perms := {};
    }
  }

  /** Conditions of signatures and multisig contracts, and the values under the two RBAC keys. */
  datatype Context = Context(signers: seq<Condition>, conds: seq<Condition>, perms: PermissionSet?)

  /** The conditions in a context with RBAC data for the roles `m`, sorted. */
  ghost predicate HasConditions(conds: seq<Condition>, parent: seq<Condition>, ids: set<bytes>) {
    Sorted(conds) && multiset(conds) == multiset(parent) + multiset(RoleConditions(ids))
  }

  /** Any two enumeration orders of the role map give the same condition list. */
  lemma ConditionsAreDetermined(a: seq<Condition>, b: seq<Condition>, parent: seq<Condition>, ids: set<bytes>)
    requires HasConditions(a, parent, ids) && HasConditions(b, parent, ids)
    ensures a == b
  {
    SortedIsUnique(a, b);
  }

  /** The listed conditions: those of the parent, and `rbac/role/` with the id of every role, once more each. */
  lemma ConditionsExactly(conds: seq<Condition>, parent: seq<Condition>, ids: set<bytes>)
    requires HasConditions(conds, parent, ids)
    ensures forall id | id in ids :: [0x72, 0x62, 0x61, 0x63, 0x2f, 0x72, 0x6f, 0x6c, 0x65, 0x2f] + id in conds
    ensures forall c | c in parent :: c in conds
    ensures forall c | c in conds ::
              c in parent || (10 <= |c| && c[..10] == [0x72, 0x62, 0x61, 0x63, 0x2f, 0x72, 0x6f, 0x6c, 0x65, 0x2f] && c[10..] in ids)
    ensures |conds| == |parent| + |ids|
  {
    var more := RoleConditions(ids);
    forall c ensures c in conds <==> c in parent || c in more {
      assert multiset(conds)[c] == multiset(parent)[c] + multiset(more)[c];
      assert (c in conds <==> c in multiset(conds)) && (c in parent <==> c in multiset(parent));
    }
    forall id | id in ids ensures [0x72, 0x62, 0x61, 0x63, 0x2f, 0x72, 0x6f, 0x6c, 0x65, 0x2f] + id in conds {
      assert RoleCondition(id) in more;
    }
    forall c | c in conds && c !in parent
      ensures 10 <= |c| && c[..10] == [0x72, 0x62, 0x61, 0x63, 0x2f, 0x72, 0x6f, 0x6c, 0x65, 0x2f] && c[10..] in ids
    {
      var id :| id in ids && c == RoleCondition(id);
      RoleConditionBytes(id);
    }
    CountConditions(ids);
    assert |multiset(conds)| == |multiset(parent)| + |multiset(more)|;
  }

  lemma {:induction false} CountConditions(ids: set<bytes>)
    ensures |RoleConditions(ids)| == |ids|
    decreases ids
  {
    if ids != {} {
      var id :| id in ids;
      CountConditions(ids - {id});
      assert RoleConditions(ids) == RoleConditions(ids - {id}) + {RoleCondition(id)};
      if RoleCondition(id) in RoleConditions(ids - {id}) {
        var other :| other in ids - {id} && RoleCondition(other) == RoleCondition(id);
        RoleConditionInjective(other, id);
      }
    } else {
      assert RoleConditions(ids) == {};
    }
  }

  /**
   `withRBAC`: the role map is enumerated in an arbitrary order. The permission set of a parent that
   has one is extended in place.
   */
  method WithRBAC(ctx: Context, roles: RoleStore) returns (newCtx: Context)
    modifies ctx.perms
    ensures newCtx.signers == ctx.signers
    ensures HasConditions(newCtx.conds, ctx.conds, roles.Keys)
    ensures newCtx.perms != null
    ensures ctx.perms == null ==> fresh(newCtx.perms) && newCtx.perms.perms == Granted(roles)
    ensures ctx.perms != null ==> newCtx.perms == ctx.perms && ctx.perms.perms == old(ctx.perms.perms) + Granted(roles)
  {
    var perms := ctx.perms;
    if perms == null {
      perms := new PermissionSet();
    }
    var conds := GatherRoles(ctx.conds, perms, roles);
    SortSorts(conds);
    newCtx := Context(ctx.signers, Sort(conds), perms);
  }

  /** The loop over the role map. */
  method GatherRoles(parent: seq<Condition>, perms: PermissionSet, roles: RoleStore) returns (conds: seq<Condition>)
    modifies perms
    ensures Gathered(conds, perms.perms, parent, old(perms.perms), roles, roles.Keys)
  {
    conds := parent;
    ghost var before := perms.perms;
    var todo := roles.Keys;
    ghost var done: set<bytes> := {};
    while todo != {}
      invariant done + todo == roles.Keys && done !! todo
      invariant Gathered(conds, perms.perms, parent, before, roles, done)
      decreases todo
    {
      var id :| id in todo;
      GatherOne(conds, perms.perms, parent, before, roles, done, id);
      conds := conds + [RoleCondition(id)];
      perms.perms := perms.perms + PermissionsOf(roles[id]);
      todo, done := todo - {id}, done + {id};
    }
    assert done == roles.Keys;
  }

  /** What the enumeration has gathered from the roles `done`. */
  ghost predicate Gathered(conds: seq<Condition>, perms: set<Permission>,
                           parentConds: seq<Condition>, parentPerms: set<Permission>,
                           roles: RoleStore, done: set<bytes>) {
    && multiset(conds) == multiset(parentConds) + multiset(RoleConditions(done))
    && perms == parentPerms + GrantedBy(roles, done)
  }

  lemma GatherOne(conds: seq<Condition>, perms: set<Permission>,
                  parentConds: seq<Condition>, parentPerms: set<Permission>,
                  roles: RoleStore, done: set<bytes>, id: bytes)
    requires Gathered(conds, perms, parentConds, parentPerms, roles, done) && id in roles && id !in done
    ensures Gathered(conds + [RoleCondition(id)], perms + PermissionsOf(roles[id]),
                     parentConds, parentPerms, roles, done + {id})
  {
    AddCondition(done, id);
    GrantedStep(roles, done, id);
  }

  lemma AddCondition(done: set<bytes>, id: bytes)
    requires id !in done
    ensures multiset(RoleConditions(done + {id})) == multiset(RoleConditions(done)) + multiset{RoleCondition(id)}
  {
    assert RoleConditions(done + {id}) == RoleConditions(done) + {RoleCondition(id)};
    if RoleCondition(id) in RoleConditions(done) {
      var other :| other in done && RoleCondition(other) == RoleCondition(id);
      RoleConditionInjective(other, id);
    }
  }

  method HasAddress(address: Condition -> Address, ctx: Context, addr: Address) returns (b: bool)
    ensures b <==> exists c :: c in ctx.conds && address(c) == addr
  {
    for i := 0 to |ctx.conds|
      invariant forall j | 0 <= j < i :: address(ctx.conds[j]) != addr
    {
      if addr == address(ctx.conds[i]) {
        return true;
      }
    }
    return false;
  }

  ghost predicate Permits(perms: set<Permission>, p: Permission) {
    p in perms || exists k :: k in perms && Allows(k, p)
  }

  /** For a path that is no wildcard the exact lookup adds nothing to the matching of grants. */
  lemma PermitsIsMatching(perms: set<Permission>, p: Permission)
    ensures (Permits(perms, p) <==> exists k :: k in perms && Allows(k, p)) <==> !(IsWildcard(p) && p in perms)
  {
    if !IsWildcard(p) && p in perms {
      assert Allows(p, p);
    }
  }

  /** What a set of permissions permits, by their characters: members, and what a starred prefix covers. */
  lemma PermitsByPrefix(perms: set<Permission>, p: Permission)
    ensures Permits(perms, p) <==>
            p in perms || ((p == [] || p[|p| - 1] != 0x2a) && exists s: bytes :: s + [0x2a] in perms && s <= p)
  {
    forall k | k in perms && Allows(k, p) && k != p
      ensures (p == [] || p[|p| - 1] != 0x2a) && exists s: bytes :: s + [0x2a] in perms && s <= p
    {
      if k == [] || k[|k| - 1] != 0x2a {
        ExactPermission(k, p);
      } else {
        var s := k[..|k| - 1];
        assert k == s + [0x2a];
        WildcardPermission(s, p);
      }
    }
    forall s: bytes | s + [0x2a] in perms && s <= p && (p == [] || p[|p| - 1] != 0x2a) ensures Permits(perms, p) {
      WildcardPermission(s, p);
    }
  }

  /** Without wildcards exactly the members are permitted. */
  lemma PermitsMembersOnly(perms: set<Permission>, p: Permission)
    requires forall k | k in perms :: k == [] || k[|k| - 1] != 0x2a
    ensures Permits(perms, p) <==> p in perms
  {
    PermitsByPrefix(perms, p);
    forall s: bytes ensures s + [0x2a] !in perms {
      assert (s + [0x2a])[|s + [0x2a]| - 1] == 0x2a;
    }
  }

  method HasPermission(ctx: Context, p: Permission) returns (b: bool)
    ensures b <==> ctx.perms != null && Permits(ctx.perms.perms, p)
    ensures b <==> ctx.perms != null &&
                   (p in ctx.perms.perms ||
                    ((p == [] || p[|p| - 1] != 0x2a) && exists s: bytes :: s + [0x2a] in ctx.perms.perms && s <= p))
  {
    if ctx.perms != null {
      PermitsByPrefix(ctx.perms.perms, p);
    }
    if ctx.perms == null {
      return false;
    }
    if p in ctx.perms.perms {
      return true;
    }
    var todo := ctx.perms.perms;
    while todo != {}
      invariant todo <= ctx.perms.perms
      invariant forall k | k in ctx.perms.perms - todo :: !Allows(k, p)
      decreases todo
    {
      var k :| k in todo;
      if Allows(k, p) {
        return true;
      }
      todo := todo - {k};
    }
    return false;
  }
}
