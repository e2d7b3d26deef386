/**
 `loadRoles` of pkg/rbac/decorator.go: the depth-first walk over the role-inclusion graph, which may
 contain cycles and dangling references, filling a map that is shared between several roots.
 */
module RoleGraph {
  import opened Wire
  import opened RbacCodec

  type RoleStore = map<bytes, Role>

  // ----- Reachability, by paths -----

  /** `p` follows inclusions of stored roles. */
  ghost predicate IsPath(db: RoleStore, p: seq<bytes>) {
    p != [] && forall i | 0 <= i < |p| - 1 :: p[i] in db && p[i + 1] in db[p[i]].roleIds
  }

  ghost predicate Reaches(db: RoleStore, root: bytes, id: bytes) {
    exists p :: IsPath(db, p) && p[0] == root && p[|p| - 1] == id
  }

  lemma ReachesSelf(db: RoleStore, root: bytes)
    ensures Reaches(db, root, root)
  {
    assert IsPath(db, [root]);
    assert [root][0] == root && [root][|[root]| - 1] == root;
  }

  lemma ReachesBefore(db: RoleStore, root: bytes, child: bytes, id: bytes)
    requires root in db && child in db[root].roleIds && Reaches(db, child, id)
    ensures Reaches(db, root, id)
  {
    var p :| IsPath(db, p) && p[0] == child && p[|p| - 1] == id;
    var q := [root] + p;
    assert IsPath(db, q) && q[0] == root && q[|q| - 1] == id;
  }

  lemma ReachesThroughInclusion(db: RoleStore, root: bytes, child: bytes)
    requires root in db && child in db[root].roleIds
    ensures forall id | Reaches(db, child, id) :: Reaches(db, root, id)
  {
    forall id | Reaches(db, child, id) ensures Reaches(db, root, id) {
      ReachesBefore(db, root, child, id);
    }
  }

  /** A set that contains the root and the inclusions of its members contains what the root reaches. */
  lemma {:induction false} ClosedContainsPath(db: RoleStore, s: set<bytes>, p: seq<bytes>)
    requires IsPath(db, p) && p[0] in s
    requires forall id, c | id in s && id in db && c in db[id].roleIds :: c in s
    ensures p[|p| - 1] in s
    decreases |p|
  {
    if |p| > 1 {
      assert p[1] in db[p[0]].roleIds;
      ClosedContainsPath(db, s, p[1..]);
    }
  }

  lemma ClosedContainsReachable(db: RoleStore, s: set<bytes>, root: bytes, id: bytes)
    requires root in s && Reaches(db, root, id)
    requires forall i, c | i in s && i in db && c in db[i].roleIds :: c in s
    ensures id in s
  {
    var p :| IsPath(db, p) && p[0] == root && p[|p| - 1] == id;
    ClosedContainsPath(db, s, p);
  }

  // ----- The processed map -----

  /** Every processed role is the stored one. */
  ghost predicate Agrees(db: RoleStore, m: RoleStore) {
    forall id | id in m :: id in db && m[id] == db[id]
  }

  /** The inclusions of processed roles are processed, except for those still on the call stack. */
  ghost predicate ClosedBut(m: RoleStore, grey: set<bytes>) {
    forall id, c | id in m && id !in grey && c in m[id].roleIds :: c in m
  }

  ghost predicate Dangling(db: RoleStore, root: bytes) {
    exists id :: Reaches(db, root, id) && id !in db
  }

  ghost predicate NewAreReachable(db: RoleStore, before: RoleStore, after: RoleStore, root: bytes) {
    forall id | id in after && id !in before :: Reaches(db, root, id)
  }

  /** The Go map passed by reference. */
  class Processed {
    var roles: RoleStore

    constructor ()
      ensures roles == map[]
    {
      roles := map[];
    }
  }

  /** What the walk from `root` has done to the map so far. */
  ghost predicate Walked(db: RoleStore, before: RoleStore, m: RoleStore, root: bytes) {
    && (forall id | id in before :: id in m)
    && Agrees(db, m) && NewAreReachable(db, before, m, root)
  }

  lemma WalkChild(db: RoleStore, before: RoleStore, m: RoleStore, after: RoleStore, root: bytes, child: bytes)
    requires Walked(db, before, m, root) && Walked(db, m, after, child)
    requires root in db && child in db[root].roleIds
    ensures Walked(db, before, after, root)
  {
    ReachesThroughInclusion(db, root, child);
  }

  /**
   The recursion, with the set of roles whose inclusions are still being walked. It terminates because
   every call that goes deeper has processed one more stored role.
   */
  method LoadRolesFrom(db: RoleStore, roleID: bytes, p: Processed, ghost grey: set<bytes>) returns (ok: bool)
    requires Agrees(db, p.roles) && ClosedBut(p.roles, grey)
    modifies p
    ensures Walked(db, old(p.roles), p.roles, roleID)
    ensures ok ==> roleID in p.roles && ClosedBut(p.roles, grey)
    ensures !ok ==> Dangling(db, roleID)
    decreases db.Keys - p.roles.Keys
  {
    ReachesSelf(db, roleID);
    if roleID in p.roles {
      return true;
    }
    if roleID !in db {
      return false;
    }
    ghost var before := p.roles;
    var r := db[roleID];
    p.roles := p.roles[roleID := r];
    for i := 0 to |r.roleIds|
      invariant roleID in p.roles && Walked(db, before, p.roles, roleID)
      invariant ClosedBut(p.roles, grey + {roleID})
      invariant forall j | 0 <= j < i :: r.roleIds[j] in p.roles
    {
      var id := r.roleIds[i];
      ghost var now := p.roles;
      assert roleID in db.Keys - before.Keys && roleID !in db.Keys - now.Keys;
      ok := LoadRolesFrom(db, id, p, grey + {roleID});
      WalkChild(db, before, now, p.roles, roleID, id);
      ReachesThroughInclusion(db, roleID, id);
      if !ok {
        return false;
      }
    }
    return true;
  }

  /** The stored roles reachable from `root`. */
  ghost function Closure(db: RoleStore, root: bytes): RoleStore {
    map id | id in db && Reaches(db, root, id) :: db[id]
  }

  /** A shared map between two calls: stored roles only, with all their inclusions. */
  ghost predicate Settled(db: RoleStore, m: RoleStore) {
    Agrees(db, m) && ClosedBut(m, {})
  }

  /** A settled map that has the root has all it reaches, so nothing it reaches is missing. */
  lemma SettledHasClosure(db: RoleStore, m: RoleStore, root: bytes)
    requires Settled(db, m) && root in m
    ensures forall id | Reaches(db, root, id) :: id in m
    ensures !Dangling(db, root)
  {
    forall id | Reaches(db, root, id) ensures id in m {
      ClosedContainsReachable(db, m.Keys, root, id);
    }
  }

  /**
   `loadRoles` on any store, cyclic ones included: it fails exactly when the root reaches a missing
   role, and otherwise adds exactly the roles reachable from the root.
   */
  method LoadRoles(db: RoleStore, roleID: bytes, p: Processed) returns (ok: bool)
    requires Settled(db, p.roles)
    modifies p
    ensures ok <==> !Dangling(db, roleID)
    ensures ok ==> Settled(db, p.roles) && p.roles == old(p.roles) + Closure(db, roleID)
  {
    ok := LoadRolesFrom(db, roleID, p, {});
    if ok {
      SettledHasClosure(db, p.roles, roleID);
    }
  }

  /** All roots together. */
  ghost function Closures(db: RoleStore, roots: seq<bytes>): RoleStore {
    if roots == [] then map[] else Closures(db, roots[..|roots| - 1]) + Closure(db, roots[|roots| - 1])
  }

  lemma {:induction false} InClosures(db: RoleStore, roots: seq<bytes>, id: bytes)
    ensures id in Closures(db, roots) <==> id in db && exists r :: r in roots && Reaches(db, r, id)
    ensures id in Closures(db, roots) ==> Closures(db, roots)[id] == db[id]
    decreases |roots|
  {
    if roots != [] {
      var front, last := roots[..|roots| - 1], roots[|roots| - 1];
      InClosures(db, front, id);
      assert roots == front + [last];
    }
  }

  /** All stored roles that some root reaches, whatever the order or the multiplicity of the roots. */
  lemma ClosuresOf(db: RoleStore, roots: seq<bytes>)
    ensures Closures(db, roots) == map id | id in db && exists r :: r in roots && Reaches(db, r, id) :: db[id]
  {
    forall id: bytes
      ensures id in Closures(db, roots) <==> id in db && exists r :: r in roots && Reaches(db, r, id)
      ensures id in Closures(db, roots) ==> Closures(db, roots)[id] == db[id]
    {
      InClosures(db, roots, id);
    }
  }

  lemma ClosuresOrder(db: RoleStore, a: seq<bytes>, b: seq<bytes>)
    requires forall r :: r in a <==> r in b
    ensures Closures(db, a) == Closures(db, b)
  {
    ClosuresOf(db, a);
    ClosuresOf(db, b);
  }
}
