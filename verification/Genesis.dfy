/**
 Loading the RBAC genesis data (pkg/rbac/init.go) into an empty store, and what the loaded store
 guarantees for every later authentication. `address` stands for `Condition.Address()`, whose
 results have the length of an address.
 */
module Genesis {
  import opened Wire
  import opened RbacCodec
  import opened BigEndian
  import opened RoleGraph
  import opened Bindings
  import opened Access
  import opened Decorators

  datatype GenesisRole = GenesisRole(name: bytes, roleIDs: seq<uint64>, owner: bytes, permissions: seq<Permission>)
  datatype GenesisPrincipal = GenesisPrincipal(name: bytes, signatures: seq<NamedSignature>)
  datatype GenesisRoleBinding = GenesisRoleBinding(roleID: uint64, signature: bytes)
  datatype GenesisRBAC = GenesisRBAC(
    roles: seq<GenesisRole>, principals: seq<GenesisPrincipal>, roleBindings: seq<GenesisRoleBinding>)

  // ----- Validation -----

  predicate PermissionChar(b: byte) {
    0x30 <= b <= 0x39 || 0x61 <= b <= 0x7a || b == 0x2e || b == 0x2d || b == 0x5f
  }

  predicate LastPermissionChar(b: byte) {
    0x30 <= b <= 0x39 || 0x61 <= b <= 0x7a || b == STAR
  }

  /** 2 to 128 characters, the last one no separator and only there a star. */
  predicate ValidPermission(p: Permission) {
    && 2 <= |p| <= 128
    && (forall i | 0 <= i < |p| - 1 :: PermissionChar(p[i]))
    && LastPermissionChar(p[|p| - 1])
  }

  predicate ValidAddress(a: bytes) {
    |a| == ADDRESS_LENGTH
  }

  predicate ValidMetadata(m: Option<Metadata>) {
    m.Some? && m.value.schema >= 1
  }

  predicate ValidRole(r: Role) {
    && ValidMetadata(r.metadata) && ValidAddress(r.address) && ValidAddress(r.owner)
    && forall p | p in r.permissions :: ValidPermission(p)
  }

  predicate ValidSignature(s: NamedSignature) {
    1 <= |s.name| <= 64 && ValidAddress(s.signature)
  }

  // ----- Roles -----

  /** The inclusions a genesis role may name when `n` roles are stored. */
  predicate Backward(g: GenesisRole, n: nat) {
    forall id | id in g.roleIDs :: 1 <= id <= n
  }

  function IDKeys(ids: seq<uint64>): (keys: seq<bytes>)
    ensures |keys| == |ids|
  {
    seq(|ids|, i requires 0 <= i < |ids| => SequenceID(ids[i]))
  }

  /** The role stored for the genesis entry with sequence number `n`. */
  function StoredRole(address: Condition -> Address, g: GenesisRole, n: uint64): Role {
    Role(Some(Metadata(1)), g.name, [], address(RoleCondition(SequenceID(n))), IDKeys(g.roleIDs), g.owner, g.permissions)
  }

  predicate Loadable(address: Condition -> Address, gs: seq<GenesisRole>)
    requires |gs| < TWO_63
  {
    forall i | 0 <= i < |gs| :: Backward(gs[i], i) && ValidRole(StoredRole(address, gs[i], i + 1))
  }

  function RolesOf(address: Condition -> Address, gs: seq<GenesisRole>): RoleStore
    requires |gs| < TWO_63
  {
    if gs == [] then map[]
    else RolesOf(address, gs[..|gs| - 1])[SequenceID(|gs|) := StoredRole(address, gs[|gs| - 1], |gs|)]
  }

  lemma KeysDiffer(a: uint64, b: uint64)
    requires SequenceID(a) == SequenceID(b)
    ensures a == b
  {
    SequenceRoundTrip(a, []);
    SequenceRoundTrip(b, []);
  }

  /** The loaded ids are exactly 1 to k. */
  lemma {:induction false} KeysOfRoles(address: Condition -> Address, gs: seq<GenesisRole>, id: uint64)
    requires |gs| < TWO_63
    ensures SequenceID(id) in RolesOf(address, gs) <==> 1 <= id <= |gs|
    decreases |gs|
  {
    if gs != [] {
      KeysOfRoles(address, gs[..|gs| - 1], id);
      if SequenceID(id) == SequenceID(|gs|) {
        KeysDiffer(id, |gs|);
      }
    }
  }

  lemma BackwardMeansStored(address: Condition -> Address, gs: seq<GenesisRole>, g: GenesisRole)
    requires |gs| < TWO_63
    ensures Backward(g, |gs|) <==> forall id | id in g.roleIDs :: SequenceID(id) in RolesOf(address, gs)
  {
    forall id: uint64 ensures SequenceID(id) in RolesOf(address, gs) <==> 1 <= id <= |gs| {
      KeysOfRoles(address, gs, id);
    }
  }

  lemma OneMoreRole(address: Condition -> Address, gs: seq<GenesisRole>, g: GenesisRole)
    requires |gs| + 1 < TWO_63
    ensures RolesOf(address, gs + [g]) == RolesOf(address, gs)[SequenceID(|gs| + 1) := StoredRole(address, g, |gs| + 1)]
  {
    var more := gs + [g];
    LastRole(address, more);
    FrontAndLast(gs, g);
  }

  lemma LastRole(address: Condition -> Address, gs: seq<GenesisRole>)
    requires gs != [] && |gs| < TWO_63
    ensures RolesOf(address, gs) ==
            RolesOf(address, gs[..|gs| - 1])[SequenceID(|gs|) := StoredRole(address, gs[|gs| - 1], |gs|)]
  {
  }

  lemma FrontAndLast<T>(s: seq<T>, x: T)
    ensures (s + [x])[..|s|] == s && (s + [x])[|s|] == x
  {
  }

  lemma OneMoreLoads(address: Condition -> Address, gs: seq<GenesisRole>, g: GenesisRole)
    requires |gs| + 1 < TWO_63
    ensures Loadable(address, gs + [g]) <==>
            Loadable(address, gs) && Backward(g, |gs|) && ValidRole(StoredRole(address, g, |gs| + 1))
  {
    var more := gs + [g];
    assert forall i | 0 <= i < |gs| :: more[i] == gs[i];
    assert more[|gs|] == g;
  }

  lemma FewerLoad(address: Condition -> Address, gs: seq<GenesisRole>, n: nat)
    requires n <= |gs| < TWO_63
    ensures Loadable(address, gs) ==> Loadable(address, gs[..n])
  {
    assert forall i | 0 <= i < n :: gs[..n][i] == gs[i];
  }

  lemma {:induction false} RoleAt(address: Condition -> Address, gs: seq<GenesisRole>, n: uint64)
    requires 1 <= n <= |gs| < TWO_63
    ensures SequenceID(n) in RolesOf(address, gs)
    ensures RolesOf(address, gs)[SequenceID(n)] == StoredRole(address, gs[n - 1], n)
    decreases |gs|
  {
    if n < |gs| {
      RoleAt(address, gs[..|gs| - 1], n);
      if SequenceID(n) == SequenceID(|gs|) {
        KeysDiffer(n, |gs|);
      }
    }
  }

  /** What is stored for a genesis role, field by field. */
  lemma RoleFields(address: Condition -> Address, gs: seq<GenesisRole>, n: uint64)
    requires 1 <= n <= |gs| < TWO_63
    ensures SequenceID(n) in RolesOf(address, gs)
    ensures var r, g := RolesOf(address, gs)[SequenceID(n)], gs[n - 1];
            && r.name == g.name && r.owner == g.owner && r.permissions == g.permissions
            && |r.roleIds| == |g.roleIDs| && (forall j | 0 <= j < |r.roleIds| :: r.roleIds[j] == SequenceID(g.roleIDs[j]))
            && r.address == address([0x72, 0x62, 0x61, 0x63, 0x2f, 0x72, 0x6f, 0x6c, 0x65, 0x2f] + SequenceID(n))
            && r.metadata == Some(Metadata(1)) && r.description == []
  {
    RoleAt(address, gs, n);
  }

  lemma LoadedRoles(address: Condition -> Address, gs: seq<GenesisRole>)
    requires |gs| < TWO_63
    ensures forall n: uint64 | 1 <= n <= |gs| ::
              && SequenceID(n) in RolesOf(address, gs)
              && var r, g := RolesOf(address, gs)[SequenceID(n)], gs[n - 1];
                 && r.name == g.name && r.owner == g.owner && r.permissions == g.permissions
                 && |r.roleIds| == |g.roleIDs| && forall j | 0 <= j < |r.roleIds| :: r.roleIds[j] == SequenceID(g.roleIDs[j])
  {
    forall n: uint64 | 1 <= n <= |gs|
      ensures SequenceID(n) in RolesOf(address, gs)
      ensures var r, g := RolesOf(address, gs)[SequenceID(n)], gs[n - 1];
              && r.name == g.name && r.owner == g.owner && r.permissions == g.permissions
              && |r.roleIds| == |g.roleIDs| && forall j | 0 <= j < |r.roleIds| :: r.roleIds[j] == SequenceID(g.roleIDs[j])
    {
      RoleFields(address, gs, n);
    }
  }

  // ----- Principals and bindings -----

  function Signatures(p: GenesisPrincipal): seq<bytes> {
    seq(|p.signatures|, i requires 0 <= i < |p.signatures| => p.signatures[i].signature)
  }

  function StoredPrincipal(p: GenesisPrincipal): Principal {
    Principal(Some(Metadata(1)), p.name, [], p.signatures)
  }

  function StoredPrincipals(ps: seq<GenesisPrincipal>): seq<Principal> {
    if ps == [] then [] else StoredPrincipals(ps[..|ps| - 1]) + [StoredPrincipal(ps[|ps| - 1])]
  }

  /** What is stored for the genesis principals, field by field. */
  lemma {:induction false} PrincipalFields(ps: seq<GenesisPrincipal>)
    ensures |StoredPrincipals(ps)| == |ps|
    ensures forall i | 0 <= i < |ps| ::
              && StoredPrincipals(ps)[i].name == ps[i].name && StoredPrincipals(ps)[i].signatures == ps[i].signatures
              && StoredPrincipals(ps)[i].metadata == Some(Metadata(1)) && StoredPrincipals(ps)[i].description == []
    decreases |ps|
  {
    if ps != [] {
      PrincipalFields(ps[..|ps| - 1]);
    }
  }

  /** Pairwise different keys that are not in the index yet. */
  ghost predicate NewKeys(keys: seq<bytes>, index: set<bytes>) {
    && (forall i, j | 0 <= i < j < |keys| :: keys[i] != keys[j])
    && forall k | k in keys :: k !in index
  }

  function KeySet(keys: seq<bytes>): set<bytes> {
    set k | k in keys
  }

  /** The keys of the unique signature index over the principals `ps`. */
  function IndexOf(ps: seq<GenesisPrincipal>): set<bytes> {
    if ps == [] then {} else IndexOf(ps[..|ps| - 1]) + KeySet(Signatures(ps[|ps| - 1]))
  }

  ghost predicate Enrolls(p: GenesisPrincipal, index: set<bytes>) {
    (forall s | s in p.signatures :: ValidSignature(s)) && NewKeys(Signatures(p), index)
  }

  /** Every principal enrolls after the ones before it. */
  ghost predicate Enrollable(ps: seq<GenesisPrincipal>) {
    ps == [] || (Enrollable(ps[..|ps| - 1]) && Enrolls(ps[|ps| - 1], IndexOf(ps[..|ps| - 1])))
  }

  lemma OneMoreEnrolls(ps: seq<GenesisPrincipal>, i: nat)
    requires i < |ps|
    ensures Enrollable(ps[..i + 1]) <==> Enrollable(ps[..i]) && Enrolls(ps[i], IndexOf(ps[..i]))
    ensures IndexOf(ps[..i + 1]) == IndexOf(ps[..i]) + KeySet(Signatures(ps[i]))
    ensures StoredPrincipals(ps[..i + 1]) == StoredPrincipals(ps[..i]) + [StoredPrincipal(ps[i])]
  {
    assert ps[..i + 1][..i] == ps[..i];
  }

  lemma {:induction false} FewerEnroll(ps: seq<GenesisPrincipal>, n: nat)
    requires n <= |ps|
    ensures Enrollable(ps) ==> Enrollable(ps[..n])
    decreases |ps|
  {
    if n < |ps| {
      FewerEnroll(ps[..|ps| - 1], n);
      assert ps[..|ps| - 1][..n] == ps[..n];
    } else {
      assert ps[..n] == ps;
    }
  }

  lemma {:induction false} IndexedAreAddresses(ps: seq<GenesisPrincipal>)
    requires Enrollable(ps)
    ensures forall k | k in IndexOf(ps) :: |k| == ADDRESS_LENGTH
    decreases |ps|
  {
    if ps != [] {
      var front, last := ps[..|ps| - 1], ps[|ps| - 1];
      IndexedAreAddresses(front);
      assert forall i | 0 <= i < |last.signatures| :: last.signatures[i] in last.signatures;
    }
  }

  function Call(b: GenesisRoleBinding): (bytes, bytes) {
    (SequenceID(b.roleID), b.signature)
  }

  function Calls(bs: seq<GenesisRoleBinding>): seq<(bytes, bytes)> {
    seq(|bs|, i requires 0 <= i < |bs| => Call(bs[i]))
  }

  ghost predicate Bindable(bs: seq<GenesisRoleBinding>, roles: RoleStore, index: set<bytes>) {
    forall b | b in bs :: SequenceID(b.roleID) in roles && b.signature in index
  }

  // ----- The store -----

  class Store {
    var roles: RoleStore
    var lastRoleId: nat
    var principals: seq<Principal>
    var signatureIndex: set<bytes>
    const bindings: RoleBindingBucket
    const address: Condition -> Address

    constructor (a: Condition -> Address)
      ensures Empty() && address == a
      ensures fresh(bindings)
    {
      roles, lastRoleId, principals, signatureIndex, address := map[], 0, [], {}, a;
      bindings := new RoleBindingBucket();
    }

    ghost predicate Empty()
      reads this, bindings
    {
      roles == map[] && lastRoleId == 0 && principals == [] && signatureIndex == {} && bindings.entries == []
    }

    /** The inclusions of one role, each of which must be stored already. */
    method Inclusions(ids: seq<uint64>) returns (ok: bool, roleIds: seq<bytes>)
      ensures ok <==> forall id | id in ids :: SequenceID(id) in roles
      ensures ok ==> roleIds == IDKeys(ids)
    {
      roleIds := [];
      for j := 0 to |ids|
        invariant roleIds == IDKeys(ids)[..j]
        invariant forall k | 0 <= k < j :: SequenceID(ids[k]) in roles
      {
        var idKey := SequenceID(ids[j]);
        if idKey !in roles {
          return false, roleIds;
        }
        roleIds := roleIds + [idKey];
      }
      return true, roleIds;
    }

    /** One turn of the loop of addRoles, after the roles `gs`. */
    method AddRole(v: GenesisRole, ghost gs: seq<GenesisRole>) returns (ok: bool)
      requires |gs| + 1 < TWO_63 && roles == RolesOf(address, gs) && lastRoleId == |gs|
      modifies this`roles, this`lastRoleId
      ensures ok <==> Backward(v, |gs|) && ValidRole(StoredRole(address, v, |gs| + 1))
      ensures ok ==> roles == RolesOf(address, gs + [v]) && lastRoleId == |gs| + 1
    {
      BackwardMeansStored(address, gs, v);
      var roleIds;
      ok, roleIds := Inclusions(v.roleIDs);
      if !ok {
        return;
      }
      lastRoleId := lastRoleId + 1;
      var key := SequenceID(lastRoleId);
      var role := Role(Some(Metadata(1)), v.name, [], address(RoleCondition(key)), roleIds, v.owner, v.permissions);
      if !ValidRole(role) {
        return false;
      }
      OneMoreRole(address, gs, v);
      roles := roles[key := role];
    }

    /** Succeeds exactly when every inclusion names an earlier role and every role is valid. */
    method AddRoles(gs: seq<GenesisRole>) returns (ok: bool)
      requires roles == map[] && lastRoleId == 0 && |gs| < TWO_63
      modifies this`roles, this`lastRoleId
      ensures ok <==> Loadable(address, gs)
      ensures ok ==> roles == RolesOf(address, gs)
      ensures ok ==> forall n: uint64 | 1 <= n <= |gs| ::
                && SequenceID(n) in roles
                && var r, g := roles[SequenceID(n)], gs[n - 1];
                   && r.name == g.name && r.owner == g.owner && r.permissions == g.permissions
                   && |r.roleIds| == |g.roleIDs| && forall j | 0 <= j < |r.roleIds| :: r.roleIds[j] == SequenceID(g.roleIDs[j])
    {
      ok := AddEachRole(gs);
      LoadedRoles(address, gs);
    }

    method AddEachRole(gs: seq<GenesisRole>) returns (ok: bool)
      requires roles == map[] && lastRoleId == 0 && |gs| < TWO_63
      modifies this`roles, this`lastRoleId
      ensures ok <==> Loadable(address, gs)
      ensures ok ==> roles == RolesOf(address, gs)
    {
      for i := 0 to |gs|
        invariant lastRoleId == i
        invariant roles == RolesOf(address, gs[..i])
        invariant Loadable(address, gs[..i])
      {
        OneMoreLoads(address, gs[..i], gs[i]);
        assert gs[..i + 1] == gs[..i] + [gs[i]];
        FewerLoad(address, gs, i + 1);
        ok := AddRole(gs[i], gs[..i]);
        if !ok {
          return;
        }
      }
      assert gs[..|gs|] == gs;
      return true;
    }

    /** The entries of the unique index for one principal. */
    method IndexKeys(keys: seq<bytes>) returns (ok: bool)
      modifies this`signatureIndex
      ensures ok <==> NewKeys(keys, old(signatureIndex))
      ensures ok ==> signatureIndex == old(signatureIndex) + KeySet(keys)
    {
      for i := 0 to |keys|
        invariant NewKeys(keys[..i], old(signatureIndex))
        invariant signatureIndex == old(signatureIndex) + KeySet(keys[..i])
      {
        assert keys[..i + 1] == keys[..i] + [keys[i]];
        if keys[i] in signatureIndex {
          return false;
        }
        signatureIndex := signatureIndex + {keys[i]};
      }
      assert keys[..|keys|] == keys;
      return true;
    }

    method PutPrincipal(v: GenesisPrincipal) returns (ok: bool)
      modifies this`principals, this`signatureIndex
      ensures ok <==> Enrolls(v, old(signatureIndex))
      ensures ok ==> principals == old(principals) + [StoredPrincipal(v)]
      ensures ok ==> signatureIndex == old(signatureIndex) + KeySet(Signatures(v))
    {
      var principal := Principal(Some(Metadata(1)), v.name, [], v.signatures);
      for i := 0 to |principal.signatures|
        invariant forall j | 0 <= j < i :: ValidSignature(v.signatures[j])
      {
        if !ValidSignature(principal.signatures[i]) {
          return false;
        }
      }
      ok := IndexKeys(Signatures(v));
      if ok {
        principals := principals + [principal];
      }
    }

    /** Succeeds exactly when all signatures are valid and no address signs for two entries. */
    method AddPrincipals(ps: seq<GenesisPrincipal>) returns (ok: bool)
      requires principals == [] && signatureIndex == {}
      modifies this`principals, this`signatureIndex
      ensures ok <==> Enrollable(ps)
      ensures ok ==> principals == StoredPrincipals(ps) && signatureIndex == IndexOf(ps)
      ensures ok ==> |principals| == |ps| && forall i | 0 <= i < |ps| ::
                principals[i].name == ps[i].name && principals[i].signatures == ps[i].signatures
    {
      PrincipalFields(ps);
      for i := 0 to |ps|
        invariant principals == StoredPrincipals(ps[..i])
        invariant signatureIndex == IndexOf(ps[..i])
        invariant Enrollable(ps[..i])
      {
        OneMoreEnrolls(ps, i);
        FewerEnroll(ps, i + 1);
        ok := PutPrincipal(ps[i]);
        if !ok {
          return;
        }
      }
      assert ps[..|ps|] == ps;
      return true;
    }

    /** Succeeds exactly when every binding names a stored role and a signature of a principal. */
    method AddRoleBindings(bs: seq<GenesisRoleBinding>) returns (ok: bool)
      requires bindings.entries == []
      modifies bindings
      ensures ok <==> Bindable(bs, roles, signatureIndex)
      ensures ok ==> bindings.entries == CreateAll(Calls(bs))
    {
      for i := 0 to |bs|
        invariant bindings.entries == CreateAll(Calls(bs)[..i])
        invariant forall j | 0 <= j < i :: SequenceID(bs[j].roleID) in roles && bs[j].signature in signatureIndex
      {
        var roleIDKey := SequenceID(bs[i].roleID);
        if roleIDKey !in roles || bs[i].signature !in signatureIndex {
          return false;
        }
        assert Calls(bs)[..i + 1][..i] == Calls(bs)[..i];
        var key := bindings.Create(roleIDKey, bs[i].signature);
      }
      assert Calls(bs)[..|bs|] == Calls(bs);
      return true;
    }

    /** All three loads, of which the first that fails ends the genesis. */
    method FromGenesis(g: GenesisRBAC) returns (ok: bool)
      requires Empty() && |g.roles| < TWO_63
      modifies this, bindings
      ensures ok <==> GenesisLoads(address, g)
      ensures ok ==> roles == RolesOf(address, g.roles)
      ensures ok ==> principals == StoredPrincipals(g.principals) && signatureIndex == IndexOf(g.principals)
      ensures ok ==> bindings.entries == CreateAll(Calls(g.roleBindings))
      ensures ok && IsAddressing(address) ==> IsLoaded(this, g)
    {
      ok := AddRoles(g.roles);
      if !ok {
        return;
      }
      ok := AddPrincipals(g.principals);
      if !ok {
        return;
      }
      ok := AddRoleBindings(g.roleBindings);
    }
  }

  ghost predicate GenesisLoads(address: Condition -> Address, g: GenesisRBAC)
    requires |g.roles| < TWO_63
  {
    && Loadable(address, g.roles) && Enrollable(g.principals)
    && Bindable(g.roleBindings, RolesOf(address, g.roles), IndexOf(g.principals))
  }

  // ----- What the loaded store guarantees -----

  lemma {:induction false} RoleKey(address: Condition -> Address, gs: seq<GenesisRole>, key: bytes) returns (n: uint64)
    requires |gs| < TWO_63 && key in RolesOf(address, gs)
    ensures 1 <= n <= |gs| && key == SequenceID(n)
    decreases |gs|
  {
    if key == SequenceID(|gs|) {
      n := |gs|;
    } else {
      n := RoleKey(address, gs[..|gs| - 1], key);
    }
  }

  /** The ids up to `n`. */
  function IdsUpTo(n: uint64): set<bytes> {
    set m: uint64 | 1 <= m <= n :: SequenceID(m)
  }

  /** Every inclusion of a loaded role points to a strictly smaller, existing id. */
  lemma InclusionsPointBack(address: Condition -> Address, gs: seq<GenesisRole>, n: uint64, child: bytes)
    requires 1 <= n <= |gs| < TWO_63 && Loadable(address, gs)
    requires SequenceID(n) in RolesOf(address, gs) && child in RolesOf(address, gs)[SequenceID(n)].roleIds
    ensures child in IdsUpTo(n - 1) && child in RolesOf(address, gs)
  {
    RoleAt(address, gs, n);
    var ids := gs[n - 1].roleIDs;
    var i :| 0 <= i < |ids| && child == SequenceID(ids[i]);
    assert ids[i] in ids;
    RoleAt(address, gs, ids[i]);
  }

  lemma IdsUpToClosed(address: Condition -> Address, gs: seq<GenesisRole>, n: uint64, id: bytes, child: bytes)
    requires n <= |gs| < TWO_63 && Loadable(address, gs)
    requires id in IdsUpTo(n) && id in RolesOf(address, gs) && child in RolesOf(address, gs)[id].roleIds
    ensures child in IdsUpTo(n)
  {
    var m: uint64 :| 1 <= m <= n && id == SequenceID(m);
    InclusionsPointBack(address, gs, m, child);
  }

  /** Role ids are a rank: whatever role n reaches has an id up to n, and is stored. */
  lemma ReachedAreEarlier(address: Condition -> Address, gs: seq<GenesisRole>, n: uint64, id: bytes)
    requires 1 <= n <= |gs| < TWO_63 && Loadable(address, gs)
    requires Reaches(RolesOf(address, gs), SequenceID(n), id)
    ensures id in IdsUpTo(n) && id in RolesOf(address, gs)
  {
    var db := RolesOf(address, gs);
    forall i, c | i in IdsUpTo(n) && i in db && c in db[i].roleIds ensures c in IdsUpTo(n) {
      IdsUpToClosed(address, gs, n, i, c);
    }
    ClosedContainsReachable(db, IdsUpTo(n), SequenceID(n), id);
    var m: uint64 :| 1 <= m <= n && id == SequenceID(m);
    RoleAt(address, gs, m);
  }

  /** The loaded graph has no cycle: no role is reached from one it includes. */
  lemma LoadedIsAcyclic(address: Condition -> Address, gs: seq<GenesisRole>, n: uint64, child: bytes)
    requires 1 <= n <= |gs| < TWO_63 && Loadable(address, gs)
    requires SequenceID(n) in RolesOf(address, gs) && child in RolesOf(address, gs)[SequenceID(n)].roleIds
    ensures !Reaches(RolesOf(address, gs), child, SequenceID(n))
  {
    InclusionsPointBack(address, gs, n, child);
    var m: uint64 :| 1 <= m <= n - 1 && child == SequenceID(m);
    if Reaches(RolesOf(address, gs), child, SequenceID(n)) {
      ReachedAreEarlier(address, gs, m, SequenceID(n));
      var k: uint64 :| 1 <= k <= m && SequenceID(n) == SequenceID(k);
      KeysDiffer(n, k);
    }
  }

  /** No stored role reaches a missing one. */
  lemma LoadedIsComplete(address: Condition -> Address, gs: seq<GenesisRole>, root: bytes)
    requires |gs| < TWO_63 && Loadable(address, gs) && root in RolesOf(address, gs)
    ensures !Dangling(RolesOf(address, gs), root)
  {
    var n := RoleKey(address, gs, root);
    forall id | Reaches(RolesOf(address, gs), root, id) ensures id in RolesOf(address, gs) {
      ReachedAreEarlier(address, gs, n, id);
    }
  }

  ghost predicate IsAddressing(address: Condition -> Address) {
    forall c :: |address(c)| == ADDRESS_LENGTH
  }

  lemma CallsAreSized(address: Condition -> Address, g: GenesisRBAC)
    requires |g.roles| < TWO_63 && GenesisLoads(address, g)
    ensures forall c | c in Calls(g.roleBindings) :: Sized(c.1, c.0) && c.0 in RolesOf(address, g.roles)
    ensures forall b | b in g.roleBindings :: Call(b) in Calls(g.roleBindings)
  {
    var calls := Calls(g.roleBindings);
    IndexedAreAddresses(g.principals);
    forall c | c in calls ensures Sized(c.1, c.0) && c.0 in RolesOf(address, g.roles) {
      var i :| 0 <= i < |calls| && c == calls[i];
      assert g.roleBindings[i] in g.roleBindings;
    }
    forall b | b in g.roleBindings ensures Call(b) in calls {
      var i :| 0 <= i < |calls| && g.roleBindings[i] == b;
      assert calls[i] == Call(b);
    }
  }

  /**
   No route writes roles or bindings after genesis, so the loaded store is the store of every later
   state: authentication of any set of signers never fails on a missing role.
   */
  lemma AuthenticationNeverFails(address: Condition -> Address, g: GenesisRBAC, cs: seq<Condition>)
    requires |g.roles| < TWO_63 && GenesisLoads(address, g) && IsAddressing(address)
    ensures AllLoad(RolesOf(address, g.roles), BoundRoles(CreateAll(Calls(g.roleBindings)), address, cs))
  {
    CallsAreSized(address, g);
    var es := CreateAll(Calls(g.roleBindings));
    BoundRolesOf(es, address, cs);
    forall r | r in BoundRoles(es, address, cs) ensures !Dangling(RolesOf(address, g.roles), r) {
      var c :| c in cs && r in RoleIDs(es, address(c));
      ScanRefinesBinding(Calls(g.roleBindings), address(c));
      assert (r, address(c)) in Calls(g.roleBindings);
      LoadedIsComplete(address, g.roles, r);
    }
  }

  /** A genesis binding of a signer's address, and a role reached from it that covers the permission. */
  ghost predicate BoundGrant(address: Condition -> Address, g: GenesisRBAC, p: Permission,
                             c: Condition, b: GenesisRoleBinding, id: bytes, k: Permission)
    requires |g.roles| < TWO_63
  {
    var db := RolesOf(address, g.roles);
    && b in g.roleBindings && b.signature == address(c)
    && Reaches(db, SequenceID(b.roleID), id)
    && id in db && k in db[id].permissions
    && (k == p || Allows(k, p))
  }

  lemma GrantIsBound(address: Condition -> Address, g: GenesisRBAC, p: Permission,
                     c: Condition, root: bytes, id: bytes, k: Permission) returns (b: GenesisRoleBinding)
    requires |g.roles| < TWO_63 && GenesisLoads(address, g) && IsAddressing(address)
    requires Grants(RolesOf(address, g.roles), CreateAll(Calls(g.roleBindings)), address, p, c, root, id, k)
    ensures BoundGrant(address, g, p, c, b, id, k)
  {
    CallsAreSized(address, g);
    ScanRefinesBinding(Calls(g.roleBindings), address(c));
    var i :| 0 <= i < |g.roleBindings| && Calls(g.roleBindings)[i] == (root, address(c));
    b := g.roleBindings[i];
  }

  lemma BoundIsGrant(address: Condition -> Address, g: GenesisRBAC, p: Permission,
                     c: Condition, b: GenesisRoleBinding, id: bytes, k: Permission)
    requires |g.roles| < TWO_63 && GenesisLoads(address, g) && IsAddressing(address)
    requires BoundGrant(address, g, p, c, b, id, k)
    ensures Grants(RolesOf(address, g.roles), CreateAll(Calls(g.roleBindings)), address, p, c, SequenceID(b.roleID), id, k)
  {
    CallsAreSized(address, g);
    ScanRefinesBinding(Calls(g.roleBindings), address(c));
    assert Call(b) in Calls(g.roleBindings);
  }

  lemma BoundRolesLoad(address: Condition -> Address, g: GenesisRBAC, ctx: Context)
    requires |g.roles| < TWO_63 && GenesisLoads(address, g) && IsAddressing(address) && ctx.conds == []
    ensures forall c, r | c in ctx.signers && r in RoleIDs(CreateAll(Calls(g.roleBindings)), address(c)) ::
              !Dangling(RolesOf(address, g.roles), r)
  {
    AuthenticationNeverFails(address, g, ctx.signers);
    BoundRolesOf(CreateAll(Calls(g.roleBindings)), address, ctx.signers);
  }

  /** From genesis to the decision on a message: only the grants matter. */
  lemma AdmissionAfterGenesis(address: Condition -> Address, g: GenesisRBAC, ctx: Context, prefix: bytes, path: bytes)
    requires |g.roles| < TWO_63 && GenesisLoads(address, g) && IsAddressing(address) && ctx.conds == []
    ensures Admits(RolesOf(address, g.roles), CreateAll(Calls(g.roleBindings)), address, ctx, {}, prefix, Some(path)) <==>
            exists c, b, id, k :: c in ctx.signers && BoundGrant(address, g, ResolvePermission(prefix, path), c, b, id, k)
  {
    var db, es, p := RolesOf(address, g.roles), CreateAll(Calls(g.roleBindings)), ResolvePermission(prefix, path);
    AdmitsMeansGranted(db, es, address, ctx, prefix, path);
    BoundRolesLoad(address, g, ctx);
    forall c, root, id, k | c in ctx.signers && Grants(db, es, address, p, c, root, id, k)
      ensures exists b :: BoundGrant(address, g, p, c, b, id, k)
    {
      var b := GrantIsBound(address, g, p, c, root, id, k);
    }
    forall c, b, id, k | c in ctx.signers && BoundGrant(address, g, p, c, b, id, k)
      ensures Grants(db, es, address, p, c, SequenceID(b.roleID), id, k)
    {
      BoundIsGrant(address, g, p, c, b, id, k);
    }
  }

  // ----- Every later request -----

  /** A transaction on its way through the decorators, to be checked or delivered. */
  datatype Request = Request(signers: seq<Condition>, msg: Option<bytes>, deliver: bool)

  /** The message extracts and a signer holds a grant for its path. */
  ghost predicate Covered(address: Condition -> Address, g: GenesisRBAC, prefix: bytes, r: Request)
    requires |g.roles| < TWO_63
  {
    r.msg.Some? && exists c, b, id, k ::
      c in r.signers && BoundGrant(address, g, ResolvePermission(prefix, r.msg.value), c, b, id, k)
  }

  /** The store as genesis left it. */
  ghost predicate IsLoaded(s: Store, g: GenesisRBAC)
    reads s, s.bindings
  {
    && |g.roles| < TWO_63 && IsAddressing(s.address) && GenesisLoads(s.address, g)
    && s.roles == RolesOf(s.address, g.roles) && s.bindings.entries == CreateAll(Calls(g.roleBindings))
  }

  /** One request in the context of its signers. */
  method Serve(s: Store, ghost g: GenesisRBAC, authN: AuthNDecorator, authZ: AuthZDecorator, next: Handler, r: Request)
    returns (admitted: bool)
    requires IsLoaded(s, g) && authN.address == s.address
    modifies next
    ensures IsLoaded(s, g)
    ensures admitted <==> Covered(s.address, g, authZ.prefix, r)
    ensures |next.checked| + |next.delivered| == |old(next.checked)| + |old(next.delivered)| + if admitted then 1 else 0
  {
    var ctx := Context(r.signers, [], null);
    var before := |next.checked| + |next.delivered|;
    if r.msg.Some? {
      AdmissionAfterGenesis(s.address, g, ctx, authZ.prefix, r.msg.value);
    }
    if r.deliver {
      var ok := authN.Deliver(ctx, s.roles, s.bindings, r.msg, authZ, next);
    } else {
      var ok, gas := authN.Check(ctx, s.roles, s.bindings, r.msg, authZ, next);
    }
    return |next.checked| + |next.delivered| > before;
  }

  /** The answers so far are those of the covered requests. */
  ghost predicate Decided(address: Condition -> Address, g: GenesisRBAC, prefix: bytes, rs: seq<Request>, admitted: seq<bool>)
    requires |g.roles| < TWO_63
  {
    |admitted| <= |rs| && forall j | 0 <= j < |admitted| :: admitted[j] <==> Covered(address, g, prefix, rs[j])
  }

  /**
   Any sequence of requests after genesis: the loaded store is never written, and the handler behind
   the decorators is reached exactly by the requests a genesis binding covers.
   */
  method ServeAll(s: Store, ghost g: GenesisRBAC, authN: AuthNDecorator, authZ: AuthZDecorator, next: Handler,
                  rs: seq<Request>)
    returns (admitted: seq<bool>)
    requires IsLoaded(s, g) && authN.address == s.address
    modifies next
    ensures IsLoaded(s, g)
    ensures Decided(s.address, g, authZ.prefix, rs, admitted) && |admitted| == |rs|
  {
    admitted := [];
    for i := 0 to |rs|
      invariant IsLoaded(s, g) && |admitted| == i
      invariant Decided(s.address, g, authZ.prefix, rs, admitted)
    {
      var a := Serve(s, g, authN, authZ, next, rs[i]);
      admitted := admitted + [a];
    }
  }
}
