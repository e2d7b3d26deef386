/**
 The genesis theorems in terms of the genesis data alone: when the data loads, and whom it admits, with
 ids and permissions read out of the data and not out of the store.
 */
module GenesisData {
  import opened Wire
  import opened RbacCodec
  import opened BigEndian
  import opened RoleGraph
  import opened Bindings
  import opened Access
  import opened Decorators
  import opened Genesis

  // ----- When the data loads -----

  /** The permission check is the regular expression of the source: 1 to 127 characters and a last one. */
  lemma PermissionIsPattern(p: Permission)
    ensures ValidPermission(p) <==>
            exists body: bytes, last: byte ::
              && p == body + [last] && 1 <= |body| <= 127
              && (forall i | 0 <= i < |body| ::
                    0x30 <= body[i] <= 0x39 || 0x61 <= body[i] <= 0x7a || body[i] in {0x2e, 0x2d, 0x5f})
              && (0x30 <= last <= 0x39 || 0x61 <= last <= 0x7a || last == 0x2a)
  {
    if ValidPermission(p) {
      var body, last := p[..|p| - 1], p[|p| - 1];
      assert p == body + [last];
    }
  }

  /** Roles load when inclusions name earlier ids, owners are addresses and permissions are well-formed. */
  lemma RolesLoadExactly(address: Condition -> Address, gs: seq<GenesisRole>)
    requires |gs| < TWO_63 && IsAddressing(address)
    ensures Loadable(address, gs) <==>
            && (forall i, id | 0 <= i < |gs| && id in gs[i].roleIDs :: 1 <= id <= i)
            && (forall i | 0 <= i < |gs| :: |gs[i].owner| == 20)
            && (forall i, p | 0 <= i < |gs| && p in gs[i].permissions :: ValidPermission(p))
  {
    forall i | 0 <= i < |gs|
      ensures Backward(gs[i], i) <==> forall id | id in gs[i].roleIDs :: 1 <= id <= i
      ensures ValidRole(StoredRole(address, gs[i], i + 1)) <==>
              |gs[i].owner| == 20 && forall p | p in gs[i].permissions :: ValidPermission(p)
    {
    }
  }

  lemma {:induction false} IndexExactly(ps: seq<GenesisPrincipal>, k: bytes)
    ensures k in IndexOf(ps) <==> exists i, a :: 0 <= i < |ps| && 0 <= a < |ps[i].signatures| && ps[i].signatures[a].signature == k
    decreases |ps|
  {
    if ps != [] {
      var n := |ps| - 1;
      IndexExactly(ps[..n], k);
      SignaturesExactly(ps[n], k);
    }
  }

  lemma SignaturesExactly(p: GenesisPrincipal, k: bytes)
    ensures k in KeySet(Signatures(p)) <==> exists a :: 0 <= a < |p.signatures| && p.signatures[a].signature == k
  {
    if k in Signatures(p) {
      var a :| 0 <= a < |Signatures(p)| && Signatures(p)[a] == k;
      assert p.signatures[a].signature == k;
    }
    forall a | 0 <= a < |p.signatures| && p.signatures[a].signature == k ensures k in Signatures(p) {
      assert Signatures(p)[a] == k;
    }
  }

  /** The signature at one place is well-formed. */
  ghost predicate GoodAt(ps: seq<GenesisPrincipal>, i: int, a: int)
    requires 0 <= i < |ps| && 0 <= a < |ps[i].signatures|
  {
    1 <= |ps[i].signatures[a].name| <= 64 && |ps[i].signatures[a].signature| == 20
  }

  /** Two places have different addresses. */
  ghost predicate DifferAt(ps: seq<GenesisPrincipal>, i: int, a: int, j: int, b: int)
    requires 0 <= i < |ps| && 0 <= a < |ps[i].signatures| && 0 <= j < |ps| && 0 <= b < |ps[j].signatures|
  {
    ps[i].signatures[a].signature != ps[j].signatures[b].signature
  }

  ghost predicate AllGood(ps: seq<GenesisPrincipal>) {
    forall i, a | 0 <= i < |ps| && 0 <= a < |ps[i].signatures| :: GoodAt(ps, i, a)
  }

  ghost predicate AllDiffer(ps: seq<GenesisPrincipal>) {
    forall i, a, j, b | 0 <= i < |ps| && 0 <= a < |ps[i].signatures| && 0 <= j < |ps| && 0 <= b < |ps[j].signatures|
                        && (i < j || (i == j && a < b)) :: DifferAt(ps, i, a, j, b)
  }

  lemma LastGood(ps: seq<GenesisPrincipal>)
    requires ps != []
    ensures AllGood(ps) <==> AllGood(ps[..|ps| - 1]) && forall s | s in ps[|ps| - 1].signatures :: ValidSignature(s)
  {
    var n := |ps| - 1;
    if AllGood(ps) {
      forall i, a | 0 <= i < n && 0 <= a < |ps[..n][i].signatures| ensures GoodAt(ps[..n], i, a) {
        assert GoodAt(ps, i, a);
      }
      forall s | s in ps[n].signatures ensures ValidSignature(s) {
        var a :| 0 <= a < |ps[n].signatures| && ps[n].signatures[a] == s;
        assert GoodAt(ps, n, a);
      }
    }
    if AllGood(ps[..n]) && forall s | s in ps[n].signatures :: ValidSignature(s) {
      forall i, a | 0 <= i < |ps| && 0 <= a < |ps[i].signatures| ensures GoodAt(ps, i, a) {
        if i < n { assert GoodAt(ps[..n], i, a); } else { assert ps[n].signatures[a] in ps[n].signatures; }
      }
    }
  }

  lemma LastDiffers(ps: seq<GenesisPrincipal>)
    requires ps != []
    ensures AllDiffer(ps) <==> AllDiffer(ps[..|ps| - 1]) && NewKeys(Signatures(ps[|ps| - 1]), IndexOf(ps[..|ps| - 1]))
  {
    var n := |ps| - 1;
    var front, keys := ps[..n], Signatures(ps[n]);
    if AllDiffer(ps) {
      FrontDiffers(ps);
      forall a, b | 0 <= a < b < |keys| ensures keys[a] != keys[b] {
        assert DifferAt(ps, n, a, n, b);
      }
      forall k | k in keys ensures k !in IndexOf(front) {
        var b :| 0 <= b < |keys| && keys[b] == k;
        IndexExactly(front, k);
        forall i, a | 0 <= i < n && 0 <= a < |front[i].signatures| ensures front[i].signatures[a].signature != k {
          assert DifferAt(ps, i, a, n, b);
        }
      }
    }
    if AllDiffer(front) && NewKeys(keys, IndexOf(front)) {
      forall i, a, j, b | 0 <= i < |ps| && 0 <= a < |ps[i].signatures| && 0 <= j < |ps| && 0 <= b < |ps[j].signatures|
                          && (i < j || (i == j && a < b))
        ensures DifferAt(ps, i, a, j, b)
      {
        if j < n {
          assert DifferAt(front, i, a, j, b);
        } else {
          assert keys[b] == ps[j].signatures[b].signature && keys[b] in keys;
          if i < n {
            IndexExactly(front, keys[b]);
            assert front[i].signatures[a] == ps[i].signatures[a];
          } else {
            assert keys[a] == ps[i].signatures[a].signature;
          }
        }
      }
    }
  }

  lemma FrontDiffers(ps: seq<GenesisPrincipal>)
    requires ps != [] && AllDiffer(ps)
    ensures AllDiffer(ps[..|ps| - 1])
  {
    var front := ps[..|ps| - 1];
    forall i, a, j, b | 0 <= i < |front| && 0 <= a < |front[i].signatures| && 0 <= j < |front|
                        && 0 <= b < |front[j].signatures| && (i < j || (i == j && a < b))
      ensures DifferAt(front, i, a, j, b)
    {
      assert DifferAt(ps, i, a, j, b);
    }
  }

  /** Principals load when names and addresses are well-formed and no address stands in two places. */
  lemma {:induction false} PrincipalsLoadExactly(ps: seq<GenesisPrincipal>)
    ensures Enrollable(ps) <==> AllGood(ps) && AllDiffer(ps)
    decreases |ps|
  {
    if ps != [] {
      PrincipalsLoadExactly(ps[..|ps| - 1]);
      LastGood(ps);
      LastDiffers(ps);
    }
  }

  /** Bindings load when they name a role id from 1 to k and the address of a principal. */
  lemma BindingsLoadExactly(address: Condition -> Address, g: GenesisRBAC)
    requires |g.roles| < TWO_63
    ensures Bindable(g.roleBindings, RolesOf(address, g.roles), IndexOf(g.principals)) <==>
            forall b | b in g.roleBindings ::
              1 <= b.roleID <= |g.roles| &&
              exists i, a :: 0 <= i < |g.principals| && 0 <= a < |g.principals[i].signatures|
                             && g.principals[i].signatures[a].signature == b.signature
  {
    forall b | b in g.roleBindings
      ensures SequenceID(b.roleID) in RolesOf(address, g.roles) <==> 1 <= b.roleID <= |g.roles|
      ensures b.signature in IndexOf(g.principals) <==>
              exists i, a :: 0 <= i < |g.principals| && 0 <= a < |g.principals[i].signatures|
                             && g.principals[i].signatures[a].signature == b.signature
    {
      KeysOfRoles(address, g.roles, b.roleID);
      IndexExactly(g.principals, b.signature);
    }
  }

  // ----- Whom it admits -----

  /** Role numbers, each included by the one before it in the genesis data. */
  ghost predicate Includes(gs: seq<GenesisRole>, ns: seq<uint64>) {
    && ns != [] && (forall i | 0 <= i < |ns| :: 1 <= ns[i] <= |gs|)
    && forall i | 0 <= i < |ns| - 1 :: ns[i + 1] in gs[ns[i] - 1].roleIDs
  }

  /** Role `n` is stored and includes role `m`. */
  ghost predicate Included(db: RoleStore, n: uint64, m: uint64) {
    SequenceID(n) in db && SequenceID(m) in db[SequenceID(n)].roleIds
  }

  lemma NumberIncluded(address: Condition -> Address, gs: seq<GenesisRole>, n: uint64, m: uint64)
    requires 1 <= n <= |gs| < TWO_63 && m in gs[n - 1].roleIDs
    ensures Included(RolesOf(address, gs), n, m)
  {
    RoleFields(address, gs, n);
    var r := RolesOf(address, gs)[SequenceID(n)];
    var j :| 0 <= j < |gs[n - 1].roleIDs| && gs[n - 1].roleIDs[j] == m;
    assert r.roleIds[j] == SequenceID(m);
  }

  /** The stored inclusions are those of the data. */
  ghost predicate Mirrors(db: RoleStore, gs: seq<GenesisRole>) {
    forall n: uint64, m | 1 <= n <= |gs| && m in gs[n - 1].roleIDs :: Included(db, n, m)
  }

  lemma LoadedMirrors(address: Condition -> Address, gs: seq<GenesisRole>)
    requires |gs| < TWO_63
    ensures Mirrors(RolesOf(address, gs), gs)
  {
    var db := RolesOf(address, gs);
    forall n: uint64, m | 1 <= n <= |gs| && m in gs[n - 1].roleIDs ensures Included(db, n, m) {
      NumberIncluded(address, gs, n, m);
    }
  }

  lemma {:induction false} NumbersReach(db: RoleStore, gs: seq<GenesisRole>, ns: seq<uint64>)
    requires Mirrors(db, gs) && Includes(gs, ns)
    ensures Reaches(db, SequenceID(ns[0]), SequenceID(ns[|ns| - 1]))
    decreases |ns|
  {
    if |ns| == 1 {
      ReachesSelf(db, SequenceID(ns[0]));
    } else {
      assert Included(db, ns[0], ns[1]);
      FewerInclude(gs, ns);
      NumbersReach(db, gs, ns[1..]);
      ReachesBefore(db, SequenceID(ns[0]), SequenceID(ns[1]), SequenceID(ns[|ns| - 1]));
    }
  }

  lemma FewerInclude(gs: seq<GenesisRole>, ns: seq<uint64>)
    requires Includes(gs, ns) && |ns| > 1
    ensures Includes(gs, ns[1..])
  {
  }

  lemma FirstStep(db: RoleStore, p: seq<bytes>)
    requires IsPath(db, p) && |p| > 1
    ensures p[0] in db && p[1] in db[p[0]].roleIds && IsPath(db, p[1..])
  {
  }

  /** The number behind an included key. */
  lemma IncludedNumber(address: Condition -> Address, gs: seq<GenesisRole>, n: uint64, child: bytes) returns (m: uint64)
    requires 1 <= n <= |gs| < TWO_63 && Loadable(address, gs)
    requires SequenceID(n) in RolesOf(address, gs) && child in RolesOf(address, gs)[SequenceID(n)].roleIds
    ensures m in gs[n - 1].roleIDs && child == SequenceID(m) && 1 <= m <= |gs|
  {
    RoleFields(address, gs, n);
    var r := RolesOf(address, gs)[SequenceID(n)];
    var j :| 0 <= j < |r.roleIds| && r.roleIds[j] == child;
    m := gs[n - 1].roleIDs[j];
    assert Backward(gs[n - 1], n - 1);
  }

  lemma OneMoreInclude(gs: seq<GenesisRole>, n: uint64, ns: seq<uint64>)
    requires Includes(gs, ns) && 1 <= n <= |gs| && ns[0] in gs[n - 1].roleIDs
    ensures Includes(gs, [n] + ns)
  {
  }

  lemma {:induction false} NumbersOfPath(address: Condition -> Address, gs: seq<GenesisRole>, p: seq<bytes>, n: uint64)
    returns (ns: seq<uint64>)
    requires 1 <= n <= |gs| < TWO_63 && Loadable(address, gs)
    requires IsPath(RolesOf(address, gs), p) && p[0] == SequenceID(n)
    ensures Includes(gs, ns) && ns[0] == n && SequenceID(ns[|ns| - 1]) == p[|p| - 1]
    decreases |p|
  {
    if |p| == 1 {
      ns := [n];
    } else {
      FirstStep(RolesOf(address, gs), p);
      var m := IncludedNumber(address, gs, n, p[1]);
      var more := NumbersOfPath(address, gs, p[1..], m);
      OneMoreInclude(gs, n, more);
      ns := [n] + more;
    }
  }

  /** A genesis binding of the address, and role numbers from its role to one whose own list covers `p`. */
  ghost predicate GrantsByData(g: GenesisRBAC, a: Address, p: Permission,
                               b: GenesisRoleBinding, ns: seq<uint64>, k: Permission) {
    && b in g.roleBindings && b.signature == a
    && Includes(g.roles, ns) && ns[0] == b.roleID
    && k in g.roles[ns[|ns| - 1] - 1].permissions
    && (k == p || ((p == [] || p[|p| - 1] != 0x2a) && k != [] && k[|k| - 1] == 0x2a && k[..|k| - 1] <= p))
  }

  lemma CoversByPrefix(k: Permission, p: Permission)
    ensures k == p || Allows(k, p) <==>
            k == p || ((p == [] || p[|p| - 1] != 0x2a) && k != [] && k[|k| - 1] == 0x2a && k[..|k| - 1] <= p)
  {
    if k == [] || k[|k| - 1] != 0x2a {
      ExactPermission(k, p);
    } else {
      assert k == k[..|k| - 1] + [0x2a];
      WildcardPermission(k[..|k| - 1], p);
    }
  }

  lemma GrantHasData(address: Condition -> Address, g: GenesisRBAC, p: Permission,
                     c: Condition, b: GenesisRoleBinding, id: bytes, k: Permission)
    returns (ns: seq<uint64>)
    requires |g.roles| < TWO_63 && GenesisLoads(address, g) && BoundGrant(address, g, p, c, b, id, k)
    ensures GrantsByData(g, address(c), p, b, ns, k)
  {
    KeysOfRoles(address, g.roles, b.roleID);
    ns := NumbersOfReach(address, g.roles, b.roleID, id);
    PermissionsOfRole(address, g.roles, ns[|ns| - 1]);
    CoversByPrefix(k, p);
  }

  lemma PermissionsOfRole(address: Condition -> Address, gs: seq<GenesisRole>, n: uint64)
    requires 1 <= n <= |gs| < TWO_63
    ensures SequenceID(n) in RolesOf(address, gs)
    ensures RolesOf(address, gs)[SequenceID(n)].permissions == gs[n - 1].permissions
  {
    RoleFields(address, gs, n);
  }

  lemma NumbersOfReach(address: Condition -> Address, gs: seq<GenesisRole>, n: uint64, id: bytes)
    returns (ns: seq<uint64>)
    requires 1 <= n <= |gs| < TWO_63 && Loadable(address, gs)
    requires Reaches(RolesOf(address, gs), SequenceID(n), id)
    ensures Includes(gs, ns) && ns[0] == n && SequenceID(ns[|ns| - 1]) == id
  {
    var path :| IsPath(RolesOf(address, gs), path) && path[0] == SequenceID(n) && path[|path| - 1] == id;
    ns := NumbersOfPath(address, gs, path, n);
  }

  lemma DataIsGrant(address: Condition -> Address, g: GenesisRBAC, p: Permission,
                    c: Condition, b: GenesisRoleBinding, ns: seq<uint64>, k: Permission)
    requires |g.roles| < TWO_63 && GrantsByData(g, address(c), p, b, ns, k)
    ensures BoundGrant(address, g, p, c, b, SequenceID(ns[|ns| - 1]), k)
  {
    LoadedMirrors(address, g.roles);
    NumbersReach(RolesOf(address, g.roles), g.roles, ns);
    PermissionsOfRole(address, g.roles, ns[|ns| - 1]);
    CoversByPrefix(k, p);
  }

  /** `p` is the prefix, a dot, and the path in lower case with dots for slashes. */
  ghost predicate IsPermissionFor(prefix: bytes, path: bytes, p: Permission) {
    && |p| == |prefix| + 1 + |path| && p[..|prefix| + 1] == prefix + [0x2e]
    && forall i | 0 <= i < |path| ::
         p[|prefix| + 1..][i] == if path[i] == 0x2f then 0x2e else if 0x41 <= path[i] <= 0x5a then path[i] + 0x20 else path[i]
  }

  lemma OnlyPermissionFor(prefix: bytes, path: bytes, p: Permission)
    ensures IsPermissionFor(prefix, path, p) <==> p == ResolvePermission(prefix, path)
  {
    var r, normal := ResolvePermission(prefix, path), Normalize(path);
    assert r[..|prefix| + 1] == prefix + [0x2e] && r[|prefix| + 1..] == normal;
    forall i | 0 <= i < |path|
      ensures normal[i] ==
              if path[i] == 0x2f then 0x2e else if 0x41 <= path[i] <= 0x5a then path[i] + 0x20 else path[i]
    {
      NormalizedAt(path, i);
    }
    if IsPermissionFor(prefix, path, p) {
      assert p == p[..|prefix| + 1] + p[|prefix| + 1..];
      assert p[|prefix| + 1..] == normal;
    }
  }

  lemma GrantsExactly(address: Condition -> Address, g: GenesisRBAC, cs: seq<Condition>, p: Permission)
    requires |g.roles| < TWO_63 && GenesisLoads(address, g)
    ensures (exists c, b, id, k :: c in cs && BoundGrant(address, g, p, c, b, id, k)) <==>
            (exists c, b, ns, k :: c in cs && GrantsByData(g, address(c), p, b, ns, k))
  {
    forall c, b, id, k | c in cs && BoundGrant(address, g, p, c, b, id, k)
      ensures exists ns :: GrantsByData(g, address(c), p, b, ns, k)
    {
      var ns := GrantHasData(address, g, p, c, b, id, k);
    }
    forall c, b, ns, k | c in cs && GrantsByData(g, address(c), p, b, ns, k)
      ensures exists id :: BoundGrant(address, g, p, c, b, id, k)
    {
      DataIsGrant(address, g, p, c, b, ns, k);
    }
  }

  /**
   From the genesis data to the decision on a message: it is admitted exactly when some signer's address
   has a binding whose role leads, through the inclusions listed in the data, to a role that lists the
   permission of the path or a starred prefix of it.
   */
  lemma AdmissionByData(address: Condition -> Address, g: GenesisRBAC, ctx: Context, prefix: bytes, path: bytes, p: Permission)
    requires |g.roles| < TWO_63 && GenesisLoads(address, g) && IsAddressing(address) && ctx.conds == []
    requires IsPermissionFor(prefix, path, p)
    ensures Admits(RolesOf(address, g.roles), CreateAll(Calls(g.roleBindings)), address, ctx, {}, prefix, Some(path)) <==>
            exists c, b, ns, k :: c in ctx.signers && GrantsByData(g, address(c), p, b, ns, k)
  {
    OnlyPermissionFor(prefix, path, p);
    AdmissionAfterGenesis(address, g, ctx, prefix, path);
    GrantsExactly(address, g, ctx.signers, p);
  }

  /** The requests that reach the handler in a run after genesis, by the data. */
  lemma CoveredByData(address: Condition -> Address, g: GenesisRBAC, prefix: bytes, r: Request, p: Permission)
    requires |g.roles| < TWO_63 && GenesisLoads(address, g)
    requires r.msg.Some? ==> IsPermissionFor(prefix, r.msg.value, p)
    ensures Covered(address, g, prefix, r) <==>
            r.msg.Some? && exists c, b, ns, k :: c in r.signers && GrantsByData(g, address(c), p, b, ns, k)
  {
    if r.msg.Some? {
      OnlyPermissionFor(prefix, r.msg.value, p);
      GrantsExactly(address, g, r.signers, p);
    }
  }

  /**
   The prefix of the application, a path of two plain parts and a role that lists exactly the dotted
   permission: a binding of a signer's address to that role is enough.
   */
  lemma DottedPermissionAdmits(address: Condition -> Address, g: GenesisRBAC, ctx: Context,
                               prefix: bytes, part: bytes, action: bytes, c: Condition, b: GenesisRoleBinding)
    requires |g.roles| < TWO_63 && GenesisLoads(address, g) && IsAddressing(address) && ctx.conds == []
    requires Plain(part) && Plain(action)
    requires c in ctx.signers && b in g.roleBindings && b.signature == address(c) && 1 <= b.roleID <= |g.roles|
    requires prefix + [0x2e] + part + [0x2e] + action in g.roles[b.roleID - 1].permissions
    ensures Admits(RolesOf(address, g.roles), CreateAll(Calls(g.roleBindings)), address, ctx, {}, prefix,
                   Some(part + [0x2f] + action))
  {
    var p := prefix + [0x2e] + part + [0x2e] + action;
    TwoPartPath(prefix, part, action);
    OnlyPermissionFor(prefix, part + [0x2f] + action, p);
    assert GrantsByData(g, address(c), p, b, [b.roleID], p);
    AdmissionByData(address, g, ctx, prefix, part + [0x2f] + action, p);
  }
}
