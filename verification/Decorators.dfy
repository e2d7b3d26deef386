/**
 The decorators of pkg/rbac/decorator.go: AuthN expands the roles bound to the signers into the
 context, AuthZ asks the context for the permission of the message, in the order of pkg/app/app.go.
 `address` stands for `Condition.Address()`.
 */
module Decorators {
  import opened Wire
  import opened RoleGraph
  import opened Bindings
  import opened Access

  const ROLE_GAS: int64 := 10

  /** The chained authenticator: signature and multisig conditions, then those of RBAC. */
  function GetConditions(ctx: Context): seq<Condition> {
    ctx.signers + ctx.conds
  }

  /** The role ids bound to each condition, in the order they are loaded. */
  function BoundRoles(es: seq<Entry>, address: Condition -> Address, cs: seq<Condition>): seq<bytes>
    requires WellKeyed(es)
  {
    if cs == [] then []
    else BoundRoles(es, address, cs[..|cs| - 1]) + RoleIDs(es, address(cs[|cs| - 1]))
  }

  lemma {:induction false} BoundRolesOf(es: seq<Entry>, address: Condition -> Address, cs: seq<Condition>)
    requires WellKeyed(es)
    ensures forall rid :: rid in BoundRoles(es, address, cs) <==> exists c :: c in cs && rid in RoleIDs(es, address(c))
    decreases |cs|
  {
    if cs != [] {
      var front, last := cs[..|cs| - 1], cs[|cs| - 1];
      BoundRolesOf(es, address, front);
      assert cs == front + [last];
      forall rid
        ensures rid in BoundRoles(es, address, cs) <==> exists c :: c in cs && rid in RoleIDs(es, address(c))
      {
        if rid in RoleIDs(es, address(last)) {
          assert last in cs;
        }
      }
    }
  }

  /** Gas for `n` loaded bindings, in 64 bits. */
  function Cost(n: nat): int64 {
    if n == 0 then 0 else Add64(Cost(n - 1), ROLE_GAS)
  }

  lemma {:induction false} CostIsTenEach(n: nat)
    requires 10 * n < TWO_63
    ensures Cost(n) == 10 * n
  {
    if n > 0 {
      CostIsTenEach(n - 1);
    }
  }

  ghost predicate AllLoad(db: RoleStore, roots: seq<bytes>) {
    forall r | r in roots :: !Dangling(db, r)
  }

  /** The context handed on when `m` are the processed roles. */
  ghost predicate Extends(newCtx: Context, ctx: Context, parent: set<Permission>, m: RoleStore)
    reads newCtx.perms
  {
    if m == map[] then newCtx == ctx && (ctx.perms != null ==> ctx.perms.perms == parent)
    else
      && newCtx.signers == ctx.signers
      && HasConditions(newCtx.conds, ctx.conds, m.Keys)
      && newCtx.perms != null && newCtx.perms.perms == parent + Granted(m)
      && (ctx.perms != null ==> newCtx.perms == ctx.perms)
  }

  /** The shared map after the roots `roots` have been loaded. */
  ghost predicate Loaded(db: RoleStore, m: RoleStore, roots: seq<bytes>) {
    Settled(db, m) && m == Closures(db, roots) && AllLoad(db, roots)
  }

  method LoadOne(db: RoleStore, id: bytes, p: Processed, ghost roots: seq<bytes>) returns (ok: bool)
    requires Loaded(db, p.roles, roots)
    modifies p
    ensures ok <==> !Dangling(db, id)
    ensures ok ==> Loaded(db, p.roles, roots + [id])
  {
    ok := LoadRoles(db, id, p);
    assert (roots + [id])[..|roots|] == roots;
  }

  /** The inner loop of authRoles. */
  method LoadIDs(db: RoleStore, ids: seq<bytes>, p: Processed, costs: int64, ghost roots: seq<bytes>)
    returns (ok: bool, sum: int64)
    requires Loaded(db, p.roles, roots) && costs == Cost(|roots|)
    modifies p
    ensures ok <==> AllLoad(db, ids)
    ensures ok ==> Loaded(db, p.roles, roots + ids) && sum == Cost(|roots + ids|)
  {
    sum := costs;
    ghost var now := roots;
    for j := 0 to |ids|
      invariant now == roots + ids[..j]
      invariant Loaded(db, p.roles, now) && sum == Cost(|now|)
      invariant AllLoad(db, ids[..j])
    {
      ok := LoadOne(db, ids[j], p, now);
      if !ok {
        return false, sum;
      }
      assert ids[..j + 1] == ids[..j] + [ids[j]];
      now := now + [ids[j]];
      sum := Add64(sum, ROLE_GAS);
    }
    assert ids[..|ids|] == ids;
    return true, sum;
  }

  class AuthNDecorator {
    const address: Condition -> Address

    constructor (a: Condition -> Address)
      ensures address == a
    {
      address := a;
    }

    /** The two loops of authRoles: every binding of every condition is loaded into the shared map. */
    method LoadBound(cs: seq<Condition>, db: RoleStore, bindings: RoleBindingBucket) returns (ok: bool, p: Processed, costs: int64)
      requires WellKeyed(bindings.entries)
      ensures fresh(p)
      ensures ok <==> AllLoad(db, BoundRoles(bindings.entries, address, cs))
      ensures ok ==> p.roles == Closures(db, BoundRoles(bindings.entries, address, cs))
      ensures ok ==> costs == Cost(|BoundRoles(bindings.entries, address, cs)|)
    {
      ghost var es := bindings.entries;
      costs := 0;
      p := new Processed();
      ghost var roots: seq<bytes> := [];
      for i := 0 to |cs|
        invariant bindings.entries == es && fresh(p)
        invariant roots == BoundRoles(es, address, cs[..i])
        invariant Loaded(db, p.roles, roots) && costs == Cost(|roots|)
      {
        var roleIDs := bindings.FindRoleIDsByAddress(address(cs[i]));
        var ids := roleIDs[..];
        ok, costs := LoadIDs(db, ids, p, costs, roots);
        if !ok {
          ghost var j :| 0 <= j < |ids| && Dangling(db, ids[j]);
          RootIsBound(es, address, cs, i, ids[j]);
          return;
        }
        assert cs[..i + 1][..i] == cs[..i];
        roots := roots + ids;
      }
      assert cs[..|cs|] == cs;
      return true, p, costs;
    }

    method AuthRoles(ctx: Context, db: RoleStore, bindings: RoleBindingBucket)
      returns (ok: bool, newCtx: Context, costs: int64)
      requires WellKeyed(bindings.entries)
      modifies ctx.perms
      ensures var roots := BoundRoles(bindings.entries, address, GetConditions(ctx));
              (ok <==> AllLoad(db, roots)) &&
              (ok ==> costs == Cost(|roots|)) &&
              (ok ==> Extends(newCtx, ctx, if ctx.perms == null then {} else old(ctx.perms.perms), Closures(db, roots)))
      ensures !ok ==> newCtx == ctx && costs == 0
      ensures !ok && ctx.perms != null ==> ctx.perms.perms == old(ctx.perms.perms)
    {
      var p;
      ok, p, costs := LoadBound(GetConditions(ctx), db, bindings);
      newCtx := ctx;
      if !ok {
        return false, ctx, 0;
      }
      if |p.roles| != 0 {
        newCtx := WithRBAC(ctx, p.roles);
      }
    }

    /** `Check`: the cost of the loaded roles is added to the gas payment of the rest of the stack. */
    method Check(ctx: Context, db: RoleStore, bindings: RoleBindingBucket, msg: Option<bytes>,
                 authZ: AuthZDecorator, next: Handler) returns (ok: bool, gas: int64)
      requires WellKeyed(bindings.entries)
      modifies ctx.perms, next
      ensures next.delivered == old(next.delivered)
      ensures |next.checked| - |old(next.checked)| ==
              if Admits(db, bindings.entries, address, ctx, old(PermsOf(ctx)), authZ.prefix, msg) then 1 else 0
      ensures |next.checked| > |old(next.checked)| ==>
                next.checked[..|old(next.checked)|] == old(next.checked) &&
                Extends(next.checked[|old(next.checked)|], ctx, old(PermsOf(ctx)),
                        Closures(db, BoundRoles(bindings.entries, address, GetConditions(ctx))))
      ensures ok <==> |next.checked| > |old(next.checked)| && next.checkOk
      ensures ok ==> gas == Add64(next.checkGas, Cost(|BoundRoles(bindings.entries, address, GetConditions(ctx))|))
    {
      ghost var m := Closures(db, BoundRoles(bindings.entries, address, GetConditions(ctx)));
      var newCtx, cost;
      ok, newCtx, cost := AuthRoles(ctx, db, bindings);
      gas := 0;
      if !ok {
        return;
      }
      ContextGrants(newCtx, ctx, old(PermsOf(ctx)), m);
      ok, gas := authZ.Check(newCtx, msg, next);
      if !ok {
        return;
      }
      gas := Add64(gas, cost);
    }

    method Deliver(ctx: Context, db: RoleStore, bindings: RoleBindingBucket, msg: Option<bytes>,
                   authZ: AuthZDecorator, next: Handler) returns (ok: bool)
      requires WellKeyed(bindings.entries)
      modifies ctx.perms, next
      ensures next.checked == old(next.checked)
      ensures |next.delivered| - |old(next.delivered)| ==
              if Admits(db, bindings.entries, address, ctx, old(PermsOf(ctx)), authZ.prefix, msg) then 1 else 0
      ensures |next.delivered| > |old(next.delivered)| ==>
                next.delivered[..|old(next.delivered)|] == old(next.delivered) &&
                Extends(next.delivered[|old(next.delivered)|], ctx, old(PermsOf(ctx)),
                        Closures(db, BoundRoles(bindings.entries, address, GetConditions(ctx))))
      ensures ok <==> |next.delivered| > |old(next.delivered)| && next.deliverOk
    {
      ghost var m := Closures(db, BoundRoles(bindings.entries, address, GetConditions(ctx)));
      var newCtx, cost;
      ok, newCtx, cost := AuthRoles(ctx, db, bindings);
      if !ok {
        return;
      }
      ContextGrants(newCtx, ctx, old(PermsOf(ctx)), m);
      ok := authZ.Deliver(newCtx, msg, next);
    }
  }

  /** The rest of the decorator stack and the router: it records the contexts it is called with. */
  class Handler {
    var checked: seq<Context>
    var delivered: seq<Context>
    const checkOk: bool
    const checkGas: int64
    const deliverOk: bool

    constructor (c: bool, g: int64, d: bool)
      ensures checked == [] && delivered == [] && checkOk == c && checkGas == g && deliverOk == d
    {
      checked, delivered := [], [];
      checkOk, checkGas, deliverOk := c, g, d;
    }

    method Check(ctx: Context) returns (ok: bool, gas: int64)
      modifies this
      ensures checked == old(checked) + [ctx] && delivered == old(delivered)
      ensures ok == checkOk && gas == checkGas
    {
      checked := checked + [ctx];
      return checkOk, checkGas;
    }

    method Deliver(ctx: Context) returns (ok: bool)
      modifies this
      ensures delivered == old(delivered) + [ctx] && checked == old(checked)
      ensures ok == deliverOk
    {
      delivered := delivered + [ctx];
      return deliverOk;
    }
  }

  // ----- Authorization -----

  /** Lower case, with dots for slashes (ASCII). */
  function Normalize(path: bytes): (r: bytes)
    ensures |r| == |path|
    decreases |path|
  {
    if path == [] then []
    else
      var b := path[0];
      [if b == 0x2f then 0x2e else if 0x41 <= b <= 0x5a then b + 0x20 else b] + Normalize(path[1..])
  }

  function ResolvePermission(prefix: bytes, path: bytes): Permission {
    prefix + [0x2e] + Normalize(path)
  }

  /** Lower case and dots for slashes, one character at a time. */
  lemma {:induction false} NormalizedAt(path: bytes, i: nat)
    requires i < |path|
    ensures Normalize(path)[i] ==
            if path[i] == 0x2f then 0x2e else if 0x41 <= path[i] <= 0x5a then path[i] + 0x20 else path[i]
    decreases |path|
  {
    if i > 0 {
      NormalizedAt(path[1..], i - 1);
    }
  }

  /** No slash and no upper-case letter. */
  predicate Plain(s: bytes) {
    forall i | 0 <= i < |s| :: s[i] != 0x2f && !(0x41 <= s[i] <= 0x5a)
  }

  /** The permission of a message path: prefix, dot, and the path in lower case with dots for slashes. */
  lemma PermissionOfPath(prefix: bytes, path: bytes)
    ensures |ResolvePermission(prefix, path)| == |prefix| + 1 + |path|
    ensures ResolvePermission(prefix, path)[..|prefix| + 1] == prefix + [0x2e]
    ensures forall i | 0 <= i < |path| ::
              ResolvePermission(prefix, path)[|prefix| + 1 + i] ==
              if path[i] == 0x2f then 0x2e else if 0x41 <= path[i] <= 0x5a then path[i] + 0x20 else path[i]
    ensures Plain(ResolvePermission(prefix, path)[|prefix| + 1..])
  {
    var r := ResolvePermission(prefix, path);
    assert r[|prefix| + 1..] == Normalize(path);
    forall i | 0 <= i < |path| ensures Normalize(path)[i] != 0x2f && !(0x41 <= Normalize(path)[i] <= 0x5a) {
      NormalizedAt(path, i);
    }
    forall i | 0 <= i < |path|
      ensures r[|prefix| + 1 + i] ==
              if path[i] == 0x2f then 0x2e else if 0x41 <= path[i] <= 0x5a then path[i] + 0x20 else path[i]
    {
      NormalizedAt(path, i);
      assert r[|prefix| + 1 + i] == Normalize(path)[i];
    }
  }

  /** A path of two plain parts, like `artifacts/create`: the parts joined by dots. */
  lemma TwoPartPath(prefix: bytes, a: bytes, b: bytes)
    requires Plain(a) && Plain(b)
    ensures ResolvePermission(prefix, a + [0x2f] + b) == prefix + [0x2e] + a + [0x2e] + b
  {
    var path, joined := a + [0x2f] + b, a + [0x2e] + b;
    forall i | 0 <= i < |path| ensures Normalize(path)[i] == joined[i] {
      NormalizedAt(path, i);
    }
    assert Normalize(path) == joined;
  }

  function PermsOf(ctx: Context): set<Permission>
    reads ctx.perms
  {
    if ctx.perms == null then {} else ctx.perms.perms
  }

  class AuthZDecorator {
    const prefix: bytes

    constructor (p: bytes)
      ensures prefix == p
    {
      prefix := p;
    }

    /** `msg` is the path of the transaction's message, if GetMsg succeeds. */
    method Check(ctx: Context, msg: Option<bytes>, next: Handler) returns (ok: bool, gas: int64)
      modifies next
      ensures if msg.Some? && Permits(PermsOf(ctx), ResolvePermission(prefix, msg.value))
              then next.checked == old(next.checked) + [ctx] && ok == next.checkOk && gas == next.checkGas
              else next.checked == old(next.checked) && !ok
      ensures next.delivered == old(next.delivered)
    {
      gas := 0;
      if msg.None? {
        return false, 0;
      }
      var perm := ResolvePermission(prefix, msg.value);
      var permitted := HasPermission(ctx, perm);
      if !permitted {
        return false, 0;
      }
      ok, gas := next.Check(ctx);
    }

    method Deliver(ctx: Context, msg: Option<bytes>, next: Handler) returns (ok: bool)
      modifies next
      ensures if msg.Some? && Permits(PermsOf(ctx), ResolvePermission(prefix, msg.value))
              then next.delivered == old(next.delivered) + [ctx] && ok == next.deliverOk
              else next.delivered == old(next.delivered) && !ok
      ensures next.checked == old(next.checked)
    {
      if msg.None? {
        return false;
      }
      var perm := ResolvePermission(prefix, msg.value);
      var permitted := HasPermission(ctx, perm);
      if !permitted {
        return false;
      }
      ok := next.Deliver(ctx);
    }
  }

  /** The permissions of the context AuthN hands on. */
  lemma ContextGrants(newCtx: Context, ctx: Context, parent: set<Permission>, m: RoleStore)
    requires Extends(newCtx, ctx, parent, m) && (ctx.perms == null ==> parent == {})
    ensures PermsOf(newCtx) == parent + Granted(m)
  {
    if m == map[] {
      assert Granted(m) == {};
    }
  }

  // ----- End to end -----

  /** The decision the two decorators make, in terms of what they compute. */
  ghost predicate Admits(db: RoleStore, es: seq<Entry>, address: Condition -> Address, ctx: Context,
                         parent: set<Permission>, prefix: bytes, msg: Option<bytes>)
    requires WellKeyed(es)
  {
    var roots := BoundRoles(es, address, GetConditions(ctx));
    AllLoad(db, roots) && msg.Some? &&
    Permits(parent + Granted(Closures(db, roots)), ResolvePermission(prefix, msg.value))
  }

  /** A role bound to one of the signers, and a role it reaches that holds a matching permission. */
  ghost predicate Grants(db: RoleStore, es: seq<Entry>, address: Condition -> Address,
                         p: Permission, c: Condition, root: bytes, id: bytes, k: Permission)
    requires WellKeyed(es)
  {
    && root in RoleIDs(es, address(c))
    && Reaches(db, root, id)
    && id in db && k in db[id].permissions
    && (k == p || Allows(k, p))
  }

  /**
   From a context without RBAC data the next handler is called exactly when every bound closure loads
   and some signer is bound to a role reaching a role with a permission that equals or allows the path.
   */
  lemma AdmitsMeansGranted(db: RoleStore, es: seq<Entry>, address: Condition -> Address, ctx: Context,
                           prefix: bytes, path: bytes)
    requires WellKeyed(es) && ctx.conds == []
    ensures Admits(db, es, address, ctx, {}, prefix, Some(path)) <==>
            (forall c, r | c in ctx.signers && r in RoleIDs(es, address(c)) :: !Dangling(db, r)) &&
            (exists c, root, id, k ::
               c in ctx.signers && Grants(db, es, address, ResolvePermission(prefix, path), c, root, id, k))
  {
    var cs := GetConditions(ctx);
    assert cs == ctx.signers;
    var roots := BoundRoles(es, address, cs);
    BoundRolesOf(es, address, cs);
    ClosuresOf(db, roots);
    var p := ResolvePermission(prefix, path);
    var granted := Granted(Closures(db, roots));
    assert {} + granted == granted;
    forall k | k in granted && (k == p || Allows(k, p))
      ensures exists c, root, id :: c in ctx.signers && Grants(db, es, address, p, c, root, id, k)
    {
      var id :| id in Closures(db, roots) && k in db[id].permissions;
      var root :| root in roots && Reaches(db, root, id);
      var c :| c in cs && root in RoleIDs(es, address(c));
      assert Grants(db, es, address, p, c, root, id, k);
    }
    forall c, root, id, k | c in ctx.signers && Grants(db, es, address, p, c, root, id, k)
      ensures k in granted
    {
      assert root in roots;
      assert id in Closures(db, roots);
    }
  }

  /**
   In any context, one that carries RBAC data included: the closures of the roles bound to every listed
   condition must load, and the permission is either held already or granted through one of them.
   */
  lemma AdmitsExactly(db: RoleStore, es: seq<Entry>, address: Condition -> Address, ctx: Context,
                      parent: set<Permission>, prefix: bytes, msg: Option<bytes>)
    requires WellKeyed(es)
    ensures Admits(db, es, address, ctx, parent, prefix, msg) <==>
            && msg.Some?
            && (forall c, r | (c in ctx.signers || c in ctx.conds) && r in RoleIDs(es, address(c)) :: !Dangling(db, r))
            && (|| Permits(parent, ResolvePermission(prefix, msg.value))
                || exists c, root, id, k ::
                     (c in ctx.signers || c in ctx.conds) &&
                     Grants(db, es, address, ResolvePermission(prefix, msg.value), c, root, id, k))
  {
    if msg.Some? {
      var cs, p := GetConditions(ctx), ResolvePermission(prefix, msg.value);
      assert forall c :: c in cs <==> c in ctx.signers || c in ctx.conds;
      BoundRolesOf(es, address, cs);
      var granted := Granted(Closures(db, BoundRoles(es, address, cs)));
      PermitsEither(parent, granted, p);
      forall k | k in granted && (k == p || Allows(k, p))
        ensures exists c, root, id :: c in cs && Grants(db, es, address, p, c, root, id, k)
      {
        var c, root, id := GrantOf(db, es, address, cs, p, k);
      }
      forall c, root, id, k | c in cs && Grants(db, es, address, p, c, root, id, k) ensures k in granted {
        GrantIsGranted(db, es, address, cs, p, c, root, id, k);
      }
    }
  }

  lemma PermitsEither(a: set<Permission>, b: set<Permission>, p: Permission)
    ensures Permits(a + b, p) <==> Permits(a, p) || exists k :: k in b && (k == p || Allows(k, p))
  {
    if p in b {
      assert p in b && (p == p || Allows(p, p));
    }
  }

  /** Where a granted permission comes from. */
  lemma GrantOf(db: RoleStore, es: seq<Entry>, address: Condition -> Address, cs: seq<Condition>, p: Permission, k: Permission)
    returns (c: Condition, root: bytes, id: bytes)
    requires WellKeyed(es) && (k == p || Allows(k, p))
    requires k in Granted(Closures(db, BoundRoles(es, address, cs)))
    ensures c in cs && Grants(db, es, address, p, c, root, id, k)
  {
    var roots := BoundRoles(es, address, cs);
    var m := Closures(db, roots);
    id :| id in m && k in m[id].permissions;
    InClosures(db, roots, id);
    root :| root in roots && Reaches(db, root, id);
    BoundRolesOf(es, address, cs);
    c :| c in cs && root in RoleIDs(es, address(c));
  }

  lemma GrantIsGranted(db: RoleStore, es: seq<Entry>, address: Condition -> Address, cs: seq<Condition>, p: Permission,
                       c: Condition, root: bytes, id: bytes, k: Permission)
    requires WellKeyed(es) && c in cs && Grants(db, es, address, p, c, root, id, k)
    ensures k in Granted(Closures(db, BoundRoles(es, address, cs)))
  {
    var roots := BoundRoles(es, address, cs);
    BoundRolesOf(es, address, cs);
    InClosures(db, roots, id);
    assert k in Closures(db, roots)[id].permissions;
  }

  lemma RootIsBound(es: seq<Entry>, address: Condition -> Address, cs: seq<Condition>, i: nat, id: bytes)
    requires WellKeyed(es) && i < |cs| && id in RoleIDs(es, address(cs[i]))
    ensures id in BoundRoles(es, address, cs)
  {
    BoundRolesOf(es, address, cs);
    assert cs[i] in cs;
  }
}
