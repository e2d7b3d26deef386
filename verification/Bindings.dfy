/**
 The role-binding bucket of pkg/rbac/bucket.go: composite keys address + role id, and the prefix scan
 that finds the roles bound to an address. The key-value store underneath is an association list in
 key order.
 */
module Bindings {
  import opened Wire
  import opened RbacCodec
  import opened ByteOrder

  const ADDRESS_LENGTH := 20
  const ID_LENGTH := 8

  /** `"rolebind:"`, which the bucket puts in front of every key. */
  const BUCKET: bytes := [0x72, 0x6f, 0x6c, 0x65, 0x62, 0x69, 0x6e, 0x64, 0x3a]

  function DBKey(key: bytes): bytes {
    BUCKET + key
  }

  // ----- The ordered store -----

  datatype Entry = Entry(key: bytes, value: RoleBinding)

  /** Strictly ascending keys. */
  ghost predicate Ordered(es: seq<Entry>) {
    forall i, j | 0 <= i < j < |es| :: Less(es[i].key, es[j].key)
  }

  function Put(es: seq<Entry>, e: Entry): seq<Entry>
    decreases |es|
  {
    if es == [] || Less(e.key, es[0].key) then [e] + es
    else if e.key == es[0].key then [e] + es[1..]
    else [es[0]] + Put(es[1..], e)
  }

  /** The entries whose key starts with `prefix`, in key order. */
  function Scan(es: seq<Entry>, prefix: bytes): seq<Entry> {
    if es == [] then []
    else Scan(es[..|es| - 1], prefix) + if prefix <= es[|es| - 1].key then [es[|es| - 1]] else []
  }

  lemma {:induction false} PutMembers(es: seq<Entry>, e: Entry, x: Entry)
    requires Ordered(es)
    ensures x in Put(es, e) <==> x == e || (x in es && x.key != e.key)
    decreases |es|
  {
    if es == [] {
    } else {
      LessIsStrict(e.key, es[0].key);
      assert es == [es[0]] + es[1..];
      if Less(e.key, es[0].key) || e.key == es[0].key {
        if x in es[1..] {
          var j :| 1 <= j < |es| && es[j] == x;
          if e.key != es[0].key { LessIsTransitive(e.key, es[0].key, x.key); }
        }
        LessIsIrreflexive(e.key);
        if x in es[1..] { assert Less(es[0].key, x.key); }
      } else {
        PutMembers(es[1..], e, x);
      }
    }
  }

  lemma {:induction false} PutOrdered(es: seq<Entry>, e: Entry)
    requires Ordered(es)
    ensures Ordered(Put(es, e))
    decreases |es|
  {
    if es == [] {
    } else {
      LessIsStrict(e.key, es[0].key);
      if Less(e.key, es[0].key) {
        forall j | 0 <= j < |es| ensures Less(e.key, es[j].key) {
          if j > 0 { LessIsTransitive(e.key, es[0].key, es[j].key); }
        }
      } else if e.key != es[0].key {
        var r := Put(es[1..], e);
        PutOrdered(es[1..], e);
        forall j | 0 <= j < |r| ensures Less(es[0].key, r[j].key) {
          PutMembers(es[1..], e, r[j]);
          assert r[j] in r;
        }
      }
    }
  }

  lemma {:induction false} ScanMembers(es: seq<Entry>, prefix: bytes, x: Entry)
    ensures x in Scan(es, prefix) <==> x in es && prefix <= x.key
  {
    if es != [] {
      ScanMembers(es[..|es| - 1], prefix, x);
      assert es == es[..|es| - 1] + [es[|es| - 1]];
    }
  }

  lemma {:induction false} ScanOrdered(es: seq<Entry>, prefix: bytes)
    requires Ordered(es)
    ensures Ordered(Scan(es, prefix))
  {
    if es != [] {
      var front, last := es[..|es| - 1], es[|es| - 1];
      var r := Scan(front, prefix);
      ScanOrdered(front, prefix);
      forall i | 0 <= i < |r| ensures Less(r[i].key, last.key) {
        ScanMembers(front, prefix, r[i]);
        assert r[i] in r;
        var j :| 0 <= j < |front| && front[j] == r[i];
        assert Less(es[j].key, es[|es| - 1].key);
      }
    }
  }

  // ----- Composite keys -----

  /** `copy(x[off:], b)`, which stops at the end of `x`. */
  function CopyInto(x: bytes, off: nat, b: bytes): (r: bytes)
    requires off <= |x|
    ensures |r| == |x|
  {
    var n := if |b| <= |x| - off then |b| else |x| - off;
    x[..off] + b[..n] + x[off + n..]
  }

  function Zeros(n: nat): (r: bytes)
    ensures |r| == n
  {
    seq(n, _ => 0)
  }

  const KEY_LENGTH := ADDRESS_LENGTH + ID_LENGTH

  function Key(signature: bytes, roleId: bytes): (key: bytes)
    ensures |key| == KEY_LENGTH
  {
    CopyInto(CopyInto(Zeros(KEY_LENGTH), 0, signature), ADDRESS_LENGTH, roleId)
  }

  method BuildKey(signature: bytes, roleId: bytes) returns (x: array<byte>)
    ensures fresh(x) && x[..] == Key(signature, roleId)
  {
    x := new byte[KEY_LENGTH](_ => 0);
    assert x[..] == Zeros(KEY_LENGTH);
    CopyBytes(x, 0, signature);
    CopyBytes(x, ADDRESS_LENGTH, roleId);
  }

  method CopyBytes(x: array<byte>, off: nat, b: bytes)
    requires off <= x.Length
    modifies x
    ensures x[..] == CopyInto(old(x[..]), off, b)
  {
    var n := if |b| <= x.Length - off then |b| else x.Length - off;
    forall i | 0 <= i < n {
      x[off + i] := b[i];
    }
  }

  ghost predicate Sized(signature: bytes, roleId: bytes) {
    |signature| == ADDRESS_LENGTH && |roleId| == ID_LENGTH
  }

  /** With addresses and ids of their proper sizes the key is their concatenation, hence injective. */
  lemma KeyOfSized(signature: bytes, roleId: bytes)
    requires Sized(signature, roleId)
    ensures Key(signature, roleId) == signature + roleId
    ensures Key(signature, roleId)[..ADDRESS_LENGTH] == signature
    ensures Key(signature, roleId)[ADDRESS_LENGTH..] == roleId
  {
  }

  /** An address cut or padded with zeros to its proper size. */
  function Fit(a: bytes): (r: bytes)
    ensures |r| == ADDRESS_LENGTH
  {
    CopyInto(Zeros(ADDRESS_LENGTH), 0, a)
  }

  /** What an over-long address leaves in the place of the id. */
  function Spill(a: bytes): (r: bytes)
    ensures |r| == ID_LENGTH
  {
    CopyInto(Zeros(ID_LENGTH), 0, if |a| <= ADDRESS_LENGTH then [] else a[ADDRESS_LENGTH..])
  }

  /** The id part of a key: the id, and behind a short one the rest of the spill. */
  function IdPart(a: bytes, id: bytes): (r: bytes)
    ensures |r| == ID_LENGTH
  {
    CopyInto(Spill(a), 0, id)
  }

  lemma KeyParts(a: bytes, id: bytes)
    ensures Key(a, id) == Fit(a) + IdPart(a, id)
  {
    assert CopyInto(Zeros(KEY_LENGTH), 0, a) == Fit(a) + Spill(a);
  }

  lemma FullId(a: bytes, id: bytes)
    requires |id| == ID_LENGTH
    ensures IdPart(a, id) == id
  {
  }

  /** Exactly when two bindings share a key; with ids of their proper size: same id, same fitted address. */
  lemma KeyKernel(a: bytes, i: bytes, b: bytes, j: bytes)
    ensures Key(a, i) == Key(b, j) <==> Fit(a) == Fit(b) && IdPart(a, i) == IdPart(b, j)
    ensures |i| == ID_LENGTH && |j| == ID_LENGTH ==>
              (Key(a, i) == Key(b, j) <==> Fit(a) == Fit(b) && i == j)
  {
    KeyParts(a, i);
    KeyParts(b, j);
    if Key(a, i) == Key(b, j) {
      assert Key(a, i)[..ADDRESS_LENGTH] == Fit(a) && Key(b, j)[..ADDRESS_LENGTH] == Fit(b);
      assert Key(a, i)[ADDRESS_LENGTH..] == IdPart(a, i) && Key(b, j)[ADDRESS_LENGTH..] == IdPart(b, j);
    }
    if |i| == ID_LENGTH && |j| == ID_LENGTH {
      FullId(a, i);
      FullId(b, j);
    }
  }

  function ByteAt(a: bytes, k: nat): byte {
    if k < |a| then a[k] else 0
  }

  /** Exactly when two addresses fit alike: padded with zeros they agree on the first 20 bytes. */
  lemma FitKernel(a: bytes, b: bytes)
    ensures Fit(a) == Fit(b) <==> forall k | 0 <= k < ADDRESS_LENGTH :: ByteAt(a, k) == ByteAt(b, k)
  {
    assert forall k | 0 <= k < ADDRESS_LENGTH :: Fit(a)[k] == ByteAt(a, k);
    assert forall k | 0 <= k < ADDRESS_LENGTH :: Fit(b)[k] == ByteAt(b, k);
  }

  /** Hence keys of addresses with one common length up to 20 do not collide. */
  lemma OneLengthIsInjective(a: bytes, b: bytes)
    requires |a| == |b| <= ADDRESS_LENGTH
    ensures Fit(a) == Fit(b) <==> a == b
  {
    FitKernel(a, b);
    if Fit(a) == Fit(b) {
      assert forall k | 0 <= k < |a| :: a[k] == ByteAt(a, k) && b[k] == ByteAt(b, k);
    }
  }

  /** Two short addresses that padding makes equal. */
  lemma ShortAddressesCollide(roleId: bytes)
    ensures Key([1], roleId) == Key([1, 0], roleId)
  {
    FitKernel([1], [1, 0]);
    assert Spill([1]) == Spill([1, 0]);
    KeyKernel([1], roleId, [1, 0], roleId);
  }

  /** Two long addresses with the same fitted address, told apart by what they spill behind an empty id. */
  lemma LongAddressesSpill(a: bytes)
    requires |a| == ADDRESS_LENGTH
    ensures Fit(a + [1]) == Fit(a + [2]) && Key(a + [1], []) != Key(a + [2], [])
  {
    FitKernel(a + [1], a + [2]);
    KeyKernel(a + [1], [], a + [2], []);
    assert (a + [1])[ADDRESS_LENGTH..] == [1] && (a + [2])[ADDRESS_LENGTH..] == [2];
    assert IdPart(a + [1], [])[0] == 1 && IdPart(a + [2], [])[0] == 2;
  }

  // ----- The bucket -----

  function Created(es: seq<Entry>, roleId: bytes, signature: bytes): seq<Entry> {
    Put(es, Entry(DBKey(Key(signature, roleId)), RoleBinding(Some(Metadata(1)), roleId, signature)))
  }

  /** Every stored key is a bucket key of full length. */
  ghost predicate WellKeyed(es: seq<Entry>) {
    Ordered(es) && forall e | e in es :: |e.key| == |BUCKET| + KEY_LENGTH
  }

  lemma CreatedWellKeyed(es: seq<Entry>, roleId: bytes, signature: bytes)
    requires WellKeyed(es)
    ensures WellKeyed(Created(es, roleId, signature))
  {
    var e := Entry(DBKey(Key(signature, roleId)), RoleBinding(Some(Metadata(1)), roleId, signature));
    PutOrdered(es, e);
    forall x | x in Put(es, e) ensures |x.key| == |BUCKET| + KEY_LENGTH {
      PutMembers(es, e, x);
    }
  }

  /** What FindRoleIDsByAddress cuts out of the scanned keys. */
  function RoleIDs(es: seq<Entry>, address: bytes): (ids: seq<bytes>)
    requires forall e | e in es :: |e.key| == |BUCKET| + KEY_LENGTH
    ensures |ids| == |Scan(es, DBKey(address))|
  {
    var models := Scan(es, DBKey(address));
    seq(|models|, i requires 0 <= i < |models| =>
      ScanMembers(es, DBKey(address), models[i]); models[i].key[|BUCKET| + ADDRESS_LENGTH..])
  }

  class RoleBindingBucket {
    var entries: seq<Entry>

    constructor ()
      ensures entries == []
    {
      entries := [];
    }

    method Create(roleIDKey: bytes, signature: bytes) returns (key: bytes)
      requires WellKeyed(entries)
      modifies this
      ensures key == Key(signature, roleIDKey)
      ensures WellKeyed(entries) && entries == Created(old(entries), roleIDKey, signature)
    {
      var r := RoleBinding(Some(Metadata(1)), roleIDKey, signature);
      var x := BuildKey(r.signature, r.roleId);
      key := x[..];
      CreatedWellKeyed(entries, roleIDKey, signature);
      entries := Put(entries, Entry(DBKey(key), r));
    }

    method FindRoleIDsByAddress(a: bytes) returns (r: array<bytes>)
      requires WellKeyed(entries)
      ensures fresh(r) && r[..] == RoleIDs(entries, a)
    {
      var models := Scan(entries, DBKey(a));
      r := new bytes[|models|](_ => []);
      var prefixLength := |DBKey([])| + ADDRESS_LENGTH;
      for i := 0 to |models|
        invariant r[..i] == RoleIDs(entries, a)[..i]
      {
        ScanMembers(entries, DBKey(a), models[i]);
        r[i] := models[i].key[prefixLength..];
      }
    }
  }

  // ----- Any sequence of Create calls -----

  /** Role id and address of each call, in order. */
  function CreateAll(calls: seq<(bytes, bytes)>): (es: seq<Entry>)
    ensures WellKeyed(es)
  {
    if calls == [] then []
    else
      var (id, a) := calls[|calls| - 1];
      CreatedWellKeyed(CreateAll(calls[..|calls| - 1]), id, a);
      Created(CreateAll(calls[..|calls| - 1]), id, a)
  }

  function KeyOf(c: (bytes, bytes)): (key: bytes)
    ensures |key| == KEY_LENGTH
  {
    Key(c.1, c.0)
  }

  /** The entry a call stores. */
  function EntryOf(c: (bytes, bytes)): Entry {
    Entry(DBKey(KeyOf(c)), RoleBinding(Some(Metadata(1)), c.0, c.1))
  }

  /** Call `k` is the last one with its key. */
  ghost predicate LastOf(calls: seq<(bytes, bytes)>, k: int) {
    0 <= k < |calls| && forall l | k < l < |calls| :: KeyOf(calls[l]) != KeyOf(calls[k])
  }

  lemma SameDBKey(a: bytes, b: bytes)
    ensures DBKey(a) == DBKey(b) <==> a == b
    ensures DBKey(a) <= DBKey(b) <==> a <= b
  {
    assert DBKey(a)[|BUCKET|..] == a && DBKey(b)[|BUCKET|..] == b;
    if DBKey(a) <= DBKey(b) {
      assert DBKey(b)[..|BUCKET| + |a|] == DBKey(a);
      assert b[..|a|] == DBKey(b)[..|BUCKET| + |a|][|BUCKET|..];
    }
    if a <= b {
      assert DBKey(b) == DBKey(a) + b[|a|..];
    }
  }

  lemma LastOfFront(calls: seq<(bytes, bytes)>, c: (bytes, bytes), k: int)
    requires 0 <= k < |calls|
    ensures LastOf(calls + [c], k) <==> LastOf(calls, k) && KeyOf(c) != KeyOf(calls[k])
  {
    var more := calls + [c];
    assert forall l | 0 <= l < |calls| :: more[l] == calls[l];
    assert more[|calls|] == c;
  }

  /** After any calls whatever, exactly the last call of each key is stored. */
  lemma {:induction false} StoredAreCreated(calls: seq<(bytes, bytes)>, x: Entry)
    ensures x in CreateAll(calls) <==> exists k :: LastOf(calls, k) && x == EntryOf(calls[k])
    decreases |calls|
  {
    if calls != [] {
      var n := |calls| - 1;
      var front, c := calls[..n], calls[n];
      assert calls == front + [c];
      StoredAreCreated(front, x);
      PutMembers(CreateAll(front), EntryOf(c), x);
      assert LastOf(calls, n);
      forall k | 0 <= k < n
        ensures LastOf(calls, k) && x == EntryOf(calls[k]) <==>
                LastOf(front, k) && x == EntryOf(front[k]) && x.key != EntryOf(c).key
      {
        LastOfFront(front, c, k);
        SameDBKey(KeyOf(c), KeyOf(front[k]));
      }
    }
  }

  /** The last call with the key of call `k`. */
  lemma {:induction false} LastWithKey(calls: seq<(bytes, bytes)>, k: nat) returns (l: nat)
    requires k < |calls|
    ensures LastOf(calls, l) && KeyOf(calls[l]) == KeyOf(calls[k])
    decreases |calls| - k
  {
    if LastOf(calls, k) {
      l := k;
    } else {
      var j :| k < j < |calls| && KeyOf(calls[j]) == KeyOf(calls[k]);
      l := LastWithKey(calls, j);
    }
  }

  /** A call whose key the scan for `address` meets, and the id cut out of that key. */
  ghost predicate Matches(c: (bytes, bytes), address: bytes, id: bytes) {
    address <= KeyOf(c) && id == KeyOf(c)[ADDRESS_LENGTH..]
  }

  lemma CutOut(key: bytes)
    requires |key| == KEY_LENGTH
    ensures DBKey(key)[|BUCKET| + ADDRESS_LENGTH..] == key[ADDRESS_LENGTH..]
  {
  }

  lemma ScannedIsBound(calls: seq<(bytes, bytes)>, address: bytes, i: nat)
    requires i < |RoleIDs(CreateAll(calls), address)|
    ensures exists c :: c in calls && Matches(c, address, RoleIDs(CreateAll(calls), address)[i])
  {
    var e := Scan(CreateAll(calls), DBKey(address))[i];
    ScanMembers(CreateAll(calls), DBKey(address), e);
    StoredAreCreated(calls, e);
    var k :| LastOf(calls, k) && e == EntryOf(calls[k]);
    SameDBKey(address, KeyOf(calls[k]));
    CutOut(KeyOf(calls[k]));
    assert calls[k] in calls;
  }

  lemma BoundIsScanned(calls: seq<(bytes, bytes)>, address: bytes, c: (bytes, bytes), id: bytes)
    requires c in calls && Matches(c, address, id)
    ensures id in RoleIDs(CreateAll(calls), address)
  {
    var es := CreateAll(calls);
    var models := Scan(es, DBKey(address));
    var k :| 0 <= k < |calls| && calls[k] == c;
    var l := LastWithKey(calls, k);
    var e := EntryOf(calls[l]);
    StoredAreCreated(calls, e);
    SameDBKey(address, KeyOf(c));
    ScanMembers(es, DBKey(address), e);
    var i :| 0 <= i < |models| && models[i] == e;
    CutOut(KeyOf(c));
    assert RoleIDs(es, address)[i] == id;
  }

  /** An address of at least full length fixes the address part of the keys, so the ids ascend. */
  lemma ScanAscends(calls: seq<(bytes, bytes)>, address: bytes, i: nat, j: nat)
    requires |address| >= ADDRESS_LENGTH && i < j < |RoleIDs(CreateAll(calls), address)|
    ensures Less(RoleIDs(CreateAll(calls), address)[i], RoleIDs(CreateAll(calls), address)[j])
  {
    var es := CreateAll(calls);
    var models := Scan(es, DBKey(address));
    var p := DBKey(address[..ADDRESS_LENGTH]);
    ScanOrdered(es, DBKey(address));
    forall k | k == i || k == j ensures models[k].key == p + RoleIDs(es, address)[k] {
      ScanMembers(es, DBKey(address), models[k]);
      assert DBKey(address)[..|p|] == p;
      assert models[k].key[..|p|] == DBKey(address)[..|p|];
      assert models[k].key == models[k].key[..|p|] + models[k].key[|p|..];
    }
    LessAfterPrefix(p, RoleIDs(es, address)[i], RoleIDs(es, address)[j]);
  }

  lemma MatchOfFullId(c: (bytes, bytes), address: bytes, id: bytes)
    requires |c.0| == ID_LENGTH && |address| == ADDRESS_LENGTH
    ensures Matches(c, address, id) <==> c.0 == id && Fit(c.1) == address
    ensures |c.1| == ADDRESS_LENGTH ==> Fit(c.1) == c.1
  {
    KeyParts(c.1, c.0);
    FullId(c.1, c.0);
    assert KeyOf(c)[..ADDRESS_LENGTH] == Fit(c.1) && KeyOf(c)[ADDRESS_LENGTH..] == c.0;
  }

  /**
   After any calls the scan finds exactly the ids of the matching keys, ascending for an address of full
   length. With 8-byte ids those are the ids created for an address that fits the one asked for, and
   with proper sizes throughout it is the relation of the calls.
   */
  lemma ScanRefinesBinding(calls: seq<(bytes, bytes)>, address: bytes)
    ensures var ids := RoleIDs(CreateAll(calls), address);
            && (forall id :: id in ids <==> exists c :: c in calls && Matches(c, address, id))
            && (|address| >= ADDRESS_LENGTH ==> forall i, j | 0 <= i < j < |ids| :: Less(ids[i], ids[j]))
    ensures |address| == ADDRESS_LENGTH && (forall c | c in calls :: |c.0| == ID_LENGTH) ==>
              forall id :: id in RoleIDs(CreateAll(calls), address) <==>
                           exists c :: c in calls && c.0 == id && Fit(c.1) == address
    ensures |address| == ADDRESS_LENGTH && (forall c | c in calls :: Sized(c.1, c.0)) ==>
              forall id :: id in RoleIDs(CreateAll(calls), address) <==> (id, address) in calls
  {
    var ids := RoleIDs(CreateAll(calls), address);
    forall id ensures id in ids <==> exists c :: c in calls && Matches(c, address, id) {
      ScanFinds(calls, address, id);
    }
    if |address| >= ADDRESS_LENGTH {
      forall i, j | 0 <= i < j < |ids| ensures Less(ids[i], ids[j]) {
        ScanAscends(calls, address, i, j);
      }
    }
    if |address| == ADDRESS_LENGTH && (forall c | c in calls :: |c.0| == ID_LENGTH) {
      forall id ensures id in ids <==> exists c :: c in calls && c.0 == id && Fit(c.1) == address {
        ScanFindsFitting(calls, address, id);
      }
    }
    if |address| == ADDRESS_LENGTH && (forall c | c in calls :: Sized(c.1, c.0)) {
      forall id ensures id in ids <==> (id, address) in calls {
        ScanFindsSized(calls, address, id);
      }
    }
  }

  lemma ScanFinds(calls: seq<(bytes, bytes)>, address: bytes, id: bytes)
    ensures id in RoleIDs(CreateAll(calls), address) <==> exists c :: c in calls && Matches(c, address, id)
  {
    var ids := RoleIDs(CreateAll(calls), address);
    if id in ids {
      var i :| 0 <= i < |ids| && ids[i] == id;
      ScannedIsBound(calls, address, i);
    }
    forall c | c in calls && Matches(c, address, id) ensures id in ids {
      BoundIsScanned(calls, address, c, id);
    }
  }

  lemma ScanFindsFitting(calls: seq<(bytes, bytes)>, address: bytes, id: bytes)
    requires |address| == ADDRESS_LENGTH && forall c | c in calls :: |c.0| == ID_LENGTH
    ensures id in RoleIDs(CreateAll(calls), address) <==> exists c :: c in calls && c.0 == id && Fit(c.1) == address
  {
    ScanFinds(calls, address, id);
    forall c | c in calls ensures Matches(c, address, id) <==> c.0 == id && Fit(c.1) == address {
      MatchOfFullId(c, address, id);
    }
  }

  lemma ScanFindsSized(calls: seq<(bytes, bytes)>, address: bytes, id: bytes)
    requires |address| == ADDRESS_LENGTH && forall c | c in calls :: Sized(c.1, c.0)
    ensures id in RoleIDs(CreateAll(calls), address) <==> (id, address) in calls
  {
    ScanFindsFitting(calls, address, id);
    forall c | c in calls ensures Fit(c.1) == c.1 {
      MatchOfFullId(c, address, id);
    }
  }

  /** With proper sizes: every stored record, key and fields, in terms of the call that stored it. */
  lemma StoredRecords(calls: seq<(bytes, bytes)>, x: Entry)
    requires forall c | c in calls :: Sized(c.1, c.0)
    ensures x in CreateAll(calls) <==>
            exists c :: c in calls
              && x.key == [0x72, 0x6f, 0x6c, 0x65, 0x62, 0x69, 0x6e, 0x64, 0x3a] + c.1 + c.0
              && x.value.metadata == Some(Metadata(1)) && x.value.roleId == c.0 && x.value.signature == c.1
  {
    StoredAreCreated(calls, x);
    forall c | c in calls
      ensures x == EntryOf(c) <==>
              x.key == [0x72, 0x6f, 0x6c, 0x65, 0x62, 0x69, 0x6e, 0x64, 0x3a] + c.1 + c.0
              && x.value.metadata == Some(Metadata(1)) && x.value.roleId == c.0 && x.value.signature == c.1
    {
      RecordOf(c, x);
    }
    forall c | c in calls && x == EntryOf(c) ensures exists k :: LastOf(calls, k) && x == EntryOf(calls[k]) {
      SizedCallIsStored(calls, c);
    }
  }

  lemma RecordOf(c: (bytes, bytes), x: Entry)
    requires Sized(c.1, c.0)
    ensures x == EntryOf(c) <==>
            x.key == [0x72, 0x6f, 0x6c, 0x65, 0x62, 0x69, 0x6e, 0x64, 0x3a] + c.1 + c.0
            && x.value.metadata == Some(Metadata(1)) && x.value.roleId == c.0 && x.value.signature == c.1
  {
    KeyOfSized(c.1, c.0);
    assert BUCKET + (c.1 + c.0) == BUCKET + c.1 + c.0;
  }

  lemma SizedCallIsStored(calls: seq<(bytes, bytes)>, c: (bytes, bytes))
    requires c in calls && forall d | d in calls :: Sized(d.1, d.0)
    ensures exists k :: LastOf(calls, k) && EntryOf(c) == EntryOf(calls[k])
  {
    var k :| 0 <= k < |calls| && calls[k] == c;
    var l := LastWithKey(calls, k);
    SameSizedKey(calls[l], c);
  }

  lemma SameSizedKey(c: (bytes, bytes), d: (bytes, bytes))
    requires Sized(c.1, c.0) && Sized(d.1, d.0) && KeyOf(c) == KeyOf(d)
    ensures c == d
  {
    KeyOfSized(c.1, c.0);
    KeyOfSized(d.1, d.0);
  }
}
