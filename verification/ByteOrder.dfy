/** The order of `bytes.Compare`, and sorting by it. */
module ByteOrder {
  import opened Wire

  /** `bytes.Compare(a, b) < 0` */
  predicate Less(a: bytes, b: bytes)
    decreases |b|
  {
    b != [] && (a == [] || a[0] < b[0] || (a[0] == b[0] && Less(a[1..], b[1..])))
  }

  lemma {:induction false} LessIsIrreflexive(a: bytes)
    ensures !Less(a, a)
    decreases |a|
  {
    if a != [] {
      LessIsIrreflexive(a[1..]);
    }
  }

  lemma {:induction false} LessIsStrict(a: bytes, b: bytes)
    ensures !(Less(a, b) && Less(b, a)) && !Less(a, a)
    ensures a == b || Less(a, b) || Less(b, a)
    decreases |a| + |b|
  {
    LessIsIrreflexive(a);
    if a != [] && b != [] {
      LessIsStrict(a[1..], b[1..]);
      assert a == [a[0]] + a[1..] && b == [b[0]] + b[1..];
    }
  }

  lemma {:induction false} LessIsTransitive(a: bytes, b: bytes, c: bytes)
    requires Less(a, b) && Less(b, c)
    ensures Less(a, c)
    decreases |a|
  {
    if a != [] && b != [] && c != [] && a[0] == b[0] == c[0] {
      LessIsTransitive(a[1..], b[1..], c[1..]);
    }
  }

  /** A common prefix does not matter. */
  lemma {:induction false} LessAfterPrefix(p: bytes, a: bytes, b: bytes)
    ensures Less(p + a, p + b) <==> Less(a, b)
    decreases |p|
  {
    if p == [] {
      assert p + a == a && p + b == b;
    } else {
      assert (p + a)[1..] == p[1..] + a && (p + b)[1..] == p[1..] + b;
      LessAfterPrefix(p[1..], a, b);
    }
  }

  /** The lexicographic order: a proper prefix, or a smaller byte at the first difference. */
  lemma {:induction false} LessIsLexicographic(a: bytes, b: bytes)
    ensures Less(a, b) <==>
            exists k :: 0 <= k <= |a| && k < |b| && a[..k] == b[..k] && (k == |a| || a[k] < b[k])
    decreases |a|
  {
    if a == [] || b == [] {
      if b != [] { assert a[..0] == b[..0]; }
    } else if a[0] != b[0] {
      assert a[..0] == b[..0];
      forall k | 0 < k <= |a| && k < |b| ensures a[..k] != b[..k] {
        assert a[..k][0] != b[..k][0];
      }
    } else {
      LessIsLexicographic(a[1..], b[1..]);
      forall k | 0 <= k < |a| && k + 1 < |b|
        ensures a[1..][..k] == b[1..][..k] <==> a[..k + 1] == b[..k + 1]
      {
        assert a[..k + 1] == [a[0]] + a[1..][..k] && b[..k + 1] == [b[0]] + b[1..][..k];
        assert a[1..][..k] == a[..k + 1][1..] && b[1..][..k] == b[..k + 1][1..];
      }
      if Less(a, b) {
        var k :| 0 <= k <= |a[1..]| && k < |b[1..]| && a[1..][..k] == b[1..][..k] && (k == |a[1..]| || a[1..][k] < b[1..][k]);
        assert a[..k + 1] == b[..k + 1];
      }
      forall k | 0 <= k <= |a| && k < |b| && a[..k] == b[..k] && (k == |a| || a[k] < b[k]) ensures Less(a, b) {
        assert k > 0;
        assert a[1..][..k - 1] == b[1..][..k - 1];
      }
    }
  }

  ghost predicate Sorted(s: seq<bytes>) {
    forall i, j | 0 <= i < j < |s| :: !Less(s[j], s[i])
  }

  function Insert(x: bytes, s: seq<bytes>): (r: seq<bytes>)
    decreases |s|
  {
    if s == [] || Less(x, s[0]) then [x] + s else [s[0]] + Insert(x, s[1..])
  }

  /** `sort.Slice` with that order. */
  function Sort(s: seq<bytes>): seq<bytes>
    decreases |s|
  {
    if s == [] then [] else Insert(s[0], Sort(s[1..]))
  }

  lemma {:induction false} InsertAdds(x: bytes, s: seq<bytes>)
    ensures multiset(Insert(x, s)) == multiset(s) + multiset{x}
    decreases |s|
  {
    if s != [] && !Less(x, s[0]) {
      InsertAdds(x, s[1..]);
      assert s == [s[0]] + s[1..];
    }
  }

  lemma {:induction false} InsertSorts(x: bytes, s: seq<bytes>)
    requires Sorted(s)
    ensures Sorted(Insert(x, s))
    decreases |s|
  {
    if s == [] {
    } else if Less(x, s[0]) {
      LessIsIrreflexive(s[0]);
      forall j | 0 <= j < |s| ensures !Less(s[j], x) {
        if Less(s[j], x) {
          LessIsTransitive(s[j], x, s[0]);
        }
      }
    } else {
      var r := Insert(x, s[1..]);
      InsertSorts(x, s[1..]);
      forall j | 0 <= j < |r| ensures !Less(r[j], s[0]) {
        InsertAdds(x, s[1..]);
        assert r[j] in multiset(r);
        assert r[j] == x || r[j] in s[1..];
      }
    }
  }

  lemma {:induction false} SortSorts(s: seq<bytes>)
    ensures Sorted(Sort(s)) && multiset(Sort(s)) == multiset(s)
    decreases |s|
  {
    if s != [] {
      SortSorts(s[1..]);
      InsertSorts(s[0], Sort(s[1..]));
      InsertAdds(s[0], Sort(s[1..]));
      assert s == [s[0]] + s[1..];
    }
  }

  /** There is one sorted arrangement of a multiset. */
  lemma {:induction false} SortedIsUnique(a: seq<bytes>, b: seq<bytes>)
    requires Sorted(a) && Sorted(b) && multiset(a) == multiset(b)
    ensures a == b
    decreases |a|
  {
    if a == [] {
      assert |multiset(b)| == 0;
    } else {
      assert a[0] in multiset(b) && |multiset(a)| == |multiset(b)|;
      assert b[0] in multiset(a);
      LessIsStrict(a[0], b[0]);
      assert a == [a[0]] + a[1..] && b == [b[0]] + b[1..];
      assert multiset(a[1..]) == multiset(a) - multiset{a[0]};
      SortedIsUnique(a[1..], b[1..]);
    }
  }
}
