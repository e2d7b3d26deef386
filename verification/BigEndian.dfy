/** Fixed-width big-endian numbers: sequence keys of 8 bytes and frame headers of 4. */
module BigEndian {
  import opened Wire

  function Pow256(k: nat): (r: nat)
    ensures r > 0
  {
    if k == 0 then 1 else 256 * Pow256(k - 1)
  }

  /** The `k` low bytes of `n`, most significant first. */
  function EncBE(n: nat, k: nat): (s: bytes)
    ensures |s| == k
  {
    if k == 0 then [] else EncBE(n / 256, k - 1) + [n % 256]
  }

  function DecBE(s: bytes): nat {
    if s == [] then 0 else 256 * DecBE(s[..|s| - 1]) + s[|s| - 1]
  }

  lemma {:induction false} DecodeOfEncode(n: nat, k: nat)
    requires n < Pow256(k)
    ensures DecBE(EncBE(n, k)) == n
  {
    if k > 0 {
      DecodeOfEncode(n / 256, k - 1);
      assert EncBE(n, k)[..k - 1] == EncBE(n / 256, k - 1);
    }
  }

  lemma {:induction false} EncodeOfDecode(s: bytes)
    ensures DecBE(s) < Pow256(|s|) && EncBE(DecBE(s), |s|) == s
    decreases |s|
  {
    if s != [] {
      var n := DecBE(s[..|s| - 1]);
      EncodeOfDecode(s[..|s| - 1]);
      assert DecBE(s) / 256 == n && DecBE(s) % 256 == s[|s| - 1];
      assert s == s[..|s| - 1] + [s[|s| - 1]];
    }
  }

  lemma {:induction false} DecodesToZero(s: bytes)
    ensures DecBE(s) == 0 <==> forall i | 0 <= i < |s| :: s[i] == 0
    decreases |s|
  {
    if s != [] {
      DecodesToZero(s[..|s| - 1]);
      assert forall i | 0 <= i < |s| - 1 :: s[..|s| - 1][i] == s[i];
    }
  }

  /** The first `c` of `k` bytes are all zero exactly for numbers that fit the other bytes. */
  lemma {:induction false} LeadingZeros(n: nat, k: nat, c: nat)
    requires c <= k && n < Pow256(k)
    ensures DecBE(EncBE(n, k)[..c]) == 0 <==> n < Pow256(k - c)
    decreases k
  {
    if c == k {
      assert EncBE(n, k)[..c] == EncBE(n, k);
      DecodeOfEncode(n, k);
    } else {
      LeadingZeros(n / 256, k - 1, c);
      assert EncBE(n, k)[..c] == EncBE(n / 256, k - 1)[..c];
      assert Pow256(k - c) == 256 * Pow256(k - 1 - c);
    }
  }

  lemma Widths()
    ensures Pow256(4) == TWO_32 && Pow256(8) == TWO_64
  {
    assert Pow256(4) == TWO_32;
  }

  /** Four bytes, the most significant first. */
  lemma FourBytes(n: nat)
    ensures EncBE(n, 4) == [n / 0x100_0000 % 0x100, n / 0x1_0000 % 0x100, n / 0x100 % 0x100, n % 0x100]
  {
    var n1 := n / 0x100;
    var n2 := n1 / 0x100;
    var n3 := n2 / 0x100;
    LastOf(n, 4);
    LastOf(n1, 3);
    LastOf(n2, 2);
    LastOf(n3, 1);
    assert n2 == n / 0x1_0000 && n3 == n / 0x100_0000;
  }

  lemma LastOf(n: nat, k: nat)
    requires k > 0
    ensures EncBE(n, k) == EncBE(n / 0x100, k - 1) + [n % 0x100]
    ensures k == 1 ==> EncBE(n, k) == [n % 0x100]
  {
  }

  // ----- Sequence keys -----

  const SEQUENCE_SIZE := 8

  /** `sequenceID` and `encodeIDKey` */
  function SequenceID(n: uint64): (key: bytes)
    ensures |key| == SEQUENCE_SIZE
  {
    EncBE(n, SEQUENCE_SIZE)
  }

  /** `fromSequence`, which refuses any other length. */
  function FromSequence(b: bytes): Option<nat> {
    if |b| != SEQUENCE_SIZE then None else Some(DecBE(b))
  }

  /** The two conversions are inverse to each other, in both directions. */
  lemma SequenceRoundTrip(n: uint64, b: bytes)
    ensures FromSequence(SequenceID(n)) == Some(n as nat)
    ensures FromSequence(b).Some? <==> |b| == 8
    ensures FromSequence(b).Some? ==> FromSequence(b).value < TWO_64 && SequenceID(FromSequence(b).value) == b
  {
    Widths();
    DecodeOfEncode(n, SEQUENCE_SIZE);
    EncodeOfDecode(b);
  }

  /** Eight bytes: the high half in front of the low half. */
  lemma SequenceBytes(n: uint64)
    ensures SequenceID(n) ==
            [n / 0x100_0000_0000_0000, n / 0x1_0000_0000_0000 % 0x100,
             n / 0x100_0000_0000 % 0x100, n / 0x1_0000_0000 % 0x100,
             n / 0x100_0000 % 0x100, n / 0x1_0000 % 0x100, n / 0x100 % 0x100, n % 0x100]
  {
    FourBytes(n);
    FourBytes(n / 0x1_0000_0000);
    LowFour(n);
    HighParts(n);
  }

  lemma HighParts(n: uint64)
    ensures n / 0x1_0000_0000 / 0x100_0000 % 0x100 == n / 0x100_0000_0000_0000
    ensures n / 0x1_0000_0000 / 0x1_0000 % 0x100 == n / 0x1_0000_0000_0000 % 0x100
    ensures n / 0x1_0000_0000 / 0x100 % 0x100 == n / 0x100_0000_0000 % 0x100
  {
    assert n / 0x1_0000_0000 / 0x100_0000 == n / 0x100_0000_0000_0000;
    assert n / 0x1_0000_0000 / 0x1_0000 == n / 0x1_0000_0000_0000;
    assert n / 0x1_0000_0000 / 0x100 == n / 0x100_0000_0000;
  }

  lemma LowFour(n: nat)
    ensures EncBE(n, 8) == EncBE(n / 0x1_0000_0000, 4) + EncBE(n, 4)
  {
    var h := EncBE(n / 0x1_0000_0000, 4);
    assert EncBE(n / 0x100_0000, 5) == h + [n / 0x100_0000 % 0x100];
    assert EncBE(n / 0x1_0000, 6) == h + [n / 0x100_0000 % 0x100, n / 0x1_0000 % 0x100];
    assert EncBE(n / 0x100, 7) == h + [n / 0x100_0000 % 0x100, n / 0x1_0000 % 0x100, n / 0x100 % 0x100];
    FourBytes(n);
  }
}
