/** The Internet checksum (RFC 1071) and its incremental update
    (equation 3 of RFC 1624), as computed by `src/nat/checksum.rs`. */
module Checksum {
  import opened Types

  /** Sum of `data` read as big-endian 16-bit words, front to back; an odd
      trailing byte is the high byte of a word padded with a zero byte. */
  function WordSum(data: seq<byte>): nat
  {
    if |data| == 0 then 0
    else if |data| == 1 then data[0] as int * 256
    else Be16(data[0], data[1]) + WordSum(data[2..])
  }

  /** The end-around-carry fold `while sum >> 16 != 0 { sum = (sum & 0xFFFF)
      + (sum >> 16) }`: the one's-complement value of `sum` in 16 bits, so
      the loop ends with a value of at most 0xFFFF. */
  function Fold(sum: nat): (r: nat)
    ensures r <= 0xFFFF
    decreases sum
  {
    if sum < 0x1_0000 then sum
    else
      FoldStep(sum);
      Fold(sum % 0x1_0000 + sum / 0x1_0000)
  }

  /** The folded value is congruent to `sum` modulo 0xFFFF, and 0 only when
      `sum` is 0. */
  lemma {:induction false} FoldSpec(sum: nat)
    ensures Fold(sum) % 0xFFFF == sum % 0xFFFF
    ensures Fold(sum) == 0 <==> sum == 0
    decreases sum
  {
    if sum >= 0x1_0000 {
      FoldStep(sum);
      FoldSpec(sum % 0x1_0000 + sum / 0x1_0000);
    }
  }

  /** One folding step keeps the residue modulo 0xFFFF, stays positive and
      makes progress. */
  lemma FoldStep(sum: nat)
    requires sum >= 0x1_0000
    ensures 0 < sum % 0x1_0000 + sum / 0x1_0000 < sum
    ensures (sum % 0x1_0000 + sum / 0x1_0000) % 0xFFFF == sum % 0xFFFF
  {
    var q, r := sum / 0x1_0000, sum % 0x1_0000;
    assert sum == 0xFFFF * q + (q + r);
    ModAddMultiple(q + r, q);
  }

  lemma ModAddMultiple(x: nat, q: nat)
    ensures (0xFFFF * q + x) % 0xFFFF == x % 0xFFFF
  {
    if q > 0 {
      ModAddMultiple(x, q - 1);
      assert 0xFFFF * q + x == (0xFFFF * (q - 1) + x) + 0xFFFF;
    }
  }

  /** The checksum of RFC 1071: the 16-bit complement of the folded word sum. */
  function InternetChecksum(data: seq<byte>): u16
  {
    0xFFFF - Fold(WordSum(data))
  }

  /** Equation 3 of RFC 1624: ~HC' = ~HC + ~m + m', folded with end-around
      carry. */
  function IncrementalUpdate(hc: u16, m: u16, m': u16): u16
  {
    0xFFFF - Fold((0xFFFF - hc) + (0xFFFF - m) + m')
  }

  /** The longest region whose word sum provably stays within a `u32`
      accumulator (65536 words of at most 0xFFFF each). */
  const MAX_SUMMED_LEN: nat := 0x2_0000

  /** `ip_checksum`: sums 2-byte chunks into a `u32`, folds the carries and
      complements. The accumulator never leaves the `u32` range. */
  method IpChecksum(data: seq<byte>) returns (r: u16)
    requires |data| <= MAX_SUMMED_LEN
    ensures r == InternetChecksum(data)
  {
    var sum: u32 := 0;
    var i := 0;
    while i < |data|
      invariant 0 <= i <= |data|
      invariant i % 2 == 0 || i == |data|
      invariant sum + WordSum(data[i..]) == WordSum(data)
      invariant sum <= (i + 1) / 2 * 0xFFFF
    {
      var word: u16;
      if i + 1 < |data| {
        word := Be16(data[i], data[i + 1]);
        assert data[i..][2..] == data[i + 2..];
      } else {
        word := data[i] as int * 256;
      }
      sum := sum + word;
      i := if i + 2 <= |data| then i + 2 else |data|;
    }
    assert data[i..] == [];
    sum := FoldLoop(sum);
    r := 0xFFFF - sum;
  }

  /** The carry-fold loop shared by both checksum routines. */
  method FoldLoop(sum0: u32) returns (sum: u32)
    ensures sum == Fold(sum0)
  {
    sum := sum0;
    while sum >= 0x1_0000
      invariant Fold(sum) == Fold(sum0)
      decreases sum
    {
      FoldStep(sum);
      sum := sum % 0x1_0000 + sum / 0x1_0000;
    }
  }

  /** `update_checksum`: the accumulator starts at ~HC, adds ~m and m', and so
      never exceeds 3 * 0xFFFF before the fold. */
  method UpdateChecksum(oldSum: u16, oldVal: u16, newVal: u16) returns (r: u16)
    ensures r == IncrementalUpdate(oldSum, oldVal, newVal)
  {
    var sum: u32 := 0xFFFF - oldSum;
    sum := sum + (0xFFFF - oldVal);
    sum := sum + newVal;
    assert sum <= 3 * 0xFFFF;
    sum := FoldLoop(sum);
    r := 0xFFFF - sum;
  }

  /** Replacing the aligned word at `k` changes the word sum by exactly the
      difference between the new and the old word. */
  lemma {:induction false} WordSumReplace(b: seq<byte>, k: nat, v: u16)
    requires k % 2 == 0 && k + 1 < |b|
    ensures WordSum(Put16(b, k, v)) == WordSum(b) - WordAt(b, k) + v
    decreases k
  {
    var b' := Put16(b, k, v);
    if k == 0 {
      assert b'[2..] == b[2..];
    } else {
      assert b'[2..] == Put16(b[2..], k - 2, v);
      WordSumReplace(b[2..], k - 2, v);
    }
  }

  /** Two sums with the same residue modulo 0xFFFF that are both zero or both
      non-zero fold to the same value. */
  lemma FoldDeterminedByResidue(a: nat, b: nat)
    requires a % 0xFFFF == b % 0xFFFF
    requires a == 0 <==> b == 0
    ensures Fold(a) == Fold(b)
  {
    FoldSpec(a);
    FoldSpec(b);
    SameResidueInRange(Fold(a), Fold(b));
  }

  /** In 0..0xFFFF a residue modulo 0xFFFF names one value, except that 0
      and 0xFFFF share one; the zero test tells those two apart. */
  lemma SameResidueInRange(x: nat, y: nat)
    requires x <= 0xFFFF && y <= 0xFFFF
    requires x % 0xFFFF == y % 0xFFFF && (x == 0 <==> y == 0)
    ensures x == y
  {
    if x != 0 && x != 0xFFFF && y != 0 && y != 0xFFFF {
      assert x % 0xFFFF == x && y % 0xFFFF == y;
    }
  }

  /** A positive multiple of 0xFFFF folds to 0xFFFF (negative zero). */
  lemma FoldOfMultiple(x: nat)
    requires x > 0 && x % 0xFFFF == 0
    ensures Fold(x) == 0xFFFF
  {
    FoldSpec(x);
    var f := Fold(x);
    assert 0 < f <= 0xFFFF && f % 0xFFFF == 0;
  }

  /** `Fold(s)` differs from `s` by a multiple of 0xFFFF. */
  lemma FoldDifference(s: nat)
    ensures Fold(s) <= s
    ensures (s - Fold(s)) % 0xFFFF == 0
  {
    FoldSpec(s);
    var f := Fold(s);
    if s < 0x1_0000 {
      assert f == s;
    } else {
      assert f <= 0xFFFF < s;
      var qs, qf := s / 0xFFFF, f / 0xFFFF;
      assert s == 0xFFFF * qs + s % 0xFFFF;
      assert f == 0xFFFF * qf + f % 0xFFFF;
      assert s - f == 0xFFFF * (qs - qf);
      ModAddMultiple(0, qs - qf);
    }
  }

  /** Self-check arithmetic: a sum plus the complement of its fold is a
      positive multiple of 0xFFFF. */
  lemma SumPlusComplement(s: nat)
    ensures s + (0xFFFF - Fold(s)) > 0
    ensures (s + (0xFFFF - Fold(s))) % 0xFFFF == 0
  {
    FoldDifference(s);
    var d := s - Fold(s);
    assert s + (0xFFFF - Fold(s)) == 0xFFFF * 1 + d;
    ModAddMultiple(d, 1);
  }

  /** Self-check, the way the IPv4 header checksum is refreshed: with the
      checksum word zeroed, storing the computed checksum there makes the
      checksum of the whole region 0. */
  lemma SelfCheck(b: seq<byte>, k: nat)
    requires k % 2 == 0 && k + 1 < |b|
    requires b[k] == 0 && b[k + 1] == 0
    ensures InternetChecksum(Put16(b, k, InternetChecksum(b))) == 0
  {
    var c := InternetChecksum(b);
    WordSumReplace(b, k, c);
    assert WordAt(b, k) == 0;
    SumPlusComplement(WordSum(b));
    FoldOfMultiple(WordSum(Put16(b, k, c)));
  }

  /** Incremental-update arithmetic: the accumulator of equation 3 and the new
      word sum differ by a multiple of 0xFFFF, and the accumulator is never
      0 when the old word is part of the old sum. */
  lemma AccumulatorCongruent(s: nat, m: u16, m': u16)
    requires m <= s
    ensures Fold(s) + (0xFFFF - m) + m' > 0
    ensures (Fold(s) + (0xFFFF - m) + m') % 0xFFFF == (s - m + m') % 0xFFFF
  {
    FoldDifference(s);
    FoldSpec(s);
    var d := s - Fold(s);
    var acc := Fold(s) + (0xFFFF - m) + m';
    assert s == 0 ==> Fold(s) == 0;
    assert acc + d == 0xFFFF + (s - m + m');
    var t := d / 0xFFFF;
    assert d == 0xFFFF * t;
    ModAddMultiple(acc, t);
    ModAddMultiple(s - m + m', 1);
  }

  /** Equation 3 on sums: updating the checksum of a sum `s` that contains
      the word `m` gives the checksum of `s - m + m'`, up to the sign of zero. */
  lemma IncrementalOnSums(s: nat, m: u16, m': u16)
    requires m <= s
    ensures s - m + m' != 0 ==>
      IncrementalUpdate(0xFFFF - Fold(s), m, m') == 0xFFFF - Fold(s - m + m')
    ensures s - m + m' == 0 ==> IncrementalUpdate(0xFFFF - Fold(s), m, m') == 0
  {
    var acc := Fold(s) + (0xFFFF - m) + m';
    AccumulatorCongruent(s, m, m');
    if s - m + m' != 0 {
      FoldDeterminedByResidue(acc, s - m + m');
    } else {
      FoldOfMultiple(acc);
    }
  }

  /** Incremental equivalence (RFC 1624): replacing one aligned word `m` by
      `m'` in a region whose checksum is HC, the update of HC agrees with the
      checksum recomputed from scratch, except when the new region's word sum
      is 0, where the update yields 0x0000 and the full computation 0xFFFF. */
  lemma IncrementalEquivalence(b: seq<byte>, k: nat, m': u16)
    requires k % 2 == 0 && k + 1 < |b|
    ensures var b' := Put16(b, k, m');
      var inc := IncrementalUpdate(InternetChecksum(b), WordAt(b, k), m');
      (WordSum(b') != 0 ==> inc == InternetChecksum(b')) &&
      (WordSum(b') == 0 ==> inc == 0 && InternetChecksum(b') == 0xFFFF)
  {
    var s, m := WordSum(b), WordAt(b, k);
    WordSumReplace(b, k, m');
    WordSumBoundsWord(b, k);
    EquivalenceOnSums(InternetChecksum(b), s, m, m', WordSum(Put16(b, k, m')));
  }

  /** Equation 3 with the sums named: `hc` is the checksum of sum `s`, and
      `s'` is `s` with the word `m` replaced by `m'`. */
  lemma EquivalenceOnSums(hc: u16, s: nat, m: u16, m': u16, s': nat)
    requires hc == 0xFFFF - Fold(s) && m <= s && s' == s - m + m'
    ensures s' != 0 ==> IncrementalUpdate(hc, m, m') == 0xFFFF - Fold(s')
    ensures s' == 0 ==> IncrementalUpdate(hc, m, m') == 0 && 0xFFFF - Fold(s') == 0xFFFF
  {
    IncrementalOnSums(s, m, m');
  }

  /** Every aligned word is part of the sum. */
  lemma {:induction false} WordSumBoundsWord(b: seq<byte>, k: nat)
    requires k % 2 == 0 && k + 1 < |b|
    ensures WordAt(b, k) <= WordSum(b)
    decreases k
  {
    if k > 0 {
      assert WordAt(b[2..], k - 2) == WordAt(b, k);
      WordSumBoundsWord(b[2..], k - 2);
    }
  }

  /** Updating a checksum for a word that did not change leaves it alone,
      except that 0xFFFF becomes 0x0000; this is why the rewrite may skip
      unchanged words. */
  lemma UpdateUnchanged(hc: u16, v: u16)
    ensures IncrementalUpdate(hc, v, v) == if hc == 0xFFFF then 0 else hc
  {
    var acc := (0xFFFF - hc) + (0xFFFF - v) + v;
    if hc != 0xFFFF {
      FoldStep(acc);
      assert acc % 0x1_0000 + acc / 0x1_0000 == 0xFFFF - hc;
      assert Fold(acc) == Fold(0xFFFF - hc) == 0xFFFF - hc;
    }
  }

  /** A region with a non-zero byte has a non-zero word sum. */
  lemma {:induction false} WordSumPositive(b: seq<byte>, j: nat)
    requires j < |b| && b[j] != 0
    ensures WordSum(b) > 0
    decreases j
  {
    if j >= 2 {
      WordSumPositive(b[2..], j - 2);
    }
  }
}
