/** The Internet checksum (RFC 1071) and its ones' complement algebra. */
module Checksum {
  import opened Bytes
  import opened Sequences

  /** The longest input whose running u32 sum cannot overflow. */
  const MAX_SUMMED := 131074

  /** Sum of the big-endian 16-bit words of `s`; an odd last byte is the high half of a word. */
  function WordSum(s: seq<Byte>): nat {
    if |s| == 0 then 0
    else if |s| == 1 then s[0] * 256
    else Word(s[0], s[1]) + WordSum(s[2..])
  }

  /** The ones' complement representative of `n`: 0 stays 0, every other number lands in 1..65535. */
  function Rep(n: nat): (r: U16)
    ensures r == 0 <==> n == 0
  {
    if n == 0 then 0 else (n - 1) % 65535 + 1
  }

  function ChecksumOf(s: seq<Byte>): U16 { 65535 - Rep(WordSum(s)) }

  // ----- Rep is the unique representative -----

  /** The only word congruent to `n` that is 0 just when `n` is. */
  lemma RepUnique(n: nat, r: U16, k: int)
    requires n == r + 65535 * k
    requires r == 0 <==> n == 0
    ensures r == Rep(n)
  {}

  lemma RepQuotient(n: nat) returns (k: nat)
    ensures n == Rep(n) + 65535 * k
  {
    k := if n == 0 then 0 else (n - 1) / 65535;
  }

  // ----- Folding -----

  function FoldOnce(n: nat): nat { n % 65536 + n / 65536 }

  lemma FoldKeepsRep(n: nat)
    ensures Rep(FoldOnce(n)) == Rep(n)
  {
    var m := FoldOnce(n);
    var k := RepQuotient(m);
    RepUnique(n, Rep(m), k + n / 65536);
  }

  /** A u32 settles after at most two rounds of folding. */
  lemma TwoFoldsSettle(n: U32)
    ensures FoldOnce(FoldOnce(n)) < 65536
  {
    var q, r := n / 65536, n % 65536;
    assert q + r <= 131070;
    if q + r >= 65536 {
      assert (q + r) / 65536 == 1;
    }
  }

  /** The carry loop and the final complement shared by both checksum routines. */
  method FoldAndComplement(start: U32) returns (c: U16, ghost rounds: nat)
    ensures c == 65535 - Rep(start)
    ensures rounds <= 2
  {
    var sum := start;
    rounds := 0;
    TwoFoldsSettle(start);
    while sum / 65536 != 0
      invariant Rep(sum) == Rep(start)
      invariant rounds == 0 ==> sum == start
      invariant rounds == 1 ==> sum == FoldOnce(start)
      invariant rounds == 2 ==> sum == FoldOnce(FoldOnce(start))
      invariant rounds <= 2
      decreases 2 - rounds
    {
      FoldKeepsRep(sum);
      sum := sum % 65536 + sum / 65536;
      rounds := rounds + 1;
    }
    RepUnique(sum, sum, 0);
    c := 65535 - sum;
  }

  // ----- The word sum -----

  lemma {:induction false} WordSumBound(s: seq<Byte>)
    ensures WordSum(s) <= 65535 * ((|s| + 1) / 2)
    ensures |s| % 2 == 1 ==> WordSum(s) <= 65535 * (|s| / 2) + 65280
  {
    if |s| > 1 {
      WordSumBound(s[2..]);
    }
  }

  lemma {:induction false} WordSumAppend(a: seq<Byte>, b: seq<Byte>)
    requires |a| % 2 == 0
    ensures WordSum(a + b) == WordSum(a) + WordSum(b)
  {
    if |a| == 0 {
      assert a + b == b;
    } else {
      WordSumAppend(a[2..], b);
      assert (a + b)[2..] == a[2..] + b;
    }
  }

  /** The sum after the words before `i` is complete once the word at `i` is added. */
  lemma WordSumStep(s: seq<Byte>, i: nat)
    requires i % 2 == 0 && i + 1 < |s|
    ensures WordSum(s[..i + 2]) == WordSum(s[..i]) + Word(s[i], s[i + 1])
  {
    WordSumAppend(s[..i], s[i..i + 2]);
    assert s[..i + 2] == s[..i] + s[i..i + 2];
    assert WordSum(s[i..i + 2][2..]) == 0;
  }

  /** Past the last whole word there is at most one byte, the high half of a padded word. */
  lemma WordSumTail(s: seq<Byte>, i: nat)
    requires i % 2 == 0 && i <= |s| <= i + 1
    ensures WordSum(s) == WordSum(s[..i]) + if i < |s| then Word(s[i], 0) else 0
  {
    WordSumAppend(s[..i], s[i..]);
    assert s == s[..i] + s[i..];
    assert i < |s| ==> s[i..] == [s[|s| - 1]];
  }

  /** The summing loop; within the bound it never overflows. */
  method SumWords(data: seq<Byte>) returns (sum: U32)
    requires |data| <= MAX_SUMMED
    ensures sum == WordSum(data)
  {
    sum := 0;
    var i := 0;
    while i + 1 < |data|
      invariant i % 2 == 0 && i <= |data|
      invariant sum == WordSum(data[..i])
    {
      WordSumStep(data, i);
      WordSumBound(data[..i + 2]);
      sum := sum + Word(data[i], data[i + 1]);
      i := i + 2;
    }
    WordSumBound(data);
    WordSumTail(data, i);
    if i < |data| {
      var high: nat := data[i];
      sum := sum + high * 256;
    }
  }

  method Checksum(data: seq<Byte>) returns (c: U16)
    requires |data| <= MAX_SUMMED
    ensures c == ChecksumOf(data)
  {
    var sum := SumWords(data);
    ghost var rounds;
    c, rounds := FoldAndComplement(sum);
  }

  function Ones(n: nat): (s: seq<Byte>)
    ensures |s| == n
  {
    if n == 0 then [] else if n == 1 then [255] else [255, 255] + Ones(n - 2)
  }

  lemma {:induction false} WordSumOnes(n: nat)
    ensures WordSum(Ones(n)) == 65535 * (n / 2) + (n % 2) * 65280
  {
    if n > 1 {
      WordSumOnes(n - 2);
      assert Ones(n)[2..] == Ones(n - 2);
    }
  }

  ghost predicate NeverOverflows(n: nat) {
    forall s: seq<Byte> :: |s| == n ==> WordSum(s) < 0x1_0000_0000
  }

  /** The bound on the u32 accumulator is exact: 131074 bytes are always safe, 131075 are not. */
  lemma NoOverflowExactly(n: nat)
    ensures NeverOverflows(n) <==> n <= MAX_SUMMED
  {
    if n <= MAX_SUMMED {
      forall s: seq<Byte> | |s| == n ensures WordSum(s) < 0x1_0000_0000 {
        WordSumBound(s);
      }
    } else {
      WordSumOnes(n);
      assert |Ones(n)| == n && WordSum(Ones(n)) >= 0x1_0000_0000;
    }
  }

  // ----- Order of words (RFC 1071 section 2 (A)) -----

  function Words(s: seq<Byte>): seq<U16> {
    if |s| == 0 then []
    else if |s| == 1 then [Word(s[0], 0)]
    else [Word(s[0], s[1])] + Words(s[2..])
  }

  function Total(ws: seq<U16>): nat {
    if |ws| == 0 then 0 else ws[0] + Total(ws[1..])
  }

  lemma {:induction false} WordSumIsTotal(s: seq<Byte>)
    ensures WordSum(s) == Total(Words(s))
  {
    if |s| > 1 {
      WordSumIsTotal(s[2..]);
      assert Words(s)[1..] == Words(s[2..]);
    }
  }

  lemma {:induction false} TotalRemove(ws: seq<U16>, i: nat)
    requires i < |ws|
    ensures Total(ws) == ws[i] + Total(ws[..i] + ws[i + 1..])
  {
    if i == 0 {
      assert ws[..0] + ws[1..] == ws[1..];
    } else {
      TotalRemove(ws[1..], i - 1);
      assert (ws[..i] + ws[i + 1..])[1..] == ws[1..][..i - 1] + ws[1..][i..];
    }
  }

  lemma {:induction false} TotalOfMultiset(a: seq<U16>, b: seq<U16>)
    requires multiset(a) == multiset(b)
    ensures Total(a) == Total(b)
    decreases |a|
  {
    if |a| == 0 {
      assert |b| == |multiset(b)| == 0;
    } else {
      var i := MatchFirst(a, b);
      TotalRemove(b, i);
      TotalOfMultiset(a[1..], b[..i] + b[i + 1..]);
    }
  }

  /** Summing the 16-bit words in another order gives the same checksum. */
  lemma ChecksumIgnoresWordOrder(a: seq<Byte>, b: seq<Byte>)
    requires multiset(Words(a)) == multiset(Words(b))
    ensures ChecksumOf(a) == ChecksumOf(b)
  {
    WordSumIsTotal(a);
    WordSumIsTotal(b);
    TotalOfMultiset(Words(a), Words(b));
  }

  /** Partial sums over even splits combine (RFC 1071 section 2 (A), parallel summation). */
  lemma ChecksumSplits(a: seq<Byte>, b: seq<Byte>)
    requires |a| % 2 == 0
    ensures 65535 - ChecksumOf(a + b) == Rep((65535 - ChecksumOf(a)) + (65535 - ChecksumOf(b)))
  {
    WordSumAppend(a, b);
    var j := RepQuotient(WordSum(a));
    var k := RepQuotient(WordSum(b));
    var n := Rep(WordSum(a)) + Rep(WordSum(b));
    var m := RepQuotient(n);
    RepUnique(WordSum(a + b), Rep(n), m + j + k);
  }

  // ----- Byte order (RFC 1071 section 2 (B)) -----

  function SwapPairs(s: seq<Byte>): (t: seq<Byte>)
    requires |s| % 2 == 0
    ensures |t| == |s|
  {
    if |s| == 0 then [] else [s[1], s[0]] + SwapPairs(s[2..])
  }

  function SwapBytes(w: U16): U16 { w % 256 * 256 + w / 256 }

  function HighSum(s: seq<Byte>): nat
    requires |s| % 2 == 0
  {
    if |s| == 0 then 0 else s[0] + HighSum(s[2..])
  }

  lemma {:induction false} SwapPairsSum(s: seq<Byte>)
    requires |s| % 2 == 0
    ensures 256 * WordSum(s) == WordSum(SwapPairs(s)) + 65535 * HighSum(s)
    ensures WordSum(s) == 0 <==> WordSum(SwapPairs(s)) == 0
  {
    if |s| > 0 {
      SwapPairsSum(s[2..]);
      assert SwapPairs(s)[2..] == SwapPairs(s[2..]);
    }
  }

  /** Swapping the bytes of a word multiplies it by 256 modulo 65535. */
  lemma SwapBytesIsTimes256(w: U16)
    ensures 256 * w == SwapBytes(w) + 65535 * (w / 256)
    ensures SwapBytes(w) == 0 <==> w == 0
    ensures SwapBytes(65535 - w) == 65535 - SwapBytes(w)
  {}

  lemma RepOfSwapped(n: nat, m: nat, high: nat)
    requires 256 * n == m + 65535 * high
    requires n == 0 <==> m == 0
    ensures Rep(m) == SwapBytes(Rep(n))
  {
    var k := RepQuotient(n);
    SwapBytesIsTimes256(Rep(n));
    RepUnique(m, SwapBytes(Rep(n)), Rep(n) / 256 + 256 * k - high);
  }

  /** The checksum of byte-swapped data is the byte-swapped checksum. */
  lemma ChecksumCommutesWithSwap(s: seq<Byte>)
    requires |s| % 2 == 0
    ensures ChecksumOf(SwapPairs(s)) == SwapBytes(ChecksumOf(s))
  {
    SwapPairsSum(s);
    RepOfSwapped(WordSum(s), WordSum(SwapPairs(s)), HighSum(s));
    SwapBytesIsTimes256(Rep(WordSum(s)));
  }

  lemma {:induction false} WordSumZero(s: seq<Byte>)
    ensures WordSum(s) == 0 <==> forall i :: 0 <= i < |s| ==> s[i] == 0
  {
    if |s| > 1 {
      WordSumZero(s[2..]);
      assert forall i :: 2 <= i < |s| ==> s[i] == s[2..][i - 2];
      if WordSum(s) != 0 && s[0] == 0 && s[1] == 0 {
        var i :| 0 <= i < |s[2..]| && s[2..][i] != 0;
        assert s[i + 2] != 0;
      }
    }
  }

  /** 0xffff is returned exactly for all-zero data. */
  lemma ChecksumAllOnesExactly(s: seq<Byte>)
    ensures ChecksumOf(s) == 65535 <==> forall i :: 0 <= i < |s| ==> s[i] == 0
  {
    WordSumZero(s);
  }

  // ----- The check a receiver makes (RFC 1071 section 1) -----

  lemma WordSumAround(s: seq<Byte>, k: nat)
    requires k % 2 == 0 && k + 2 <= |s|
    ensures WordSum(s) == WordSum(s[..k]) + Field(s, k) + WordSum(s[k + 2..])
  {
    WordSumStep(s, k);
    WordSumAppend(s[..k + 2], s[k + 2..]);
    assert s == s[..k + 2] + s[k + 2..];
  }

  /** Sequences that differ at most in the word at `k` have sums that differ by that word. */
  lemma WordSumReplace(z: seq<Byte>, q: seq<Byte>, k: nat)
    requires k % 2 == 0 && k + 2 <= |z| == |q|
    requires z[..k] == q[..k] && z[k + 2..] == q[k + 2..]
    ensures WordSum(q) + Field(z, k) == WordSum(z) + Field(q, k)
  {
    WordSumAround(z, k);
    WordSumAround(q, k);
  }

  lemma RepIsTopExactly(n: nat, f: U16)
    requires n > 0
    ensures Rep(n + f) == 65535 <==> Rep(n) + f == 65535 || Rep(n) + f == 131070
  {
    var k := RepQuotient(n);
    var t := Rep(n) + f;
    if t <= 65535 {
      RepUnique(n + f, t, k);
    } else {
      RepUnique(n + f, t - 65535, k + 1);
    }
  }

  /**
   * `s` and `z` agree except in the word at `k`, which is 0 in `z`. Then `s` verifies (its checksum
   * is 0) exactly when that word holds the checksum of `z`, or the other representation of zero.
   */
  lemma VerifiesExactly(s: seq<Byte>, z: seq<Byte>, k: nat)
    requires k % 2 == 0 && k + 2 <= |z| == |s|
    requires z[..k] == s[..k] && z[k + 2..] == s[k + 2..] && Field(z, k) == 0
    requires WordSum(z) > 0
    ensures ChecksumOf(s) == 0 <==>
              Field(s, k) == ChecksumOf(z) || (ChecksumOf(z) == 0 && Field(s, k) == 65535)
  {
    WordSumReplace(z, s, k);
    RepIsTopExactly(WordSum(z), Field(s, k));
  }
}
