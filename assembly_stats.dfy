/**
 * Assembly statistics of genome_analyzer.py's `compute_stats`: total length,
 * contig count, N50, L90 and GC percentage of the records of one assembly.
 * FASTA parsing is outside the model: an assembly is given as the sequence
 * of its records' residue strings, in file order.
 */
module AssemblyStats {
  import opened Lengths

  /** ASCII upper-casing, as `Seq.upper()` does on a record's byte data. */
  function Upper(c: char): char
  {
    if 'a' <= c <= 'z' then (c as int - 32) as char else c
  }

  function UpperSeq(s: string): string
  {
    seq(|s|, i requires 0 <= i < |s| => Upper(s[i]))
  }

  /** `s.count(c)` for a one-character pattern. */
  function Count(s: string, c: char): nat
  {
    if s == [] then 0 else Count(s[..|s| - 1], c) + (if s[|s| - 1] == c then 1 else 0)
  }

  /** G/C count of one record as the source computes it: upper-case, then count "G" and "C". */
  function GCOf(s: string): nat
  {
    Count(UpperSeq(s), 'G') + Count(UpperSeq(s), 'C')
  }

  predicate IsGCLetter(c: char)
  {
    c == 'G' || c == 'g' || c == 'C' || c == 'c'
  }

  /** Number of residues that are g or c in either case. */
  function GCLetters(s: string): nat
  {
    if s == [] then 0 else GCLetters(s[..|s| - 1]) + (if IsGCLetter(s[|s| - 1]) then 1 else 0)
  }

  /** Upper-casing then counting is case-insensitive counting of g/c, and never exceeds the length. */
  lemma {:induction false} GCOfIsCaseInsensitive(s: string)
    ensures GCOf(s) == GCLetters(s)
    ensures GCLetters(s) <= |s|
  {
    if s != [] {
      var p := s[..|s| - 1];
      GCOfIsCaseInsensitive(p);
      assert UpperSeq(s)[..|s| - 1] == UpperSeq(p);
      assert UpperSeq(s)[|s| - 1] == Upper(s[|s| - 1]);
    }
  }

  lemma {:induction false} GCLettersAppend(a: string, b: string)
    ensures GCLetters(a + b) == GCLetters(a) + GCLetters(b)
    decreases |b|
  {
    if b == [] {
      assert a + b == a;
    } else {
      assert (a + b)[..|a + b| - 1] == a + b[..|b| - 1];
      GCLettersAppend(a, b[..|b| - 1]);
    }
  }

  /** The length of every record, in input order (the source's `lengths` before sorting). */
  function LengthsOf(records: seq<string>): seq<nat>
  {
    seq(|records|, i requires 0 <= i < |records| => |records[i]|)
  }

  /** The accumulated `gc_count` over the records. */
  function TotalGC(records: seq<string>): nat
  {
    if records == [] then 0 else TotalGC(records[..|records| - 1]) + GCOf(records[|records| - 1])
  }

  /** All records' residues one after another. */
  function Concat(records: seq<string>): string
  {
    if records == [] then [] else Concat(records[..|records| - 1]) + records[|records| - 1]
  }

  /** GC% before rounding: 0 when there are no bases. */
  function GCPercent(gc: nat, total: nat): real
  {
    if total > 0 then (gc as real / total as real) * 100.0 else 0.0
  }

  /**
   * The first `k` entries of `s` reach the fraction `num/den` of the whole,
   * compared in integers (`cumulative >= total * num / den`).
   */
  predicate Covers(s: seq<nat>, k: nat, num: nat, den: nat)
    requires k <= |s|
  {
    den * Sum(s[..k]) >= num * Sum(s)
  }

  /**
   * The number of leading entries of `s` whose cumulative sum first reaches
   * the fraction `num/den` of the whole, tested as the source's loops do:
   * add the next entry, then compare.
   */
  function FirstCover(s: seq<nat>, num: nat, den: nat): (k: nat)
    requires s != [] && num <= den
    ensures 1 <= k <= |s|
    ensures Covers(s, k, num, den)
    ensures forall j :: 1 <= j < k ==> !Covers(s, j, num, den)
  {
    CoverFrom(s, num, den, 1)
  }

  function CoverFrom(s: seq<nat>, num: nat, den: nat, k: nat): (r: nat)
    requires 1 <= k <= |s| && num <= den
    requires forall j :: 1 <= j < k ==> !Covers(s, j, num, den)
    ensures k <= r <= |s|
    ensures Covers(s, r, num, den)
    ensures forall j :: 1 <= j < r ==> !Covers(s, j, num, den)
    decreases |s| - k
  {
    if Covers(s, k, num, den) then k
    else
      WholeCovers(s, num, den);
      CoverFrom(s, num, den, k + 1)
  }

  /** All entries together always reach any fraction up to one. */
  lemma WholeCovers(s: seq<nat>, num: nat, den: nat)
    requires num <= den
    ensures Covers(s, |s|, num, den)
  {
    assert s[..|s|] == s;
    assert (den - num) * Sum(s) >= 0;
  }

  /** The first prefix to reach the fraction is the one `FirstCover` names. */
  lemma FirstCoverIs(s: seq<nat>, num: nat, den: nat, k: nat)
    requires s != [] && num <= den && 1 <= k <= |s|
    requires Covers(s, k, num, den)
    requires forall j :: 1 <= j < k ==> !Covers(s, j, num, den)
    ensures FirstCover(s, num, den) == k
  {
  }

  /** How one more record extends what the first loop of `compute_stats` has collected. */
  lemma {:induction false} RecordStep(records: seq<string>, i: nat)
    requires i < |records|
    ensures LengthsOf(records[..i + 1]) == LengthsOf(records[..i]) + [|UpperSeq(records[i])|]
    ensures TotalGC(records[..i + 1]) == TotalGC(records[..i]) + GCOf(records[i])
  {
    assert records[..i + 1][..i] == records[..i];
  }

  /** N50 of a non-empty multiset of lengths: the length at the first half cover in descending order. */
  function N50Of(lengths: seq<nat>): nat
    requires lengths != []
  {
    var sorted := SortDescending(lengths);
    sorted[FirstCover(sorted, 1, 2) - 1]
  }

  /** L90 of a non-empty multiset of lengths: how many, longest first, reach 90%. */
  function L90Of(lengths: seq<nat>): nat
    requires lengths != []
  {
    FirstCover(SortDescending(lengths), 9, 10)
  }

  datatype Stats = Stats(totalLength: nat, numContigs: nat, n50: nat, l90: nat, gcPercent: real)

  /**
   * What `compute_stats` returns for `records`, before GC% is rounded.
   * N50 is the length at which the descending cumulative sum first reaches
   * half the total (`cumulative >= total_bases / 2`, i.e. `2 * cumulative >= total`);
   * L90 is the number of lengths taken when it first reaches 90% of it
   * (`cumulative >= total_bases * 0.9`, i.e. `10 * cumulative >= 9 * total`).
   */
  function StatsOf(records: seq<string>): Stats
  {
    if records == [] then Stats(0, 0, 0, 0, 0.0)
    else
      var lengths := LengthsOf(records);
      Stats(Sum(lengths), |records|, N50Of(lengths), L90Of(lengths),
            GCPercent(TotalGC(records), Sum(lengths)))
  }

  /**
   * `compute_stats`: one pass over the records collecting lengths and G/C
   * counts, a descending sort, then the N50 and L90 scans, each stopping at
   * the first length that brings the cumulative sum to its threshold.
   */
  method ComputeStats(records: seq<string>) returns (st: Stats)
    ensures st == StatsOf(records)
  {
    var lengths, gcCount, totalBases, numContigs := ScanRecords(records);
    if lengths == [] {
      return Stats(0, 0, 0, 0, 0.0);
    }

    SortKeepsSum(lengths);
    lengths := SortDescending(lengths);
    var gcPercent := if totalBases > 0 then (gcCount as real / totalBases as real) * 100.0 else 0.0;
    var n50 := ScanN50(lengths, totalBases);
    var l90 := ScanL90(lengths, totalBases);
    st := Stats(totalBases, numContigs, n50, l90, gcPercent);
  }

  /**
   * The record loop of `compute_stats`: upper-case each sequence, append its
   * length, and add its G and C counts, its length and one contig to the totals.
   */
  method ScanRecords(records: seq<string>) returns (lengths: seq<nat>, gcCount: nat, totalBases: nat, numContigs: nat)
    ensures lengths == LengthsOf(records) && gcCount == TotalGC(records)
    ensures totalBases == Sum(lengths) && numContigs == |records|
  {
    lengths := [];
    gcCount := 0;
    totalBases := 0;
    numContigs := 0;
    for i := 0 to |records|
      invariant lengths == LengthsOf(records[..i])
      invariant gcCount == TotalGC(records[..i])
      invariant totalBases == Sum(lengths)
      invariant numContigs == i
    {
      var s := UpperSeq(records[i]);
      RecordStep(records, i);
      SumAppend(lengths, [|s|]);
      lengths := lengths + [|s|];
      gcCount := gcCount + Count(s, 'G') + Count(s, 'C');
      totalBases := totalBases + |s|;
      numContigs := numContigs + 1;
    }
    assert records[..|records|] == records;
  }

  /**
   * The N50 loop of `compute_stats`: walk the descending lengths adding each
   * to `cumulative`, and stop at the first one that brings it to half the total.
   */
  method ScanN50(lengths: seq<nat>, totalBases: nat) returns (n50: nat)
    requires lengths != [] && totalBases == Sum(lengths)
    ensures n50 == lengths[FirstCover(lengths, 1, 2) - 1]
  {
    var cumulative: nat := 0;
    n50 := 0;
    var k := 0;
    while k < |lengths|
      invariant 0 <= k <= |lengths|
      invariant cumulative == Sum(lengths[..k])
      invariant forall j :: 1 <= j <= k ==> !Covers(lengths, j, 1, 2)
    {
      PrefixSumStep(lengths, k);
      cumulative := cumulative + lengths[k];
      if 2 * cumulative >= totalBases {
        n50 := lengths[k];
        FirstCoverIs(lengths, 1, 2, k + 1);
        break;
      }
      k := k + 1;
    }
  }

  /**
   * The L90 loop of `compute_stats`: count the descending lengths taken until
   * their cumulative sum reaches 90% of the total.
   */
  method ScanL90(lengths: seq<nat>, totalBases: nat) returns (l90: nat)
    requires lengths != [] && totalBases == Sum(lengths)
    ensures l90 == FirstCover(lengths, 9, 10)
  {
    var cumulative: nat := 0;
    l90 := 0;
    while l90 < |lengths|
      invariant 0 <= l90 <= |lengths|
      invariant cumulative == Sum(lengths[..l90])
      invariant forall j :: 1 <= j <= l90 ==> !Covers(lengths, j, 9, 10)
    {
      PrefixSumStep(lengths, l90);
      cumulative := cumulative + lengths[l90];
      l90 := l90 + 1;
      if 10 * cumulative >= 9 * totalBases {
        FirstCoverIs(lengths, 9, 10, l90);
        break;
      }
    }
  }

  /** No records: every statistic is zero, and nothing fails. */
  lemma {:induction false} EmptyAssembly()
    ensures StatsOf([]) == Stats(0, 0, 0, 0, 0.0)
  {
  }

  lemma {:induction false} LengthsSumIsConcatLength(records: seq<string>)
    ensures Sum(LengthsOf(records)) == |Concat(records)|
  {
    if records != [] {
      var p := records[..|records| - 1];
      LengthsSumIsConcatLength(p);
      assert LengthsOf(records) == LengthsOf(p) + [|records[|records| - 1]|];
      SumAppend(LengthsOf(p), [|records[|records| - 1]|]);
    }
  }

  lemma {:induction false} TotalGCIsLetters(records: seq<string>)
    ensures TotalGC(records) == GCLetters(Concat(records))
  {
    if records != [] {
      var p := records[..|records| - 1];
      TotalGCIsLetters(p);
      GCOfIsCaseInsensitive(records[|records| - 1]);
      GCLettersAppend(Concat(p), records[|records| - 1]);
    }
  }

  /** "Num contigs" counts the records and "Total length" counts every residue of them. */
  lemma {:induction false} ContigsAndTotal(records: seq<string>)
    ensures StatsOf(records).numContigs == |records|
    ensures StatsOf(records).totalLength == |Concat(records)|
  {
    LengthsSumIsConcatLength(records);
  }

  /** A share of `gc` out of `total` bases, `gc <= total`, is a percentage. */
  lemma {:induction false} GCPercentBounds(gc: nat, total: nat)
    requires gc <= total
    ensures 0.0 <= GCPercent(gc, total) <= 100.0
  {
    if total > 0 {
      var q := gc as real / total as real;
      assert q * total as real == gc as real;
      if q > 1.0 {
        assert q * total as real > 1.0 * total as real;
      }
    }
  }

  /**
   * GC% is the share of g/c residues, in either case, among all residues:
   * within [0, 100], and 0 when there are no residues at all.
   */
  lemma {:induction false} GCPercentInRange(records: seq<string>)
    ensures StatsOf(records).gcPercent == GCPercent(GCLetters(Concat(records)), |Concat(records)|)
    ensures 0.0 <= StatsOf(records).gcPercent <= 100.0
  {
    LengthsSumIsConcatLength(records);
    TotalGCIsLetters(records);
    assert GCLetters(Concat(records)) <= |Concat(records)| by {
      GCOfIsCaseInsensitive(Concat(records));
    }
    GCPercentBounds(GCLetters(Concat(records)), |Concat(records)|);
  }

  /** N50 is the length of one of the records. */
  lemma {:induction false} N50IsAContigLength(records: seq<string>)
    requires records != []
    ensures StatsOf(records).n50 in LengthsOf(records)
  {
    var sorted := SortDescending(LengthsOf(records));
    SortDescendingSorted(LengthsOf(records));
    var k := FirstCover(sorted, 1, 2);
    assert sorted[k - 1] in multiset(sorted);
  }

  /**
   * The usual reading of N50: contigs at least N50 long hold at least half of
   * all bases, and (when there are bases) contigs strictly longer hold less.
   */
  lemma {:induction false} N50HalvesTheAssembly(records: seq<string>)
    requires records != []
    ensures 2 * SumAtLeast(LengthsOf(records), StatsOf(records).n50) >= StatsOf(records).totalLength
    ensures StatsOf(records).totalLength > 0 ==>
      2 * SumAtLeast(LengthsOf(records), StatsOf(records).n50 + 1) < StatsOf(records).totalLength
  {
    var lengths := LengthsOf(records);
    assert StatsOf(records).n50 == N50Of(lengths);
    assert StatsOf(records).totalLength == Sum(lengths);
    N50Reached(lengths);
    if Sum(lengths) > 0 {
      N50Exceeded(lengths);
    }
  }

  lemma {:induction false} N50Reached(lengths: seq<nat>)
    requires lengths != []
    ensures 2 * SumAtLeast(lengths, N50Of(lengths)) >= Sum(lengths)
  {
    var t := SortDescending(lengths);
    SortDescendingSorted(lengths);
    SortKeepsSum(lengths);
    var k := FirstCover(t, 1, 2);
    SumAtLeastSorted(lengths, t[k - 1]);
    LongerPrefixCovers(t, k);
  }

  lemma {:induction false} N50Exceeded(lengths: seq<nat>)
    requires lengths != [] && Sum(lengths) > 0
    ensures 2 * SumAtLeast(lengths, N50Of(lengths) + 1) < Sum(lengths)
  {
    var t := SortDescending(lengths);
    SortDescendingSorted(lengths);
    SortKeepsSum(lengths);
    var k := FirstCover(t, 1, 2);
    SumAtLeastSorted(lengths, t[k - 1] + 1);
    SortedExceeded(t, k);
  }

  /** In descending order, lengths above the one at the first half cover hold less than half. */
  lemma {:induction false} SortedExceeded(t: seq<nat>, k: nat)
    requires Descending(t) && 1 <= k <= |t| && Sum(t) > 0
    requires forall j :: 1 <= j < k ==> !Covers(t, j, 1, 2)
    ensures 2 * SumAtLeast(t, t[k - 1] + 1) < Sum(t)
  {
    ShorterPrefixFallsShort(t, k);
    FallsShortOfHalf(t, k);
  }

  /** The prefix before the first half cover holds less than half of a positive total. */
  lemma FallsShortOfHalf(t: seq<nat>, k: nat)
    requires 1 <= k <= |t| && Sum(t) > 0
    requires forall j :: 1 <= j < k ==> !Covers(t, j, 1, 2)
    ensures 2 * Sum(t[..k - 1]) < Sum(t)
  {
    if k > 1 {
      assert !Covers(t, k - 1, 1, 2);
    } else {
      assert t[..k - 1] == [];
    }
  }

  /** In descending order, the first `k` lengths are all at least the `k`-th... */
  lemma PrefixAtLeast(t: seq<nat>, k: nat)
    requires Descending(t) && 1 <= k <= |t|
    ensures forall i :: 0 <= i < |t[..k]| ==> t[..k][i] >= t[k - 1]
  {
    DescendingPairs(t);
  }

  /** ...and the lengths from the `k`-th on are all at most the `k`-th. */
  lemma SuffixAtMost(t: seq<nat>, k: nat, rest: seq<nat>)
    requires Descending(t) && 1 <= k <= |t| && rest == t[k - 1..]
    ensures forall i :: 0 <= i < |rest| ==> rest[i] < t[k - 1] + 1
  {
    DescendingPairs(t);
    forall i | 0 <= i < |rest| ensures rest[i] < t[k - 1] + 1 {
      assert rest[i] == t[k - 1 + i];
    }
  }

  /** In descending order, the lengths at least the `k`-th hold at least the first `k` lengths' total. */
  lemma {:induction false} LongerPrefixCovers(t: seq<nat>, k: nat)
    requires Descending(t) && 1 <= k <= |t|
    ensures SumAtLeast(t, t[k - 1]) >= Sum(t[..k])
  {
    assert t == t[..k] + t[k..];
    PrefixAtLeast(t, k);
    SumAtLeastAppend(t[..k], t[k..], t[k - 1]);
    SumAtLeastAll(t[..k], t[k - 1]);
  }

  /** In descending order, only the first `k - 1` lengths can exceed the `k`-th. */
  lemma {:induction false} ShorterPrefixFallsShort(t: seq<nat>, k: nat)
    requires Descending(t) && 1 <= k <= |t|
    ensures SumAtLeast(t, t[k - 1] + 1) <= Sum(t[..k - 1])
  {
    assert t == t[..k - 1] + t[k - 1..];
    SuffixAtMost(t, k, t[k - 1..]);
    SumAtLeastAppend(t[..k - 1], t[k - 1..], t[k - 1] + 1);
    SumAtLeastNone(t[k - 1..], t[k - 1] + 1);
    SumAtLeastAtMostSum(t[..k - 1], t[k - 1] + 1);
  }

  /**
   * L90 counts between one and all of the contigs, and that many of the
   * longest contigs hold at least 90% of the bases.  With no bases at all,
   * the first contig already meets the target, so L90 is 1.
   */
  lemma {:induction false} L90Reaches(records: seq<string>)
    requires records != []
    ensures 1 <= StatsOf(records).l90 <= StatsOf(records).numContigs
    ensures 10 * Sum(SortDescending(LengthsOf(records))[..StatsOf(records).l90]) >= 9 * StatsOf(records).totalLength
    ensures StatsOf(records).totalLength == 0 ==> StatsOf(records).l90 == 1
  {
    SortKeepsLength(LengthsOf(records));
    SortKeepsSum(LengthsOf(records));
  }

  /**
   * L90 is minimal over every choice of contigs, not just the longest ones:
   * fewer than L90 contigs, whichever are picked, hold less than 90% of the bases.
   */
  lemma {:induction false} L90IsMinimal(records: seq<string>, picked: seq<nat>)
    requires records != [] && StatsOf(records).totalLength > 0
    requires multiset(picked) <= multiset(LengthsOf(records))
    requires |picked| < StatsOf(records).l90
    ensures 10 * Sum(picked) < 9 * StatsOf(records).totalLength
  {
    LengthsL90Minimal(LengthsOf(records), picked);
  }

  lemma {:induction false} LengthsL90Minimal(lengths: seq<nat>, picked: seq<nat>)
    requires lengths != [] && Sum(lengths) > 0
    requires multiset(picked) <= multiset(lengths)
    requires |picked| < L90Of(lengths)
    ensures 10 * Sum(picked) < 9 * Sum(lengths)
  {
    var t := SortDescending(lengths);
    SortDescendingSorted(lengths);
    SortKeepsLength(lengths);
    SortKeepsSum(lengths);
    var m := |picked|;
    TopEntriesAreHeaviest(t, picked);
    if m > 0 {
      assert !Covers(t, m, 9, 10);
    }
  }

  /**
   * Length, N50 and L90 depend only on the multiset of record lengths, not on
   * the order of the records or on their residues.
   */
  lemma {:induction false} ContinuityDependsOnLengthsOnly(a: seq<string>, b: seq<string>)
    requires multiset(LengthsOf(a)) == multiset(LengthsOf(b))
    ensures StatsOf(a).totalLength == StatsOf(b).totalLength
    ensures StatsOf(a).numContigs == StatsOf(b).numContigs
    ensures StatsOf(a).n50 == StatsOf(b).n50
    ensures StatsOf(a).l90 == StatsOf(b).l90
  {
    assert |LengthsOf(a)| == |multiset(LengthsOf(a))| == |multiset(LengthsOf(b))| == |LengthsOf(b)|;
    SortKeepsSum(LengthsOf(a));
    SortKeepsSum(LengthsOf(b));
    SortDescendingSorted(LengthsOf(b));
    SortIsUnique(LengthsOf(a), SortDescending(LengthsOf(b)));
  }

  lemma {:induction false} UniformPrefixSum(s: seq<nat>, m: nat, j: nat)
    requires forall i :: 0 <= i < |s| ==> s[i] == m
    requires j <= |s|
    ensures Sum(s[..j]) == j * m
  {
    if j > 0 {
      UniformPrefixSum(s, m, j - 1);
      PrefixSumStep(s, j - 1);
    }
  }

  lemma {:induction false} CancelPositive(a: nat, b: nat, m: nat)
    requires m > 0
    ensures a * m >= b * m <==> a >= b
  {
    if a >= b {
      assert a * m - b * m == (a - b) * m;
    } else {
      assert b * m - a * m == (b - a) * m;
    }
  }

  /** For `n` copies of `m > 0`, the 90% cover is the least `k` with `10 * k >= 9 * n`. */
  lemma {:induction false} UniformCover(s: seq<nat>, m: nat)
    requires s != [] && m > 0
    requires forall i :: 0 <= i < |s| ==> s[i] == m
    ensures 10 * FirstCover(s, 9, 10) >= 9 * |s|
    ensures 10 * (FirstCover(s, 9, 10) - 1) < 9 * |s|
  {
    var n, k := |s|, FirstCover(s, 9, 10);
    UniformPrefixSum(s, m, n);
    assert s[..n] == s;
    UniformReach(s, m, k);
    if k > 1 {
      assert !Covers(s, k - 1, 9, 10);
      UniformShort(s, m, k - 1);
    }
  }

  lemma {:induction false} UniformReach(s: seq<nat>, m: nat, k: nat)
    requires m > 0 && k <= |s| && Sum(s) == |s| * m
    requires forall i :: 0 <= i < |s| ==> s[i] == m
    requires Covers(s, k, 9, 10)
    ensures 10 * k >= 9 * |s|
  {
    UniformPrefixSum(s, m, k);
    assert (10 * k) * m >= (9 * |s|) * m;
    CancelPositive(10 * k, 9 * |s|, m);
  }

  lemma {:induction false} UniformShort(s: seq<nat>, m: nat, j: nat)
    requires m > 0 && j <= |s| && Sum(s) == |s| * m
    requires forall i :: 0 <= i < |s| ==> s[i] == m
    requires !Covers(s, j, 9, 10)
    ensures 10 * j < 9 * |s|
  {
    UniformPrefixSum(s, m, j);
    assert (10 * j) * m < (9 * |s|) * m;
    CancelPositive(10 * j, 9 * |s|, m);
  }

  /**
   * An assembly of equally long, non-empty contigs (five of length 100, say):
   * N50 is that length and L90 is the smallest count reaching 9/10 of the
   * contigs (five of five).
   */
  lemma {:induction false} UniformAssembly(records: seq<string>, m: nat)
    requires records != [] && m > 0
    requires forall i :: 0 <= i < |records| ==> |records[i]| == m
    ensures StatsOf(records).n50 == m
    ensures 10 * StatsOf(records).l90 >= 9 * |records|
    ensures 10 * (StatsOf(records).l90 - 1) < 9 * |records|
  {
    var lengths := LengthsOf(records);
    PairsDescending(lengths);
    SortIsUnique(lengths, lengths);
    UniformCover(lengths, m);
  }
}
