/**
 * Contig-length sequences: their sum and the descending order that
 * `lengths.sort(reverse=True)` produces in genome_analyzer.py.
 */
module Lengths {

  /** Sum of a sequence of lengths, accumulated front to back as the source's loops do. */
  function Sum(s: seq<nat>): nat
  {
    if s == [] then 0 else Sum(s[..|s| - 1]) + s[|s| - 1]
  }

  lemma {:induction false} SumAppend(a: seq<nat>, b: seq<nat>)
    ensures Sum(a + b) == Sum(a) + Sum(b)
    decreases |b|
  {
    if b == [] {
      assert a + b == a;
    } else {
      var b' := b[..|b| - 1];
      assert (a + b)[..|a + b| - 1] == a + b';
      SumAppend(a, b');
    }
  }

  /** Extending a prefix by one element adds that element to the prefix sum. */
  lemma PrefixSumStep(s: seq<nat>, i: nat)
    requires i < |s|
    ensures Sum(s[..i + 1]) == Sum(s[..i]) + s[i]
  {
    assert s[..i + 1][..i] == s[..i];
  }

  /** Non-increasing order, the order of `sort(reverse=True)`: each entry is at least the next. */
  predicate Descending(s: seq<nat>)
  {
    |s| < 2 || (s[0] >= s[1] && Descending(s[1..]))
  }

  /** In a descending sequence every entry is at least every later one. */
  lemma {:induction false} DescendingPairs(s: seq<nat>)
    requires Descending(s)
    ensures forall i, j :: 0 <= i < j < |s| ==> s[i] >= s[j]
  {
    if |s| >= 2 {
      DescendingPairs(s[1..]);
      forall i, j | 0 <= i < j < |s| ensures s[i] >= s[j] {
        assert s[j] == s[1..][j - 1];
        if i > 0 {
          assert s[i] == s[1..][i - 1];
        } else if j > 1 {
          assert s[1] == s[1..][0];
        }
      }
    }
  }

  /** Conversely, a sequence ordered pairwise is descending. */
  lemma {:induction false} PairsDescending(s: seq<nat>)
    requires forall i, j :: 0 <= i < j < |s| ==> s[i] >= s[j]
    ensures Descending(s)
  {
    if |s| >= 2 {
      forall i, j | 0 <= i < j < |s[1..]| ensures s[1..][i] >= s[1..][j] {
        assert s[1..][i] == s[i + 1] && s[1..][j] == s[j + 1];
      }
      PairsDescending(s[1..]);
    }
  }

  /** Prepending an element no smaller than any element keeps a sequence descending. */
  lemma ConsDescending(h: nat, t: seq<nat>)
    requires Descending(t)
    requires forall y :: y in t ==> h >= y
    ensures Descending([h] + t)
  {
    var r := [h] + t;
    if t != [] {
      assert t[0] in t;
      assert r[1..] == t;
    }
  }

  /** The head of a descending sequence is its largest element. */
  lemma HeadIsMax(s: seq<nat>, y: nat)
    requires Descending(s) && y in multiset(s)
    ensures s[0] >= y
  {
    var i :| 0 <= i < |s| && s[i] == y;
    DescendingPairs(s);
  }

  lemma HeadBoundsInsert(x: nat, s: seq<nat>, rest: seq<nat>)
    requires Descending(s) && s != [] && x < s[0]
    requires multiset(rest) == multiset(s[1..]) + multiset{x}
    ensures forall y :: y in rest ==> s[0] >= y
  {
    assert s == [s[0]] + s[1..];
    forall y | y in rest ensures s[0] >= y {
      assert y in multiset(rest);
      if y != x {
        assert y in multiset(s);
        HeadIsMax(s, y);
      }
    }
  }

  /** Putting `x` in front of a descending sequence whose head it does not undercut. */
  lemma InsertFront(x: nat, s: seq<nat>)
    requires Descending(s) && (s == [] || x >= s[0])
    ensures Descending([x] + s)
    ensures multiset([x] + s) == multiset(s) + multiset{x}
  {
    forall y | y in s ensures x >= y {
      HeadIsMax(s, y);
    }
    ConsDescending(x, s);
  }

  /** Keeping the head in front of a descending insertion into the tail. */
  lemma InsertBehind(x: nat, s: seq<nat>, rest: seq<nat>)
    requires Descending(s) && s != [] && x < s[0]
    requires Descending(rest) && multiset(rest) == multiset(s[1..]) + multiset{x}
    ensures Descending([s[0]] + rest)
    ensures multiset([s[0]] + rest) == multiset(s) + multiset{x}
  {
    assert s == [s[0]] + s[1..];
    HeadBoundsInsert(x, s, rest);
    ConsDescending(s[0], rest);
  }

  /** Inserts `x` into a sequence, before the first element smaller than it. */
  function Insert(x: nat, s: seq<nat>): seq<nat>
  {
    if s == [] || x >= s[0] then [x] + s
    else [s[0]] + Insert(x, s[1..])
  }

  /** Inserting into a descending sequence keeps it descending and adds exactly `x`. */
  lemma {:induction false} InsertSorted(x: nat, s: seq<nat>)
    requires Descending(s)
    ensures Descending(Insert(x, s))
    ensures multiset(Insert(x, s)) == multiset(s) + multiset{x}
    decreases |s|
  {
    if s == [] || x >= s[0] {
      InsertFront(x, s);
    } else {
      TailDescending(s);
      InsertSorted(x, s[1..]);
      InsertBehind(x, s, Insert(x, s[1..]));
    }
  }

  /** Inserting `x` adds it to the sum. */
  lemma {:induction false} InsertSum(x: nat, s: seq<nat>)
    ensures Sum(Insert(x, s)) == Sum(s) + x
    decreases |s|
  {
    if s == [] || x >= s[0] {
      SumAppend([x], s);
    } else {
      InsertSum(x, s[1..]);
      assert s == [s[0]] + s[1..];
      SumAppend([s[0]], s[1..]);
      SumAppend([s[0]], Insert(x, s[1..]));
    }
  }

  /** The descending rearrangement of `s`, by insertion sort. */
  function SortDescending(s: seq<nat>): seq<nat>
  {
    if s == [] then [] else Insert(s[0], SortDescending(s[1..]))
  }

  /** Sorting yields a descending permutation. */
  lemma {:induction false} SortDescendingSorted(s: seq<nat>)
    ensures Descending(SortDescending(s))
    ensures multiset(SortDescending(s)) == multiset(s)
  {
    if s != [] {
      SortDescendingSorted(s[1..]);
      InsertSorted(s[0], SortDescending(s[1..]));
      assert s == [s[0]] + s[1..];
    }
  }

  /** Sorting keeps the number of lengths. */
  lemma SortKeepsLength(s: seq<nat>)
    ensures |SortDescending(s)| == |s|
  {
    var r := SortDescending(s);
    SortDescendingSorted(s);
    assert |r| == |multiset(r)|;
    assert |s| == |multiset(s)|;
  }

  /** Sorting keeps the total. */
  lemma {:induction false} SortKeepsSum(s: seq<nat>)
    ensures Sum(SortDescending(s)) == Sum(s)
  {
    if s != [] {
      var t := s[1..];
      SortKeepsSum(t);
      InsertSum(s[0], SortDescending(t));
      assert s == [s[0]] + t;
      SumAppend([s[0]], t);
    }
  }

  /**
   * Two descending sequences holding the same elements are equal: there is
   * only one descending order of a multiset of lengths.
   */
  lemma {:induction false} DescendingUnique(a: seq<nat>, b: seq<nat>)
    requires Descending(a) && Descending(b)
    requires multiset(a) == multiset(b)
    ensures a == b
    decreases |a|
  {
    if a == [] {
      assert |multiset(b)| == 0;
    } else {
      assert |b| == |multiset(b)| == |multiset(a)| == |a|;
      assert a[0] in multiset(a) && b[0] in multiset(b);
      HeadIsMax(b, a[0]);
      HeadIsMax(a, b[0]);
      var a', b' := a[1..], b[1..];
      assert a == [a[0]] + a';
      assert b == [b[0]] + b';
      assert a[0] == b[0];
      assert multiset(a) == multiset{a[0]} + multiset(a');
      assert multiset(b) == multiset{b[0]} + multiset(b');
      assert multiset(a') == multiset(a) - multiset{a[0]};
      assert multiset(b') == multiset(b) - multiset{b[0]};
      assert multiset(a') == multiset(b');
      assert Descending(a') && Descending(b') by {
        TailDescending(a);
        TailDescending(b);
      }
      DescendingUnique(a', b');
    }
  }

  lemma TailDescending(s: seq<nat>)
    requires Descending(s) && s != []
    ensures Descending(s[1..])
  {
  }

  /** Whatever descending rearrangement a sort returns, it is `SortDescending`'s. */
  lemma SortIsUnique(s: seq<nat>, t: seq<nat>)
    requires Descending(t) && multiset(t) == multiset(s)
    ensures t == SortDescending(s)
  {
    SortDescendingSorted(s);
    DescendingUnique(t, SortDescending(s));
  }

  /** Total of the entries that are at least `bound`, in any order. */
  function SumAtLeast(s: seq<nat>, bound: nat): nat
  {
    if s == [] then 0
    else SumAtLeast(s[..|s| - 1], bound) + (if s[|s| - 1] >= bound then s[|s| - 1] else 0)
  }

  lemma {:induction false} SumAtLeastAppend(a: seq<nat>, b: seq<nat>, bound: nat)
    ensures SumAtLeast(a + b, bound) == SumAtLeast(a, bound) + SumAtLeast(b, bound)
    decreases |b|
  {
    if b == [] {
      assert a + b == a;
    } else {
      var b' := b[..|b| - 1];
      assert (a + b)[..|a + b| - 1] == a + b';
      SumAtLeastAppend(a, b', bound);
    }
  }

  lemma {:induction false} SumAtLeastInsert(x: nat, s: seq<nat>, bound: nat)
    ensures SumAtLeast(Insert(x, s), bound) == SumAtLeast(s, bound) + SumAtLeast([x], bound)
    decreases |s|
  {
    if s == [] || x >= s[0] {
      SumAtLeastAppend([x], s, bound);
    } else {
      SumAtLeastInsert(x, s[1..], bound);
      assert s == [s[0]] + s[1..];
      SumAtLeastAppend([s[0]], s[1..], bound);
      SumAtLeastAppend([s[0]], Insert(x, s[1..]), bound);
    }
  }

  /** Sorting does not change which lengths reach a bound, nor their total. */
  lemma {:induction false} SumAtLeastSorted(s: seq<nat>, bound: nat)
    ensures SumAtLeast(SortDescending(s), bound) == SumAtLeast(s, bound)
  {
    if s != [] {
      SumAtLeastSorted(s[1..], bound);
      SumAtLeastInsert(s[0], SortDescending(s[1..]), bound);
      assert s == [s[0]] + s[1..];
      SumAtLeastAppend([s[0]], s[1..], bound);
    }
  }

  /** When every entry reaches the bound, all of the sum counts. */
  lemma {:induction false} SumAtLeastAll(s: seq<nat>, bound: nat)
    requires forall i :: 0 <= i < |s| ==> s[i] >= bound
    ensures SumAtLeast(s, bound) == Sum(s)
  {
    if s != [] {
      SumAtLeastAll(s[..|s| - 1], bound);
    }
  }

  /** When no entry reaches the bound, nothing counts. */
  lemma {:induction false} SumAtLeastNone(s: seq<nat>, bound: nat)
    requires forall i :: 0 <= i < |s| ==> s[i] < bound
    ensures SumAtLeast(s, bound) == 0
  {
    if s != [] {
      SumAtLeastNone(s[..|s| - 1], bound);
    }
  }

  lemma {:induction false} SumAtLeastAtMostSum(s: seq<nat>, bound: nat)
    ensures SumAtLeast(s, bound) <= Sum(s)
  {
    if s != [] {
      SumAtLeastAtMostSum(s[..|s| - 1], bound);
    }
  }

  /** Removing the entry at `i` takes it out of both the sum and the multiset. */
  lemma {:induction false} RemoveAt(c: seq<nat>, i: nat)
    requires i < |c|
    ensures Sum(c[..i] + c[i + 1..]) + c[i] == Sum(c)
    ensures multiset(c[..i] + c[i + 1..]) + multiset{c[i]} == multiset(c)
  {
    var front, back := c[..i], c[i + 1..];
    assert c == (front + [c[i]]) + back;
    SumAppend(front + [c[i]], back);
    SumAppend(front, [c[i]]);
    SumAppend(front, back);
    assert multiset(c) == multiset(front) + multiset{c[i]} + multiset(back);
  }

  lemma SubMultisetCancel(c': seq<nat>, h: nat, t': seq<nat>)
    requires multiset(c') + multiset{h} <= multiset{h} + multiset(t')
    ensures multiset(c') <= multiset(t')
  {
    forall y ensures multiset(c')[y] <= multiset(t')[y] {
      assert (multiset(c') + multiset{h})[y] == multiset(c')[y] + multiset{h}[y];
      assert (multiset{h} + multiset(t'))[y] == multiset{h}[y] + multiset(t')[y];
    }
  }

  lemma SubMultisetWithoutHead(c: seq<nat>, h: nat, t': seq<nat>)
    requires multiset(c) <= multiset{h} + multiset(t')
    requires h !in multiset(c)
    ensures multiset(c) <= multiset(t')
  {
    forall y ensures multiset(c)[y] <= multiset(t')[y] {
      if y == h {
        assert multiset(c)[y] == 0;
      } else {
        assert (multiset{h} + multiset(t'))[y] == multiset(t')[y];
      }
    }
  }

  /** A prefix of `t` is its head followed by a prefix of its tail. */
  lemma {:induction false} PrefixOfCons(t: seq<nat>, m: nat)
    requires 1 <= m <= |t|
    ensures Sum(t[..m]) == t[0] + Sum(t[1..][..m - 1])
  {
    assert t[..m] == [t[0]] + t[1..][..m - 1];
    SumAppend([t[0]], t[1..][..m - 1]);
  }

  /** Shifting a window of a descending sequence one place right never increases its sum. */
  lemma {:induction false} ShiftedPrefixNoHeavier(t: seq<nat>, m: nat)
    requires Descending(t) && m < |t|
    ensures Sum(t[1..][..m]) <= Sum(t[..m])
  {
    if m > 0 {
      PrefixOfCons(t, m);
      PrefixSumStep(t[1..], m - 1);
      assert t[1..][..m - 1] == t[1..][..m][..m - 1];
      assert t[1..][m - 1] == t[m];
      DescendingPairs(t);
      assert t[m] <= t[0];
    }
  }

  /**
   * No choice of `|c|` entries of `t` sums to more than the `|c|` largest:
   * for a descending `t` and any `c` drawn from its elements (with
   * multiplicity), `Sum(c) <= Sum(t[..|c|])`.
   */
  lemma {:induction false} TopEntriesAreHeaviest(t: seq<nat>, c: seq<nat>)
    requires Descending(t)
    requires multiset(c) <= multiset(t)
    ensures |c| <= |t|
    ensures Sum(c) <= Sum(t[..|c|])
    decreases |t|
  {
    if t == [] {
      assert |multiset(c)| == 0;
    } else {
      var h, t' := t[0], t[1..];
      assert t == [h] + t';
      assert multiset(t) == multiset{h} + multiset(t');
      if h in multiset(c) {
        var i :| 0 <= i < |c| && c[i] == h;
        var c' := c[..i] + c[i + 1..];
        RemoveAt(c, i);
        SubMultisetCancel(c', h, t');
        TopEntriesAreHeaviest(t', c');
        HeaviestWithHead(t, c, c');
      } else {
        SubMultisetWithoutHead(c, h, t');
        TopEntriesAreHeaviest(t', c);
        ShiftedPrefixNoHeavier(t, |c|);
      }
    }
  }

  /** The step of the above where the chosen entries include the head `t[0]`. */
  lemma HeaviestWithHead(t: seq<nat>, c: seq<nat>, c': seq<nat>)
    requires t != [] && |c| == |c'| + 1 && Sum(c) == Sum(c') + t[0]
    requires |c'| <= |t[1..]| && Sum(c') <= Sum(t[1..][..|c'|])
    ensures |c| <= |t| && Sum(c) <= Sum(t[..|c|])
  {
    PrefixOfCons(t, |c|);
  }
}
