/** The filter on ADC samples of ble_lt_sdk/proj/drivers/battery.c. */
module Battery {
  import opened Common

  function Sum(s: seq<u16>): nat {
    if s == [] then 0 else s[0] + Sum(s[1..])
  }

  function Max(s: seq<u16>): (m: u16)
    requires s != []
    ensures m in s && forall x :: x in s ==> x <= m
  {
    if |s| == 1 then s[0] else
    assert s == [s[0]] + s[1..];
    var m := Max(s[1..]);
    if s[0] > m then s[0] else m
  }

  function Min(s: seq<u16>): (m: u16)
    requires s != []
    ensures m in s && forall x :: x in s ==> x >= m
  {
    if |s| == 1 then s[0] else
    assert s == [s[0]] + s[1..];
    var m := Min(s[1..]);
    if s[0] < m then s[0] else m
  }

  /** The mean of all samples but one greatest and one least, rounded down */
  function Trimmed(s: seq<u16>): int
    requires |s| >= 3
  {
    (Sum(s) - Max(s) - Min(s)) / (|s| - 2)
  }

  // ---------------------------------------------------------------- order does not matter

  function Without(s: seq<u16>, i: nat): seq<u16>
    requires i < |s|
  {
    s[..i] + s[i + 1..]
  }

  lemma {:induction false} SumWithout(s: seq<u16>, i: nat)
    requires i < |s|
    ensures Sum(s) == s[i] + Sum(Without(s, i))
    ensures multiset(Without(s, i)) == multiset(s) - multiset{s[i]}
  {
    assert s == s[..i] + [s[i]] + s[i + 1..];
    if i > 0 {
      SumWithout(s[1..], i - 1);
      assert Without(s, i) == [s[0]] + Without(s[1..], i - 1);
    } else {
      assert Without(s, 0) == s[1..];
    }
  }

  lemma {:induction false} SumOfPermutation(s: seq<u16>, t: seq<u16>)
    requires multiset(s) == multiset(t)
    ensures Sum(s) == Sum(t)
    decreases |s|
  {
    if s == [] {
      assert multiset(t) == multiset{};
    } else {
      assert s[0] in multiset(t);
      var i :| 0 <= i < |t| && t[i] == s[0];
      SumWithout(t, i);
      SumWithout(s, 0);
      SumOfPermutation(Without(s, 0), Without(t, i));
    }
  }

  lemma SameElements(s: seq<u16>, t: seq<u16>)
    requires multiset(s) == multiset(t)
    ensures |s| == |t|
    ensures forall x :: x in s <==> x in t
  {
    assert |multiset(s)| == |s| && |multiset(t)| == |t|;
    forall x
      ensures x in s <==> x in t
    {
      assert x in s <==> x in multiset(s);
      assert x in t <==> x in multiset(t);
    }
  }

  lemma SameExtremes(s: seq<u16>, t: seq<u16>)
    requires s != [] && t != [] && forall x :: x in s <==> x in t
    ensures Max(s) == Max(t) && Min(s) == Min(t)
  {
    assert Max(s) in t && Max(t) in s;
    assert Min(s) in t && Min(t) in s;
  }

  /** The result does not depend on the order of the samples. */
  lemma TrimmedOfPermutation(s: seq<u16>, t: seq<u16>)
    requires |s| >= 3 && multiset(s) == multiset(t)
    ensures |t| == |s| && Trimmed(s) == Trimmed(t)
  {
    SameElements(s, t);
    SumOfPermutation(s, t);
    SameExtremes(s, t);
  }

  // ---------------------------------------------------------------- what it filters out

  lemma {:induction false} SumBounds(s: seq<u16>, low: int, high: int)
    requires forall x :: x in s ==> low <= x <= high
    ensures low * |s| <= Sum(s) <= high * |s|
  {
    if s == [] {
    } else {
      var t := s[1..];
      assert forall x :: x in t ==> x in s;
      SumBounds(t, low, high);
      assert s[0] in s;
      OneMore(low, |t|);
      OneMore(high, |t|);
    }
  }

  lemma OneMore(x: int, n: nat)
    ensures x * (n + 1) == x * n + x
  {
  }

  lemma MulMonotonic(x: int, y: int, n: nat)
    requires x <= y
    ensures x * n <= y * n
  {
    assert (y - x) * n >= 0;
    assert y * n == x * n + (y - x) * n;
  }

  lemma MeanBounds(sum: int, n: nat, low: int, high: int)
    requires n > 0 && low * n <= sum <= high * n
    ensures low <= sum / n <= high
  {
    var q, r := sum / n, sum % n;
    assert sum == q * n + r;
    assert (q + 1) * n == q * n + n && (high + 1) * n == high * n + n;
    if q < low {
      MulMonotonic(q + 1, low, n);
    }
    if q > high {
      MulMonotonic(high + 1, q, n);
    }
  }

  /** At most one sample above the band and at most one below it: `i` and `j` are where they
      may be. */
  predicate OneSpikeEachWay(s: seq<u16>, i: nat, j: nat, low: u16, high: u16) {
    && i < |s| && j < |s| && i != j
    && forall k :: 0 <= k < |s| ==> (k != i ==> s[k] <= high) && (k != j ==> low <= s[k])
  }

  /** Places of a greatest and a least sample, not the same */
  lemma Extremes(s: seq<u16>) returns (p: nat, q: nat)
    requires |s| >= 2
    ensures p < |s| && q < |s| && p != q && s[p] == Max(s) && s[q] == Min(s)
  {
    p :| 0 <= p < |s| && s[p] == Max(s);
    if s[p] == Min(s) {
      q := if p == 0 then 1 else 0;
      assert s[q] in s;
    } else {
      q :| 0 <= q < |s| && s[q] == Min(s);
    }
  }

  /** What is left without two of the samples */
  lemma WithoutTwo(s: seq<u16>, p: nat, q: nat) returns (rest: seq<u16>)
    requires p < |s| && q < |s| && p != q
    ensures |rest| == |s| - 2 && Sum(s) == s[p] + s[q] + Sum(rest)
    ensures forall x :: x in rest ==> exists k :: 0 <= k < |s| && k != p && k != q && s[k] == x
  {
    var t := Without(s, p);
    var q' := if q < p then q else q - 1;
    WithoutAt(s, p, q');
    rest := Without(t, q');
    SumWithout(s, p);
    SumWithout(t, q');
    forall x | x in rest
      ensures exists k :: 0 <= k < |s| && k != p && k != q && s[k] == x
    {
      var m :| 0 <= m < |rest| && rest[m] == x;
      WithoutAt(t, q', m);
      WithoutAt(s, p, if m < q' then m else m + 1);
    }
  }

  lemma WithoutAt(s: seq<u16>, i: nat, m: nat)
    requires i < |s| && m < |s| - 1
    ensures Without(s, i)[m] == s[if m < i then m else m + 1]
  {
  }

  /** One spike up and one spike down do not take the result out of the band that all the
      other samples lie in. */
  lemma SpikesFilteredOut(s: seq<u16>, i: nat, j: nat, low: u16, high: u16)
    requires |s| >= 3 && OneSpikeEachWay(s, i, j, low, high)
    ensures low <= Trimmed(s) <= high
  {
    var p, q := Extremes(s);
    var rest := WithoutTwo(s, p, q);
    forall x | x in rest
      ensures low <= x <= high
    {
      var k :| 0 <= k < |s| && k != p && k != q && s[k] == x;
      assert s[k] in s && s[i] in s && s[j] in s;
    }
    SumBounds(rest, low, high);
    MeanBounds(Sum(rest), |s| - 2, low, high);
  }

  // ---------------------------------------------------------------- the filter

  predicate Sorted(s: seq<u16>) {
    forall i, j :: 0 <= i < j < |s| ==> s[i] <= s[j]
  }

  lemma SortedEnds(s: seq<u16>)
    requires s != [] && Sorted(s)
    ensures s[0] == Min(s) && s[|s| - 1] == Max(s)
  {
    assert s[0] in s && s[|s| - 1] in s;
  }

  lemma {:induction false} SumSnoc(s: seq<u16>, x: u16)
    ensures Sum(s + [x]) == Sum(s) + x
  {
    if s == [] {
      assert s + [x] == [x];
    } else {
      assert (s + [x])[1..] == s[1..] + [x];
      SumSnoc(s[1..], x);
    }
  }

  /** The greatest of the first n samples is at their end, and the others are as they were. */
  predicate Passed(before: seq<u16>, after: seq<u16>, n: nat) {
    && 1 <= n <= |before| == |after|
    && multiset(after[..n]) == multiset(before[..n])
    && (forall k :: 0 <= k < n ==> after[k] <= after[n - 1])
    && after[n..] == before[n..]
  }

  /** One pass of the sort: the greatest of the first n samples moves to their end. */
  method Pass(pData: array<u16>, n: nat)
    requires 1 <= n <= pData.Length
    modifies pData
    ensures Passed(old(pData[..]), pData[..], n)
  {
    var index := 0;
    while index < n - 1
      invariant 0 <= index <= n - 1
      invariant multiset(pData[..n]) == multiset(old(pData[..n]))
      invariant forall k :: 0 <= k <= index ==> pData[k] <= pData[index]
      invariant pData[n..] == old(pData[n..])
    {
      if pData[index] > pData[index + 1] {
        SwapKeeps(pData[..n], index);
        pData[index], pData[index + 1] := pData[index + 1], pData[index];
      }
      index := index + 1;
    }
  }

  lemma SwapKeeps(s: seq<u16>, i: nat)
    requires i + 1 < |s|
    ensures multiset(s[i := s[i + 1]][i + 1 := s[i]]) == multiset(s)
  {
  }

  /** The samples as one pass after another leaves them: the first n as they come, the rest
      in order and none of them less */
  predicate SortedFrom(s: seq<u16>, n: nat) {
    && n <= |s|
    && Sorted(s[n..])
    && forall j, k :: 0 <= j < n <= k < |s| ==> s[j] <= s[k]
  }

  lemma PassSorts(before: seq<u16>, after: seq<u16>, n: nat)
    requires SortedFrom(before, n) && Passed(before, after, n)
    ensures SortedFrom(after, n - 1)
    ensures multiset(after) == multiset(before)
  {
    assert after == after[..n] + after[n..] && before == before[..n] + before[n..];
    SameElements(after[..n], before[..n]);
    forall k | n <= k < |after|
      ensures after[n - 1] <= after[k]
    {
      assert after[k] == after[n..][k - n] == before[k];
      assert after[n - 1] in after[..n];
      var j :| 0 <= j < n && before[j] == after[n - 1];
    }
    forall i, j | n - 1 <= i < j < |after|
      ensures after[i] <= after[j]
    {
      if i >= n {
        assert after[i] == after[n..][i - n] && after[j] == after[n..][j - n];
      }
    }
  }

  /** The sorting loops of filter_data */
  method BubbleSort(pData: array<u16>, len: nat)
    requires 1 <= len <= pData.Length
    modifies pData
    ensures Sorted(pData[..len]) && multiset(pData[..len]) == multiset(old(pData[..len]))
    ensures pData[len..] == old(pData[len..])
  {
    ghost var samples := multiset(pData[..len]);
    var loop := 0;
    while loop < len - 1
      invariant 0 <= loop <= len - 1
      invariant SortedFrom(pData[..len], len - loop)
      invariant multiset(pData[..len]) == samples
      invariant pData[len..] == old(pData[len..])
    {
      ghost var before := pData[..];
      Pass(pData, len - loop);
      ghost var after := pData[..];
      PassDone(before, after, len - loop, len);
      loop := loop + 1;
    }
    LastSorted(pData[..len]);
  }

  lemma PassDone(before: seq<u16>, after: seq<u16>, n: nat, len: nat)
    requires n <= len <= |before|
    requires SortedFrom(before[..len], n) && Passed(before, after, n)
    ensures SortedFrom(after[..len], n - 1)
    ensures multiset(after[..len]) == multiset(before[..len]) && after[len..] == before[len..]
  {
    Sliced(before, after, n, len);
    PassSorts(before[..len], after[..len], n);
  }

  lemma LastSorted(s: seq<u16>)
    requires SortedFrom(s, 1)
    ensures Sorted(s)
  {
    assert forall j :: 1 <= j < |s| ==> s[j] == s[1..][j - 1];
  }

  /** The averaging loop of filter_data */
  method SumMiddle(pData: array<u16>, len: nat) returns (data_sum: nat)
    requires 3 <= len <= pData.Length
    ensures data_sum == Sum(pData[..len][1..len - 1])
  {
    data_sum := 0;
    var s := pData[..len];
    var s_index := 1;
    while s_index < len - 1
      invariant 1 <= s_index <= len - 1
      invariant data_sum == Sum(s[1..s_index])
    {
      SumSnoc(s[1..s_index], s[s_index]);
      assert s[1..s_index + 1] == s[1..s_index] + [s[s_index]];
      data_sum := data_sum + pData[s_index];
      s_index := s_index + 1;
    }
  }

  /** filter_data */
  method FilterData(pData: array<u16>, len: nat) returns (average: u16)
    requires 3 <= len <= 255 && len <= pData.Length
    modifies pData
    ensures average == Trimmed(old(pData[..len]))
    ensures var s := old(pData[..len]);
      average == (Sum(s) - Max(s) - Min(s)) / (len - 2)
    ensures Sorted(pData[..len]) && multiset(pData[..len]) == multiset(old(pData[..len]))
    ensures pData[len..] == old(pData[len..])
  {
    ghost var samples := pData[..len];
    BubbleSort(pData, len);
    var data_sum := SumMiddle(pData, len);
    MiddleSum(pData[..len]);
    TrimmedOfPermutation(samples, pData[..len]);
    TrimmedFits(samples);
    average := data_sum / (len - 2);
  }

  lemma Sliced(before: seq<u16>, after: seq<u16>, n: nat, len: nat)
    requires n <= len <= |before| == |after| && after[n..] == before[n..]
    ensures after[..len][n..] == before[..len][n..]
    ensures after[..len][..n] == after[..n] && before[..len][..n] == before[..n]
    ensures after[len..] == before[len..]
  {
    assert after[len..] == after[n..][len - n..];
    assert after[..len][n..] == after[n..][..len - n];
  }

  lemma MiddleSum(s: seq<u16>)
    requires |s| >= 3 && Sorted(s)
    ensures Sum(s[1..|s| - 1]) == Sum(s) - Max(s) - Min(s)
  {
    SortedEnds(s);
    EndsSum(s);
  }

  lemma EndsSum(s: seq<u16>)
    requires |s| >= 2
    ensures Sum(s) == s[0] + Sum(s[1..|s| - 1]) + s[|s| - 1]
  {
    var m, last := s[1..|s| - 1], s[|s| - 1];
    assert s[1..] == m + [last];
    SumSnoc(m, last);
  }

  /** The sum fits 32 bits and the mean 16. */
  lemma TrimmedFits(s: seq<u16>)
    requires 3 <= |s| <= 255
    ensures 0 <= Sum(s) < 0x1_0000_0000
    ensures 0 <= Trimmed(s) < 0x1_0000
  {
    SumBounds(s, 0, 65535);
    TrimmedInRange(s, 0, 65535);
  }

  /** The trimmed mean is not out of any range that all the samples are in. */
  lemma TrimmedInRange(s: seq<u16>, low: int, high: int)
    requires |s| >= 3 && forall x :: x in s ==> low <= x <= high
    ensures low <= Trimmed(s) <= high
  {
    var p, q := Extremes(s);
    var rest := WithoutTwo(s, p, q);
    assert forall x :: x in rest ==> x in s;
    SumBounds(rest, low, high);
    MeanBounds(Sum(rest), |s| - 2, low, high);
  }
}
