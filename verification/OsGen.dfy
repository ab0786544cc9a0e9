/** os_gen.c: merge sort and binary search on integers, and the average of five slots. */
module OsGen {

  /** Merging with preference for the left run on ties. */
  function Merged(l: seq<int>, r: seq<int>): (m: seq<int>)
    ensures |m| == |l| + |r|
  {
    if l == [] then r
    else if r == [] then l
    else if l[0] <= r[0] then [l[0]] + Merged(l[1..], r)
    else [r[0]] + Merged(l, r[1..])
  }

  /** Both halves sorted, the first one longer on odd lengths, then merged. */
  function Sorted(s: seq<int>): (t: seq<int>)
    ensures |t| == |s|
  {
    if |s| <= 1 then s
    else
      var h := (|s| + 1) / 2;
      Merged(Sorted(s[..h]), Sorted(s[h..]))
  }

  predicate Ascending(s: seq<int>) {
    forall i, j :: 0 <= i < j < |s| ==> s[i] <= s[j]
  }

  lemma {:induction false} MergedContents(l: seq<int>, r: seq<int>)
    ensures multiset(Merged(l, r)) == multiset(l) + multiset(r)
    decreases |l| + |r|
  {
    if l == [] || r == [] {
    } else if l[0] <= r[0] {
      assert Merged(l, r) == [l[0]] + Merged(l[1..], r);
      hide Merged;
      MergedContents(l[1..], r);
      HeadCounts(l);
    } else {
      assert Merged(l, r) == [r[0]] + Merged(l, r[1..]);
      hide Merged;
      MergedContents(l, r[1..]);
      HeadCounts(r);
    }
  }

  lemma HeadCounts(s: seq<int>)
    requires s != []
    ensures multiset(s) == multiset{s[0]} + multiset(s[1..])
  {
    assert s == [s[0]] + s[1..];
  }

  lemma PrependAscends(head: int, rest: seq<int>)
    requires Ascending(rest) && forall x :: x in rest ==> head <= x
    ensures Ascending([head] + rest)
  {
    var s := [head] + rest;
    forall i, j | 0 <= i < j < |s| ensures s[i] <= s[j] {
      assert s[j] == rest[j - 1] && rest[j - 1] in rest;
      assert i > 0 ==> s[i] == rest[i - 1];
    }
  }

  lemma MergedMembers(l: seq<int>, r: seq<int>)
    ensures forall x :: x in Merged(l, r) ==> x in l || x in r
  {
    MergedContents(l, r);
    forall x | x in Merged(l, r) ensures x in l || x in r {
      assert x in multiset(Merged(l, r));
    }
  }

  lemma {:induction false} MergedAscends(l: seq<int>, r: seq<int>)
    requires Ascending(l) && Ascending(r)
    ensures Ascending(Merged(l, r))
    decreases |l| + |r|
  {
    if l != [] && r != [] {
      if l[0] <= r[0] {
        MergedAscends(l[1..], r);
        MergedMembers(l[1..], r);
        PrependAscends(l[0], Merged(l[1..], r));
      } else {
        MergedAscends(l, r[1..]);
        MergedMembers(l, r[1..]);
        PrependAscends(r[0], Merged(l, r[1..]));
      }
    }
  }

  lemma SortedStep(s: seq<int>, h: nat)
    requires |s| > 1 && h == (|s| + 1) / 2
    ensures Sorted(s) == Merged(Sorted(s[..h]), Sorted(s[h..]))
    ensures multiset(s) == multiset(s[..h]) + multiset(s[h..])
  {
    hide Merged;
    assert s == s[..h] + s[h..];
  }

  lemma {:induction false} SortedContents(s: seq<int>)
    ensures multiset(Sorted(s)) == multiset(s)
    decreases |s|
  {
    if |s| > 1 {
      var h := (|s| + 1) / 2;
      SortedStep(s, h);
      hide Sorted, Merged;
      SortedContents(s[..h]);
      SortedContents(s[h..]);
      MergedContents(Sorted(s[..h]), Sorted(s[h..]));
    }
  }

  lemma {:induction false} SortedAscends(s: seq<int>)
    ensures Ascending(Sorted(s))
    decreases |s|
  {
    if |s| > 1 {
      var h := (|s| + 1) / 2;
      SortedStep(s, h);
      hide Sorted, Merged, Ascending;
      SortedAscends(s[..h]);
      SortedAscends(s[h..]);
      MergedAscends(Sorted(s[..h]), Sorted(s[h..]));
    }
  }

  /** Sorting orders the elements and neither loses nor invents any. */
  lemma SortedSorts(s: seq<int>)
    ensures Ascending(Sorted(s)) && multiset(Sorted(s)) == multiset(s)
  {
    SortedAscends(s);
    SortedContents(s);
  }

  /** The rest of a merge after `i` elements of `l` and `j` of `r`. */
  lemma MergedStep(l: seq<int>, r: seq<int>, i: nat, j: nat)
    requires i <= |l| && j <= |r|
    ensures i == |l| ==> Merged(l[i..], r[j..]) == r[j..]
    ensures j == |r| ==> Merged(l[i..], r[j..]) == l[i..]
    ensures i < |l| && j < |r| ==>
      Merged(l[i..], r[j..]) ==
      if l[i] <= r[j] then [l[i]] + Merged(l[i + 1..], r[j..]) else [r[j]] + Merged(l[i..], r[j + 1..])
  {
    if i < |l| {
      assert l[i..][1..] == l[i + 1..];
    }
    if j < |r| {
      assert r[j..][1..] == r[j + 1..];
    }
  }

  /** Copies a range into a new array, as the first two loops of `merge`. */
  method CopyRange(a: array<int>, lo: nat, n: nat) returns (c: array<int>)
    requires lo + n <= a.Length
    ensures fresh(c) && c.Length == n && c[..] == a[lo..lo + n]
  {
    c := new int[n];
    for i := 0 to n
      invariant c[..i] == a[lo..lo + i]
    {
      c[i] := a[lo + i];
    }
  }

  /** Copies what is left of a run, as the last two loops of `merge`. */
  method CopyRest(a: array<int>, k: nat, c: array<int>, i: nat) returns (k': nat)
    requires i <= c.Length && k + (c.Length - i) <= a.Length && a != c
    modifies a
    ensures k' == k + (c.Length - i)
    ensures a[k..k'] == c[i..] && forall q :: 0 <= q < k || k' <= q < a.Length ==> a[q] == old(a[q])
  {
    k' := k;
    var p := i;
    while p < c.Length
      invariant i <= p <= c.Length && k' == k + (p - i)
      invariant a[k..k'] == c[i..p] && forall q :: 0 <= q < k || k' <= q < a.Length ==> a[q] == old(a[q])
    {
      a[k'] := c[p];
      k', p := k' + 1, p + 1;
    }
  }

  /** `merge` */
  method Merge(a: array<int>, l: nat, m: nat, r: nat)
    requires l <= m < r < a.Length
    modifies a
    ensures a[l..r + 1] == Merged(old(a[l..m + 1]), old(a[m + 1..r + 1]))
    ensures a[..l] == old(a[..l]) && a[r + 1..] == old(a[r + 1..])
  {
    hide Merged;
    var left := CopyRange(a, l, m - l + 1);
    var right := CopyRange(a, m + 1, r - m);
    var i, j, k := MergeBoth(a, l, left, right);
    FinishMerge(a, l, left, i, right, j, k);
  }

  /** The last two loops of `merge`, of which at most one has anything to do. */
  method FinishMerge(a: array<int>, l: nat, left: array<int>, i: nat, right: array<int>, j: nat, k: nat)
    requires a != left && a != right && l + left.Length + right.Length <= a.Length
    requires i <= left.Length && j <= right.Length && k == l + i + j && (i == left.Length || j == right.Length)
    modifies a
    ensures var n := l + left.Length + right.Length;
            && a[l..n] == old(a[l..k]) + Merged(left[i..], right[j..])
            && forall p :: 0 <= p < l || n <= p < a.Length ==> a[p] == old(a[p])
  {
    hide Merged;
    ghost var done, x, y := a[l..k], left[i..], right[j..];
    MergedRest(left[..], right[..], i, j);
    assert left[..][i..] == x && right[..][j..] == y;
    var k1 := CopyRest(a, k, left, i);
    Glued(a[l..k1], done, x);
    var k2 := CopyRest(a, k1, right, j);
    Glued(a[l..k2], done + x, y);
    Associates(done, x, y);
  }

  /** When one run is used up, what is left to merge is the rest of the other. */
  lemma MergedRest(l: seq<int>, r: seq<int>, i: nat, j: nat)
    requires i <= |l| && j <= |r| && (i == |l| || j == |r|)
    ensures Merged(l[i..], r[j..]) == l[i..] + r[j..]
  {
    MergedStep(l, r, i, j);
    hide Merged;
    assert i == |l| ==> l[i..] + r[j..] == r[j..];
    assert j == |r| ==> l[i..] + r[j..] == l[i..];
  }

  lemma Glued(all: seq<int>, front: seq<int>, back: seq<int>)
    requires |all| == |front| + |back| && all[..|front|] == front && all[|front|..] == back
    ensures all == front + back
  {}

  /** The middle loop of `merge`: while both runs last. */
  method MergeBoth(a: array<int>, l: nat, left: array<int>, right: array<int>) returns (i: nat, j: nat, k: nat)
    requires a != left && a != right && l + left.Length + right.Length <= a.Length
    modifies a
    ensures i <= left.Length && j <= right.Length && k == l + i + j && (i == left.Length || j == right.Length)
    ensures forall p :: 0 <= p < l || k <= p < a.Length ==> a[p] == old(a[p])
    ensures a[l..k] + Merged(left[i..], right[j..]) == Merged(left[..], right[..])
  {
    hide Merged;
    ghost var x, y := left[..], right[..];
    i, j, k := 0, 0, l;
    ghost var done := [];
    MergeBegins(x, y);
    while i < left.Length && j < right.Length
      invariant i <= left.Length && j <= right.Length && k == l + i + j
      invariant forall p :: 0 <= p < l || k <= p < a.Length ==> a[p] == old(a[p])
      invariant a[l..k] == done && done + Merged(x[i..], y[j..]) == Merged(x, y)
      decreases left.Length + right.Length - i - j
    {
      MergeRound(x, y, i, j, done);
      ghost var c := if x[i] <= y[j] then x[i] else y[j];
      if left[i] <= right[j] {
        a[k] := left[i];
        i := i + 1;
      } else {
        a[k] := right[j];
        j := j + 1;
      }
      SliceGrows(a, l, k, done, c);
      done := done + [c];
      k := k + 1;
    }
  }

  lemma MergeBegins(x: seq<int>, y: seq<int>)
    ensures [] + Merged(x[0..], y[0..]) == Merged(x, y)
  {
    hide Merged;
    assert x[0..] == x && y[0..] == y;
  }

  /** What is merged so far grows by the smaller of the two heads. */
  lemma MergeRound(x: seq<int>, y: seq<int>, i: nat, j: nat, done: seq<int>)
    requires i < |x| && j < |y| && done + Merged(x[i..], y[j..]) == Merged(x, y)
    ensures if x[i] <= y[j] then done + [x[i]] + Merged(x[i + 1..], y[j..]) == Merged(x, y)
            else done + [y[j]] + Merged(x[i..], y[j + 1..]) == Merged(x, y)
  {
    hide Merged;
    MergedStep(x, y, i, j);
    if x[i] <= y[j] {
      Associates(done, [x[i]], Merged(x[i + 1..], y[j..]));
    } else {
      Associates(done, [y[j]], Merged(x[i..], y[j + 1..]));
    }
  }

  lemma Associates(a: seq<int>, b: seq<int>, c: seq<int>)
    ensures a + (b + c) == a + b + c
  {}

  lemma SliceGrows(a: array<int>, l: nat, k: nat, done: seq<int>, c: int)
    requires l <= k < a.Length && |done| == k - l && a[k] == c
    requires forall p :: l <= p < k ==> a[p] == done[p - l]
    ensures a[l..k + 1] == done + [c]
  {}

  /** `sort` on the range from `l` to `r`: nothing else is touched. */
  method Sort(arr: array<int>, l: int, r: int)
    requires 0 <= l && r < arr.Length && l <= r + 1
    modifies arr
    ensures arr[l..r + 1] == Sorted(old(arr[l..r + 1]))
    ensures arr[..l] == old(arr[..l]) && arr[r + 1..] == old(arr[r + 1..])
    decreases r - l
  {
    if l < r {
      var mid := l + (r - l) / 2;
      SortHalves(arr, l, mid, r);
      Merge(arr, l, mid, r);
    }
  }

  /** The two recursive calls. */
  method SortHalves(arr: array<int>, l: int, mid: int, r: int)
    requires 0 <= l < r < arr.Length && mid == l + (r - l) / 2
    modifies arr
    ensures var s := old(arr[l..r + 1]); var h := (|s| + 1) / 2;
            arr[l..mid + 1] == Sorted(s[..h]) && arr[mid + 1..r + 1] == Sorted(s[h..])
    ensures arr[..l] == old(arr[..l]) && arr[r + 1..] == old(arr[r + 1..])
    decreases r - l, 0
  {
    hide Sorted;
    ghost var s := arr[l..r + 1];
    ghost var h := mid + 1 - l;
    ghost var before, after := arr[..l], arr[r + 1..];
    assert arr[l..mid + 1] == s[..h] && arr[mid + 1..] == s[h..] + after;
    Sort(arr, l, mid);
    ghost var front := arr[..mid + 1];
    assert arr[mid + 1..r + 1] == s[h..] && arr[r + 1..] == after;
    Sort(arr, mid + 1, r);
    assert arr[..l] == front[..l] && arr[l..mid + 1] == front[l..];
  }

  /** `search` */
  method Search(arr: array<int>, x: int, left: int, right: int) returns (res: int)
    requires 0 <= left && right < arr.Length && left <= right + 1
    requires Ascending(arr[left..right + 1])
    ensures res == if x in arr[left..right + 1] then 1 else 0
  {
    ghost var s := arr[left..right + 1];
    var lo, hi := left, right;
    while lo <= hi
      invariant left <= lo <= hi + 1 <= right + 1
      invariant forall k :: 0 <= k < |s| && !(lo - left <= k <= hi - left) ==> s[k] != x
      decreases hi - lo
    {
      var m := (lo + hi) / 2;
      assert arr[m] == s[m - left];
      if arr[m] == x {
        return 1;
      } else if arr[m] < x {
        lo := m + 1;
      } else {
        hi := m - 1;
      }
    }
    res := 0;
  }

  /** A search after sorting says whether the value was in the range to begin with. */
  method SortAndSearch(arr: array<int>, x: int, l: int, r: int) returns (res: int)
    requires 0 <= l && r < arr.Length && l <= r + 1
    modifies arr
    ensures res == if x in old(arr[l..r + 1]) then 1 else 0
  {
    ghost var s := arr[l..r + 1];
    Sort(arr, l, r);
    SortedSorts(s);
    assert arr[l..r + 1] == Sorted(s);
    assert x in s <==> x in multiset(s);
    assert x in Sorted(s) <==> x in multiset(Sorted(s));
    res := Search(arr, x, l, r);
  }
}
