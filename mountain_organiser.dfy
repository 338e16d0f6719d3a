/** `MountainOrganiser`: keeps every mountain added so far in one list,
    sorted in place by a quicksort that takes the middle element as pivot and
    partitions Lomuto-style, so that a mountain's position is its rank. */
module MountainOrganiser {
  import opened Results
  import opened Ordering
  import opened Mountains

  /** `s` is `t` with its elements rearranged, and nothing outside positions
      `lo` to `hi` moved. */
  ghost predicate Permuted(s: seq<Mountain>, t: seq<Mountain>, lo: int, hi: int)
  {
    && |s| == |t|
    && multiset(s) == multiset(t)
    && forall k :: 0 <= k < |s| && (k < lo || hi < k) ==> s[k] == t[k]
  }

  /** How many mountains of `s` come strictly before `m` in the order. */
  function CountLess(s: seq<Mountain>, m: Mountain): (r: nat)
    ensures r <= |s|
  {
    if s == [] then 0 else CountLess(s[..|s| - 1], m) + (if MLess(s[|s| - 1], m) then 1 else 0)
  }

  /** In a sorted list the first position of a mountain is its rank: the
      number of mountains ordered strictly before it. */
  lemma RankIsIndex(s: seq<Mountain>, m: Mountain)
    requires Sorted(s) && m in s
    ensures IndexOf(s, m).Some? && IndexOf(s, m).value == CountLess(s, m)
  {
    var i := IndexOf(s, m).value;
    forall k | 0 <= k < i
      ensures MLess(s[k], m)
    {
      MLessTrichotomy(s[k], m);
    }
    CountUpTo(s, m, i, |s|);
    assert s[..|s|] == s;
  }

  lemma {:induction false} CountUpTo(s: seq<Mountain>, m: Mountain, i: nat, n: nat)
    requires Sorted(s) && i < |s| && s[i] == m && n <= |s|
    requires forall k :: 0 <= k < i ==> MLess(s[k], m)
    ensures CountLess(s[..n], m) == if n <= i then n else i
  {
    if n > 0 {
      assert s[..n][..n - 1] == s[..n - 1];
      CountUpTo(s, m, i, n - 1);
      if n - 1 == i {
        MLessIrreflexive(m);
      }
    }
  }

  lemma SwapPermutes(s: seq<Mountain>, i: nat, j: nat, lo: int, hi: int, original: seq<Mountain>)
    requires i < |s| && j < |s| && lo <= i <= hi && lo <= j <= hi && Permuted(s, original, lo, hi)
    ensures Permuted(s[i := s[j]][j := s[i]], original, lo, hi)
  {
    SwapMultiset(s, i, j);
  }

  /** Swapping two elements keeps the same mountains. */
  lemma SwapMultiset(s: seq<Mountain>, i: nat, j: nat)
    requires i < |s| && j < |s|
    ensures multiset(s[i := s[j]][j := s[i]]) == multiset(s)
  {
    var t := s[i := s[j]];
    assert multiset(t) == multiset(s) - multiset{s[i]} + multiset{s[j]};
    assert multiset(t[j := s[i]]) == multiset(t) - multiset{s[j]} + multiset{s[i]};
  }

  /** What a permutation that keeps everything outside `lo..hi` in place
      finds inside it: the same mountains as before. */
  lemma {:induction false} SegmentKept(s: seq<Mountain>, t: seq<Mountain>, lo: int, hi: int)
    requires Permuted(s, t, lo, hi) && 0 <= lo <= hi + 1 <= |s|
    ensures multiset(s[lo..hi + 1]) == multiset(t[lo..hi + 1])
  {
    assert s == s[..lo] + s[lo..hi + 1] + s[hi + 1..];
    assert t == t[..lo] + t[lo..hi + 1] + t[hi + 1..];
    assert s[..lo] == t[..lo];
    assert s[hi + 1..] == t[hi + 1..];
    assert multiset(s) == multiset(s[..lo]) + multiset(s[lo..hi + 1]) + multiset(s[hi + 1..]);
    assert multiset(t) == multiset(t[..lo]) + multiset(t[lo..hi + 1]) + multiset(t[hi + 1..]);
    assert multiset(s[lo..hi + 1]) == multiset(s) - multiset(s[..lo]) - multiset(s[hi + 1..]);
    assert multiset(t[lo..hi + 1]) == multiset(t) - multiset(t[..lo]) - multiset(t[hi + 1..]);
  }

  /** A bound that held for every mountain in `lo..hi` still holds after
      they are permuted among themselves. */
  lemma BoundKept(s: seq<Mountain>, t: seq<Mountain>, lo: int, hi: int, pivot: Mountain, below: bool)
    requires Permuted(s, t, lo, hi) && 0 <= lo <= hi + 1 <= |s|
    requires forall k :: lo <= k <= hi ==> MLess(t[k], pivot) == below
    ensures forall k :: lo <= k <= hi ==> MLess(s[k], pivot) == below
  {
    SegmentKept(s, t, lo, hi);
    forall k | lo <= k <= hi
      ensures MLess(s[k], pivot) == below
    {
      assert s[k] == s[lo..hi + 1][k - lo];
      assert s[k] in multiset(t[lo..hi + 1]);
      var k' :| 0 <= k' < |t[lo..hi + 1]| && t[lo..hi + 1][k'] == s[k];
      assert t[lo + k'] == s[k];
    }
  }

  /** Partway through `partition`: the pivot at `start`, then the smaller
      mountains up to `boundary`, then the others up to `i`. */
  ghost predicate PartitionedUpTo(s: seq<Mountain>, start: int, boundary: int, i: int, pivot: Mountain)
  {
    && 0 <= start <= boundary < i <= |s| && s[start] == pivot
    && (forall k :: start < k <= boundary ==> MLess(s[k], pivot))
    && (forall k :: boundary < k < i ==> !MLess(s[k], pivot))
  }

  /** The last swap of `partition` puts the pivot between the smaller
      mountains and the others. */
  lemma PivotPlaced(s: seq<Mountain>, start: int, boundary: int, end: int, pivot: Mountain)
    requires PartitionedUpTo(s, start, boundary, end + 1, pivot)
    ensures var t := s[start := s[boundary]][boundary := s[start]];
      && t[boundary] == pivot
      && (forall k :: start <= k < boundary ==> MLess(t[k], pivot))
      && (forall k :: boundary < k <= end ==> !MLess(t[k], pivot))
  {
  }

  /** Smaller mountains sorted, pivot, not-smaller mountains sorted: all of
      `lo..hi` is sorted. */
  lemma JoinSorted(s: seq<Mountain>, lo: int, p: int, hi: int)
    requires 0 <= lo <= p <= hi < |s|
    requires SortedBetween(s, lo, p - 1) && SortedBetween(s, p + 1, hi)
    requires forall k :: lo <= k < p ==> MLess(s[k], s[p])
    requires forall k :: p < k <= hi ==> !MLess(s[k], s[p])
    ensures SortedBetween(s, lo, hi)
  {
    forall i, j | lo <= i < j <= hi
      ensures !MLess(s[j], s[i])
    {
      if i < p && p <= j {
        MLessAsymmetric(s[i], s[p]);
        if j > p && MLess(s[j], s[i]) {
          MLessTransitive(s[j], s[i], s[p]);
        }
      } else if i == p {
        assert !MLess(s[j], s[p]);
      }
    }
  }

  class MountainOrganiser {
    /** The mountains added so far, in ascending order. */
    var mountains: array<Mountain>

    ghost predicate Valid()
      reads this, mountains
    {
      Sorted(mountains[..])
    }

    constructor()
      ensures Valid() && mountains.Length == 0 && fresh(mountains)
    {
      mountains := new Mountain[0];
    }

    /** `cur_position`: the index of the first mountain equal to `m`, which
        in the sorted list is its rank; `KeyError` when it was never added. */
    function CurPosition(m: Mountain): (r: Result<nat>)
      reads this, mountains
      ensures r.Ok? ==> r.value < mountains.Length && mountains[r.value] == m
      ensures r.Ok? ==> forall k :: 0 <= k < r.value ==> mountains[k] != m
      ensures r.Err? <==> m !in mountains[..]
      ensures r.Err? ==> r.error == KeyError
    {
      match IndexOf(mountains[..], m)
      case Some(i) => Ok(i)
      case None => Err(KeyError)
    }

    /** `add_mountains`: extend the list by `ms` and sort it. */
    method AddMountains(ms: seq<Mountain>)
      modifies this
      ensures Valid() && fresh(mountains)
      ensures multiset(mountains[..]) == multiset(old(mountains[..])) + multiset(ms)
    {
      var n := mountains.Length;
      var extended := new Mountain[n + |ms|];
      forall k | 0 <= k < n {
        extended[k] := mountains[k];
      }
      forall k | n <= k < n + |ms| {
        extended[k] := ms[k - n];
      }
      assert extended[..] == old(mountains[..]) + ms;
      MountainQuickSort(extended);
      mountains := extended;
    }

    /** `mountain_quick_sort`: sort all of `a`. */
    method MountainQuickSort(a: array<Mountain>)
      modifies a
      ensures Sorted(a[..]) && multiset(a[..]) == multiset(old(a[..]))
    {
      SortAuxiliary(a, 0, a.Length - 1);
    }

    /** `sort_auxiliary`: sort positions `start` to `end` (both included) of
        `a` by partitioning and sorting both sides; nothing to do when the
        range holds at most one mountain. */
    method SortAuxiliary(a: array<Mountain>, start: int, end: int)
      requires 0 <= start <= end + 1 <= a.Length
      modifies a
      ensures SortedBetween(a[..], start, end)
      ensures Permuted(a[..], old(a[..]), start, end)
      ensures start >= end ==> a[..] == old(a[..])
      decreases end - start
    {
      if start < end {
        var boundary := Partition(a, start, end);
        ghost var parted := a[..];
        SortAuxiliary(a, start, boundary - 1);
        ghost var left := a[..];
        SortAuxiliary(a, boundary + 1, end);
        BoundKept(left, parted, start, boundary - 1, a[boundary], true);
        BoundKept(a[..], left, boundary + 1, end, a[boundary], false);
        JoinSorted(a[..], start, boundary, end);
      }
    }

    /** `partition`: move the middle mountain to `start` as pivot, gather the
        mountains smaller than it right after it, and swap the pivot to the
        end of that run, whose position is returned. */
    method Partition(a: array<Mountain>, start: int, end: int) returns (boundary: int)
      requires 0 <= start < end < a.Length
      modifies a
      ensures start <= boundary <= end
      ensures a[boundary] == old(a[(start + end) / 2])
      ensures forall k :: start <= k < boundary ==> MLess(a[k], a[boundary])
      ensures forall k :: boundary < k <= end ==> !MLess(a[k], a[boundary])
      ensures Permuted(a[..], old(a[..]), start, end)
    {
      ghost var original := a[..];
      var mid := (start + end) / 2;
      var pivot := a[mid];
      Swap(a, start, mid, start, end, original);
      boundary := start;
      for i := start + 1 to end + 1
        invariant PartitionedUpTo(a[..], start, boundary, i, pivot)
        invariant Permuted(a[..], original, start, end)
      {
        boundary := PartitionStep(a, start, end, i, boundary, pivot, original);
      }
      PivotPlaced(a[..], start, boundary, end, pivot);
      Swap(a, start, boundary, start, end, original);
    }

    /** One turn of the loop of `partition`: a mountain smaller than the
        pivot joins the run right after it. */
    method PartitionStep(a: array<Mountain>, start: int, end: int, i: int, boundary: int, pivot: Mountain,
                         ghost original: seq<Mountain>) returns (b: int)
      requires start < i <= end < a.Length
      requires PartitionedUpTo(a[..], start, boundary, i, pivot) && Permuted(a[..], original, start, end)
      modifies a
      ensures PartitionedUpTo(a[..], start, b, i + 1, pivot) && Permuted(a[..], original, start, end)
    {
      b := boundary;
      var smaller := false;
      if a[i].difficultyLevel < pivot.difficultyLevel {
        smaller := true;
      } else if a[i].difficultyLevel == pivot.difficultyLevel {
        smaller := StrLess(a[i].name, pivot.name);
      }
      if smaller {
        b := b + 1;
        Swap(a, i, b, start, end, original);
      }
    }

    /** The tuple swap `lst[i], lst[j] = lst[j], lst[i]`. */
    method Swap(a: array<Mountain>, i: int, j: int, lo: int, hi: int, ghost original: seq<Mountain>)
      requires 0 <= lo <= i <= hi < a.Length && lo <= j <= hi
      requires Permuted(a[..], original, lo, hi)
      modifies a
      ensures a[..] == old(a[..])[i := old(a[j])][j := old(a[i])]
      ensures Permuted(a[..], original, lo, hi)
    {
      SwapPermutes(a[..], i, j, lo, hi, original);
      a[i], a[j] := a[j], a[i];
    }
  }
}
