/** The mountain manager: a list of mountains that can be added to, removed
    from and edited, filtered by difficulty, and grouped by difficulty in
    ascending difficulty order. */
module MountainManager {
  import opened Results
  import opened Ordering
  import opened Mountains
  import InfiniteHashTable

  /** `list.remove`: the list without its first occurrence of `m`, or the
      list itself when `m` does not occur. */
  function RemoveFirst(s: seq<Mountain>, m: Mountain): seq<Mountain>
  {
    match IndexOf(s, m)
    case Some(i) => s[..i] + s[i + 1..]
    case None => s
  }

  /** Removing drops exactly one copy of `m` when there is one: the first,
      with everything before it and after it kept in order. */
  lemma RemoveFirstSpec(s: seq<Mountain>, m: Mountain)
    ensures m !in s ==> RemoveFirst(s, m) == s
    ensures m in s ==> multiset(RemoveFirst(s, m)) == multiset(s) - multiset{m}
    ensures m in s ==> |RemoveFirst(s, m)| == |s| - 1
    ensures m in s ==> exists i :: 0 <= i < |s| && s[i] == m && m !in s[..i]
                                   && RemoveFirst(s, m) == s[..i] + s[i + 1..]
  {
    if m in s {
      var i := IndexOf(s, m).value;
      assert s == s[..i] + [m] + s[i + 1..];
      assert multiset(s) == multiset(s[..i]) + multiset{m} + multiset(s[i + 1..]);
      assert m !in s[..i];
    }
  }

  /** A mountain appended to a list that did not hold it is what removing it
      takes away again. */
  lemma RemoveAppended(s: seq<Mountain>, m: Mountain)
    requires m !in s
    ensures RemoveFirst(s + [m], m) == s
  {
    assert (s + [m])[|s|] == m;
    assert forall k :: 0 <= k < |s| ==> (s + [m])[k] == s[k] != m;
  }

  /** The mountains of `s` with difficulty `diff`, in the order of `s`. */
  function WithDifficulty(s: seq<Mountain>, diff: int): seq<Mountain>
  {
    if s == [] then []
    else WithDifficulty(s[..|s| - 1], diff) + (if s[|s| - 1].difficultyLevel == diff then [s[|s| - 1]] else [])
  }

  /** Every mountain of difficulty `diff` is listed as often as it occurs,
      and no other mountain is listed. */
  lemma {:induction false} WithDifficultyCounts(s: seq<Mountain>, diff: int)
    ensures forall x :: multiset(WithDifficulty(s, diff))[x]
                     == if x.difficultyLevel == diff then multiset(s)[x] else 0
  {
    if s != [] {
      WithDifficultyCounts(s[..|s| - 1], diff);
      assert s == s[..|s| - 1] + [s[|s| - 1]];
    }
  }

  /** Exactly the mountains of `s` with difficulty `diff` are listed. */
  lemma WithDifficultyMembers(s: seq<Mountain>, diff: int, x: Mountain)
    ensures x in WithDifficulty(s, diff) <==> x in s && x.difficultyLevel == diff
  {
    WithDifficultyCounts(s, diff);
    assert x in WithDifficulty(s, diff) <==> multiset(WithDifficulty(s, diff))[x] > 0;
    assert x in s <==> multiset(s)[x] > 0;
  }

  /** Filtering keeps order: the filter of two lists one after the other is
      the filter of the first, then the filter of the second. */
  lemma {:induction false} WithDifficultyConcat(s: seq<Mountain>, t: seq<Mountain>, diff: int)
    ensures WithDifficulty(s + t, diff) == WithDifficulty(s, diff) + WithDifficulty(t, diff)
    decreases |t|
  {
    if t == [] {
      assert s + t == s;
    } else {
      var u := t[..|t| - 1];
      assert (s + t)[..|s + t| - 1] == s + u;
      assert (s + t)[|s + t| - 1] == t[|t| - 1];
      WithDifficultyConcat(s, u, diff);
    }
  }

  /** A list with no mountain of difficulty `diff` has none to list. */
  lemma WithDifficultyNone(s: seq<Mountain>, diff: int)
    requires forall j :: 0 <= j < |s| ==> s[j].difficultyLevel != diff
    ensures WithDifficulty(s, diff) == []
  {
    var r := WithDifficulty(s, diff);
    if r != [] {
      WithDifficultyMembers(s, diff, r[0]);
    }
  }

  /** `mountain_hash`: the difficulty modulo the table size, 27. Python's `%`
      floors and Dafny's is Euclidean; with a positive modulus the two agree,
      negative difficulties included. */
  function MountainHash(diffLevel: int): (r: nat)
    ensures r < InfiniteHashTable.TableSize
    ensures (diffLevel - r) % InfiniteHashTable.TableSize == 0
  {
    diffLevel % InfiniteHashTable.TableSize
  }

  /** Difficulties 0 to 26 each get their own slot; difficulties 27 apart
      share one. */
  lemma MountainHashSlots(d: int)
    ensures 0 <= d < InfiniteHashTable.TableSize ==> MountainHash(d) == d
    ensures MountainHash(d + InfiniteHashTable.TableSize) == MountainHash(d)
  {
  }

  /** No value occurs twice. */
  ghost predicate Distinct<T>(s: seq<T>)
  {
    forall i, j :: 0 <= i < j < |s| ==> s[i] != s[j]
  }

  lemma {:induction false} DistinctCounts<T>(s: seq<T>)
    requires Distinct(s)
    ensures forall x :: multiset(s)[x] <= 1
  {
    if s != [] {
      assert Distinct(s[1..]) by {
        forall i, j | 0 <= i < j < |s| - 1
          ensures s[1..][i] != s[1..][j]
        {
          assert s[1..][i] == s[i + 1] && s[1..][j] == s[j + 1];
        }
      }
      DistinctCounts(s[1..]);
      assert s == [s[0]] + s[1..];
      assert s[0] !in s[1..];
    }
  }

  lemma CountsDistinct<T>(t: seq<T>)
    requires forall x :: multiset(t)[x] <= 1
    ensures Distinct(t)
  {
    forall i, j | 0 <= i < j < |t|
      ensures t[i] != t[j]
    {
      assert t == t[..j] + t[j..];
      assert t[i] == t[..j][i] && t[j] == t[j..][0];
      assert multiset(t)[t[j]] == multiset(t[..j])[t[j]] + multiset(t[j..])[t[j]];
      assert multiset(t[j..])[t[j]] >= 1;
      assert t[j] !in t[..j];
    }
  }

  /** Any order of a list without repetitions is without repetitions. */
  lemma DistinctPermuted<T>(s: seq<T>, t: seq<T>)
    requires Distinct(s) && multiset(s) == multiset(t)
    ensures Distinct(t)
  {
    DistinctCounts(s);
    CountsDistinct(t);
  }

  lemma IntLessIsStrictOrder()
    ensures StrictOrder((a: int, b: int) => a < b)
  {
  }

  /** Ascending without repetitions is strictly ascending. */
  lemma StrictlyAscending(s: seq<int>)
    requires Ascending(s, (a: int, b: int) => a < b) && Distinct(s)
    ensures forall i, j :: 0 <= i < j < |s| ==> s[i] < s[j]
  {
    forall i, j | 0 <= i < j < |s|
      ensures s[i] < s[j]
    {
      assert !(s[j] < s[i]) && s[i] != s[j];
    }
  }

  /** `group_by_difficulty` as written, on the root of its table: `in` asks
      the root table, whose `__getitem__` answers a slot holding another
      difficulty with no value instead of `KeyError`, so `in` says yes; the
      lookup then hands back that no value, which has no `append`. `None`
      stands for that failure. Nested tables are never reached: the first
      shared slot already fails. */
  function GroupAsWritten(ms: seq<Mountain>): Option<map<nat, (int, seq<Mountain>)>>
  {
    if ms == [] then Some(map[])
    else match GroupAsWritten(ms[..|ms| - 1])
      case None => None
      case Some(root) =>
        var m := ms[|ms| - 1];
        var h := MountainHash(m.difficultyLevel);
        if h !in root then Some(root[h := (m.difficultyLevel, [m])])
        else if root[h].0 == m.difficultyLevel then Some(root[h := (root[h].0, root[h].1 + [m])])
        else None
  }

  /** Difficulties 1 and 28 share slot 1: as written the grouping fails on
      the second mountain, where there are two groups to return. */
  lemma GroupAsWrittenSharedSlot()
    ensures var ms := [Mountain("A", 1), Mountain("B", 28)];
      && GroupAsWritten(ms).None?
      && WithDifficulty(ms, 1) == [ms[0]]
      && WithDifficulty(ms, 28) == [ms[1]]
  {
    var ms := [Mountain("A", 1), Mountain("B", 28)];
    assert ms[..1] == [Mountain("A", 1)] && ms[..1][..0] == [];
    assert MountainHash(1) == 1 && MountainHash(28) == 1;
  }

  class MountainManager {
    var mountains: seq<Mountain>

    constructor()
      ensures mountains == []
    {
      mountains := [];
    }

    /** `add_mountain`: the mountain goes at the end of the list. */
    method AddMountain(m: Mountain)
      modifies this
      ensures mountains == old(mountains) + [m]
    {
      mountains := mountains + [m];
    }

    /** `remove_mountain`: the first equal mountain goes, if there is one. */
    method RemoveMountain(m: Mountain)
      modifies this
      ensures mountains == RemoveFirst(old(mountains), m)
      ensures multiset(mountains) == multiset(old(mountains)) - multiset{m}
    {
      RemoveFirstSpec(mountains, m);
      if m in mountains {
        mountains := RemoveFirst(mountains, m);
      }
    }

    /** `edit_mountain`: when `previous` is on the list, its first copy goes
        and `replacement` is appended; otherwise nothing changes. */
    method EditMountain(previous: Mountain, replacement: Mountain)
      modifies this
      ensures previous in old(mountains) ==> mountains == RemoveFirst(old(mountains), previous) + [replacement]
      ensures previous in old(mountains) ==>
        multiset(mountains) == multiset(old(mountains)) - multiset{previous} + multiset{replacement}
      ensures previous !in old(mountains) ==> mountains == old(mountains)
    {
      if previous in mountains {
        RemoveMountain(previous);
        AddMountain(replacement);
      }
    }

    /** `mountains_with_difficulty`: the mountains of difficulty `diff`, in
        list order. */
    method MountainsWithDifficulty(diff: int) returns (r: seq<Mountain>)
      ensures r == WithDifficulty(mountains, diff)
    {
      r := [];
      for k := 0 to |mountains|
        invariant r == WithDifficulty(mountains[..k], diff)
      {
        assert mountains[..k + 1][..k] == mountains[..k];
        if mountains[k].difficultyLevel == diff {
          r := r + [mountains[k]];
        }
      }
      assert mountains[..|mountains|] == mountains;
    }

    /** `group_by_difficulty`: one group per difficulty on the list, in
        strictly ascending difficulty, each group holding that difficulty's
        mountains in list order. The table is keyed by difficulty; the keys
        are listed as stored and sorted with `quick_sort`. */
    method GroupByDifficulty() returns (groups: seq<seq<Mountain>>)
      ensures forall i :: 0 <= i < |groups| ==>
        groups[i] != [] && groups[i] == WithDifficulty(mountains, groups[i][0].difficultyLevel)
      ensures forall i, j :: 0 <= i < j < |groups| ==>
        groups[i][0].difficultyLevel < groups[j][0].difficultyLevel
      ensures forall m :: m in mountains ==>
        exists i :: 0 <= i < |groups| && groups[i][0].difficultyLevel == m.difficultyLevel
    {
      var grouped, stored := Tally(mountains);
      assert mountains[..|mountains|] == mountains;
      IntLessIsStrictOrder();
      var sortedKeys := InfiniteHashTable.QuickSort(stored, (a: int, b: int) => a < b);
      DistinctPermuted(stored, sortedKeys);
      StrictlyAscending(sortedKeys);
      forall k | 0 <= k < |sortedKeys|
        ensures sortedKeys[k] in grouped
      {
        assert sortedKeys[k] in multiset(stored);
      }
      groups := LookUpAll(grouped, sortedKeys);
      GroupsFacts(mountains, grouped, sortedKeys, groups);
    }
  }

  /** The loop of `group_by_difficulty` that fills the table: each mountain
      is appended to its difficulty's group, which is created, and its key
      listed, on the difficulty's first mountain. */
  method Tally(ms: seq<Mountain>) returns (grouped: map<int, seq<Mountain>>, stored: seq<int>)
    ensures Tallied(ms, |ms|, grouped, stored)
  {
    grouped, stored := map[], [];
    for k := 0 to |ms|
      invariant Tallied(ms, k, grouped, stored)
    {
      var m := ms[k];
      var d := m.difficultyLevel;
      ghost var (g0, s0) := (grouped, stored);
      if d in grouped {
        grouped := grouped[d := grouped[d] + [m]];
      } else {
        grouped := grouped[d := [m]];
        stored := stored + [d];
      }
      TallyStep(ms, k, g0, s0, grouped, stored);
    }
  }

  /** The table after the first `k` mountains: its keys are the listed keys,
      listed once each; every difficulty met has a group, and each group is
      the filter of those mountains by its difficulty. */
  ghost predicate Tallied(ms: seq<Mountain>, k: nat, grouped: map<int, seq<Mountain>>, stored: seq<int>)
    requires k <= |ms|
  {
    && (forall d :: d in grouped <==> d in stored)
    && Distinct(stored)
    && (forall j :: 0 <= j < k ==> ms[j].difficultyLevel in grouped)
    && (forall d :: d in grouped ==> grouped[d] != [] && grouped[d] == WithDifficulty(ms[..k], d))
  }

  lemma TallyStep(ms: seq<Mountain>, k: nat, grouped: map<int, seq<Mountain>>, stored: seq<int>,
                  grouped': map<int, seq<Mountain>>, stored': seq<int>)
    requires k < |ms| && Tallied(ms, k, grouped, stored)
    requires var m := ms[k]; var d := m.difficultyLevel;
      && (d in grouped ==> grouped' == grouped[d := grouped[d] + [m]] && stored' == stored)
      && (d !in grouped ==> grouped' == grouped[d := [m]] && stored' == stored + [d])
    ensures Tallied(ms, k + 1, grouped', stored')
  {
    var m := ms[k];
    var d := m.difficultyLevel;
    if d !in grouped {
      forall j | 0 <= j < k
        ensures ms[..k][j].difficultyLevel != d
      {
        assert ms[j].difficultyLevel in grouped;
      }
      WithDifficultyNone(ms[..k], d);
      assert d !in stored;
      DistinctAppend(stored, d);
    }
    assert Distinct(stored');
    assert forall e :: e in grouped' <==> e in stored';
    TallyStepGroups(ms, k, grouped, grouped');
    forall j | 0 <= j < k + 1
      ensures ms[j].difficultyLevel in grouped'
    {
      if j < k {
        assert ms[j].difficultyLevel in grouped;
      }
    }
  }

  /** Each group stays the filter of the mountains so far. */
  lemma TallyStepGroups(ms: seq<Mountain>, k: nat, grouped: map<int, seq<Mountain>>,
                        grouped': map<int, seq<Mountain>>)
    requires k < |ms|
    requires forall d :: d in grouped ==> grouped[d] != [] && grouped[d] == WithDifficulty(ms[..k], d)
    requires var m := ms[k]; var d := m.difficultyLevel;
      && (d in grouped ==> grouped' == grouped[d := grouped[d] + [m]])
      && (d !in grouped ==> grouped' == grouped[d := [m]] && WithDifficulty(ms[..k], d) == [])
    ensures forall d :: d in grouped' ==> grouped'[d] != [] && grouped'[d] == WithDifficulty(ms[..k + 1], d)
  {
    var d := ms[k].difficultyLevel;
    forall e | e in grouped'
      ensures grouped'[e] != [] && grouped'[e] == WithDifficulty(ms[..k + 1], e)
    {
      WithDifficultyStep(ms, k, e);
      if e != d {
        assert grouped'[e] == grouped[e];
      }
    }
  }

  /** The filter of one more mountain. */
  lemma WithDifficultyStep(ms: seq<Mountain>, k: nat, e: int)
    requires k < |ms|
    ensures WithDifficulty(ms[..k + 1], e)
         == WithDifficulty(ms[..k], e) + (if ms[k].difficultyLevel == e then [ms[k]] else [])
  {
    assert ms[..k + 1][..k] == ms[..k];
  }

  lemma DistinctAppend<T>(s: seq<T>, x: T)
    requires Distinct(s) && x !in s
    ensures Distinct(s + [x])
  {
  }

  /** The list comprehension of `group_by_difficulty`: the group of each
      key, in the order of the keys. */
  method LookUpAll(grouped: map<int, seq<Mountain>>, keys: seq<int>) returns (groups: seq<seq<Mountain>>)
    requires forall k :: 0 <= k < |keys| ==> keys[k] in grouped
    ensures |groups| == |keys|
    ensures forall i :: 0 <= i < |keys| ==> groups[i] == grouped[keys[i]]
  {
    groups := [];
    for k := 0 to |keys|
      invariant |groups| == k
      invariant forall i :: 0 <= i < k ==> groups[i] == grouped[keys[i]]
    {
      groups := groups + [grouped[keys[k]]];
    }
  }

  /** The groups looked up in strictly ascending key order are the filters
      of the list by those keys, one for every difficulty on the list. */
  lemma GroupsFacts(ms: seq<Mountain>, grouped: map<int, seq<Mountain>>, keys: seq<int>,
                    groups: seq<seq<Mountain>>)
    requires forall d :: d in grouped ==> grouped[d] != [] && grouped[d] == WithDifficulty(ms, d)
    requires forall j :: 0 <= j < |ms| ==> ms[j].difficultyLevel in grouped
    requires forall d :: d in grouped ==> d in multiset(keys)
    requires forall k :: 0 <= k < |keys| ==> keys[k] in grouped
    requires forall i, j :: 0 <= i < j < |keys| ==> keys[i] < keys[j]
    requires |groups| == |keys| && forall i :: 0 <= i < |keys| ==> groups[i] == grouped[keys[i]]
    ensures forall i :: 0 <= i < |groups| ==>
      groups[i] != [] && groups[i] == WithDifficulty(ms, groups[i][0].difficultyLevel)
    ensures forall i, j :: 0 <= i < j < |groups| ==>
      groups[i][0].difficultyLevel < groups[j][0].difficultyLevel
    ensures forall m :: m in ms ==>
      exists i :: 0 <= i < |groups| && groups[i][0].difficultyLevel == m.difficultyLevel
  {
    forall i | 0 <= i < |groups|
      ensures groups[i] != [] && groups[i][0].difficultyLevel == keys[i]
      ensures groups[i] == WithDifficulty(ms, groups[i][0].difficultyLevel)
    {
      assert keys[i] in grouped;
      GroupKey(ms, keys[i], groups[i]);
    }
    GroupsCover(ms, grouped, keys, groups);
  }

  /** Every difficulty on the list heads one of the groups. */
  lemma GroupsCover(ms: seq<Mountain>, grouped: map<int, seq<Mountain>>, keys: seq<int>,
                    groups: seq<seq<Mountain>>)
    requires forall d :: d in grouped ==> grouped[d] != [] && grouped[d] == WithDifficulty(ms, d)
    requires forall j :: 0 <= j < |ms| ==> ms[j].difficultyLevel in grouped
    requires forall d :: d in grouped ==> d in multiset(keys)
    requires |groups| == |keys| && forall i :: 0 <= i < |keys| ==> keys[i] in grouped && groups[i] == grouped[keys[i]]
    requires forall i :: 0 <= i < |groups| ==> groups[i] != []
    ensures forall m :: m in ms ==>
      exists i :: 0 <= i < |groups| && groups[i][0].difficultyLevel == m.difficultyLevel
  {
    forall m | m in ms
      ensures exists i :: 0 <= i < |groups| && groups[i][0].difficultyLevel == m.difficultyLevel
    {
      var j :| 0 <= j < |ms| && ms[j] == m;
      var i := KeyPosition(keys, m.difficultyLevel);
      GroupKey(ms, keys[i], groups[i]);
    }
  }

  /** A non-empty filter by `diff` starts with a mountain of difficulty `diff`. */
  lemma GroupKey(ms: seq<Mountain>, diff: int, group: seq<Mountain>)
    requires group != [] && group == WithDifficulty(ms, diff)
    ensures group[0].difficultyLevel == diff
  {
    WithDifficultyMembers(ms, diff, group[0]);
  }

  lemma KeyPosition(keys: seq<int>, d: int) returns (i: nat)
    requires d in multiset(keys)
    ensures i < |keys| && keys[i] == d
  {
    i :| 0 <= i < |keys| && keys[i] == d;
  }
}
