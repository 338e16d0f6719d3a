/** A mountain as the organiser, the manager and the trails see it: a name
    and a difficulty level, compared by difficulty and then by name. */
module Mountains {
  import opened Results
  import opened Ordering

  datatype Mountain = Mountain(name: string, difficultyLevel: int)

  /** The index `list.index` returns: the first position holding `m`. */
  function IndexOf(s: seq<Mountain>, m: Mountain): (r: Option<nat>)
    ensures r.Some? ==> r.value < |s| && s[r.value] == m && forall k :: 0 <= k < r.value ==> s[k] != m
    ensures r.None? <==> m !in s
  {
    if s == [] then None
    else if s[0] == m then Some(0)
    else match IndexOf(s[1..], m)
      case Some(i) => Some(i + 1)
      case None => None
  }

  /** The order the organiser sorts by: lower difficulty first, and on equal
      difficulty the name that is smaller under Python's string `<`. */
  predicate MLess(a: Mountain, b: Mountain)
  {
    a.difficultyLevel < b.difficultyLevel
    || (a.difficultyLevel == b.difficultyLevel && StrLess(a.name, b.name))
  }

  lemma MLessIrreflexive(a: Mountain)
    ensures !MLess(a, a)
  {
    StrLessIrreflexive(a.name);
  }

  lemma MLessTransitive(a: Mountain, b: Mountain, c: Mountain)
    requires MLess(a, b) && MLess(b, c)
    ensures MLess(a, c)
  {
    if a.difficultyLevel == b.difficultyLevel == c.difficultyLevel {
      StrLessTransitive(a.name, b.name, c.name);
    }
  }

  /** Two different mountains are always ordered one way or the other. */
  lemma MLessTotal(a: Mountain, b: Mountain)
    requires a != b
    ensures MLess(a, b) || MLess(b, a)
  {
    if a.difficultyLevel == b.difficultyLevel {
      StrLessTotal(a.name, b.name);
    }
  }

  lemma MLessTrichotomy(a: Mountain, b: Mountain)
    ensures a == b || MLess(a, b) || MLess(b, a)
  {
    if a != b {
      MLessTotal(a, b);
    }
  }

  lemma MLessAsymmetric(a: Mountain, b: Mountain)
    requires MLess(a, b)
    ensures !MLess(b, a)
  {
    if MLess(b, a) {
      MLessTransitive(a, b, a);
      MLessIrreflexive(a);
    }
  }

  /** Positions `lo` to `hi` (both included) of `s` are in ascending order. */
  ghost predicate SortedBetween(s: seq<Mountain>, lo: int, hi: int)
  {
    forall i, j :: 0 <= lo <= i < j <= hi < |s| ==> !MLess(s[j], s[i])
  }

  /** All of `s` is in ascending order. */
  ghost predicate Sorted(s: seq<Mountain>)
  {
    SortedBetween(s, 0, |s| - 1)
  }

  lemma SortedTail(s: seq<Mountain>)
    requires Sorted(s) && |s| > 0
    ensures Sorted(s[1..])
  {
    forall i, j | 0 <= i < j < |s| - 1
      ensures !MLess(s[1..][j], s[1..][i])
    {
      assert s[1..][i] == s[i + 1] && s[1..][j] == s[j + 1];
    }
  }

  /** Two ascending lists with the same mountains are the same list: the
      order leaves a sort no choice. */
  lemma {:induction false} SortedUnique(s: seq<Mountain>, t: seq<Mountain>)
    requires Sorted(s) && Sorted(t) && multiset(s) == multiset(t)
    ensures s == t
    decreases |s|
  {
    assert |t| == |multiset(t)| == |s|;
    if |s| > 0 {
      SameHead(s, t);
      SameTail(s, t);
      SortedTail(s);
      SortedTail(t);
      SortedUnique(s[1..], t[1..]);
      assert s == [s[0]] + s[1..] && t == [t[0]] + t[1..];
    }
  }

  /** Two non-empty ascending lists with the same mountains start alike. */
  lemma SameHead(s: seq<Mountain>, t: seq<Mountain>)
    requires Sorted(s) && Sorted(t) && multiset(s) == multiset(t) && |s| > 0
    ensures |t| > 0 && s[0] == t[0]
  {
    assert s[0] in multiset(t);
    var i :| 0 <= i < |t| && t[i] == s[0];
    assert t[0] in multiset(s);
    var j :| 0 <= j < |s| && s[j] == t[0];
    MLessIrreflexive(s[0]);
    MLessIrreflexive(t[0]);
    assert !MLess(t[i], t[0]) && !MLess(s[j], s[0]);
    MLessTrichotomy(s[0], t[0]);
  }

  lemma SameTail(s: seq<Mountain>, t: seq<Mountain>)
    requires multiset(s) == multiset(t) && |s| > 0 && |t| > 0 && s[0] == t[0]
    ensures multiset(s[1..]) == multiset(t[1..])
  {
    assert s == [s[0]] + s[1..] && t == [t[0]] + t[1..];
    assert multiset(s[1..]) == multiset(s) - multiset{s[0]};
    assert multiset(t[1..]) == multiset(t) - multiset{t[0]};
  }
}
