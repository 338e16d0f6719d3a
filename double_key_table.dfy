/** `DoubleKeyTable`: an open-addressing table keyed by `key1` whose every
    occupied slot owns an inner linear-probe table keyed by `key2`. The outer
    table grows along a ladder of sizes; the inner tables keep the first
    inner size for good, since entries are written straight into their
    arrays. */
module DoubleKeyTable {
  import opened Results
  import opened Probing

  /** An inner table: `key2` to value. */
  type Inner<V> = Slots<V>

  /** The outer table's slots: `key1` and its inner table. */
  type Outer<V> = Slots<Inner<V>>

  /** `TABLE_SIZES`: the default ladder of outer sizes. */
  const TableSizes: seq<nat> := [5, 13, 29, 53, 97, 193, 389, 769, 1543, 3079, 6151, 12289,
                                 24593, 49157, 98317, 196613, 393241, 786433, 1572869]

  /** A ladder of table sizes: not empty, every size usable by the hash, each
      larger than the last. */
  predicate Ladder(sizes: seq<nat>)
  {
    && |sizes| > 0
    && (forall i :: 0 <= i < |sizes| ==> sizes[i] >= 2)
    && (forall i :: 0 < i < |sizes| ==> sizes[i - 1] < sizes[i])
  }

  /** A fresh inner table. */
  function EmptyInner<V>(cap: nat): (r: Inner<V>)
    ensures |r| == cap && forall j :: 0 <= j < cap ==> r[j].None?
  {
    seq(cap, _ => None)
  }

  /** Every occupied outer slot holds an inner table that can be probed. */
  predicate Shaped<V>(slots: Outer<V>)
  {
    && |slots| >= 2
    && forall i :: 0 <= i < |slots| && slots[i].Some? ==> |slots[i].value.1| >= 2
  }

  /** The table invariant: outer and inner entries are all well placed and
      every inner table has the inner size `cap`. */
  ghost predicate Placed<V>(slots: Outer<V>, cap: nat)
  {
    && WellPlaced(slots) && cap >= 2
    && forall i :: 0 <= i < |slots| && slots[i].Some? ==>
         |slots[i].value.1| == cap && WellPlaced(slots[i].value.1)
  }

  /** `__getitem__`: the value stored under the pair, else `KeyError`. */
  function Get<V>(slots: Outer<V>, key1: Key, key2: Key): (r: Result<V>)
    requires Shaped(slots)
    ensures r.Err? ==> r.error == KeyError
  {
    match Find(slots, key1)
    case Found(i) => Lookup(slots[i].value.1, key2)
    case _ => Err(KeyError)
  }

  /** The number of pairs stored in the first `m` outer slots. */
  function SizeIn<V>(slots: Outer<V>, m: nat): nat
    requires m <= |slots|
  {
    if m == 0 then 0
    else SizeIn(slots, m - 1) + (if slots[m - 1].Some? then Occupied(slots[m - 1].value.1) else 0)
  }

  /** The number of stored pairs. */
  function Size<V>(slots: Outer<V>): nat
  {
    SizeIn(slots, |slots|)
  }

  /** The outer slots after `_linear_probe` has run for `key1`: an insert of a
      new `key1` claims the free slot its probe reached, with an empty inner
      table. */
  function Claim<V>(slots: Outer<V>, key1: Key, isInsert: bool, cap: nat): Outer<V>
    requires |slots| >= 2
  {
    var f := Find(slots, key1);
    if isInsert && f.Vacant? then slots[f.at := Some((key1, EmptyInner(cap)))] else slots
  }

  /** What `_linear_probe` returns on outer slots where `key1` has been
      claimed if need be: the pair's outer and inner slot, or the error. */
  function PairProbe<V>(slots: Outer<V>, key1: Key, key2: Key, isInsert: bool): Result<(nat, nat)>
    requires Shaped(slots)
  {
    match Find(slots, key1)
    case Found(i) =>
      (match Find(slots[i].value.1, key2)
       case Found(j) => Ok((i, j))
       case Vacant(j) => if isInsert then Ok((i, j)) else Err(KeyError)
       case Exhausted => Err(if isInsert then FullError else KeyError))
    case _ => Err(if isInsert then FullError else KeyError)
  }

  lemma PlacedShaped<V>(slots: Outer<V>, cap: nat)
    requires Placed(slots, cap)
    ensures Shaped(slots)
  {
  }

  /** Claiming a slot for a new `key1` keeps the table placed, finds `key1`
      afterwards, and adds no pair. */
  lemma ClaimKeeps<V>(slots: Outer<V>, key1: Key, isInsert: bool, cap: nat)
    requires Placed(slots, cap)
    ensures Placed(Claim(slots, key1, isInsert, cap), cap)
    ensures Size(Claim(slots, key1, isInsert, cap)) == Size(slots)
    ensures forall a, b :: Get(Claim(slots, key1, isInsert, cap), a, b) == Get(slots, a, b)
    ensures isInsert && !Find(slots, key1).Exhausted? ==> Find(Claim(slots, key1, isInsert, cap), key1).Found?
  {
    var f := Find(slots, key1);
    if isInsert && f.Vacant? {
      var t := Claim(slots, key1, isInsert, cap);
      var empty: Inner<V> := EmptyInner(cap);
      PlaceVacant(slots, key1, empty);
      VacantBecomesFound(slots, key1, empty);
      SizeUpdate(slots, f.at, Some((key1, empty)), |slots|);
      assert OccupiedIn(empty, cap) == 0 by {
        NoneOccupied(empty, cap);
      }
      forall a, b
        ensures Get(t, a, b) == Get(slots, a, b)
      {
        if Find(slots, a).Found? {
          FoundSurvivesFill(slots, a, f.at, Some((key1, empty)));
        } else if a == key1 {
          assert Lookup(empty, b).Err? by {
            assert Find(empty, b).Vacant?;
          }
        } else {
          StoredIsFound(slots, a);
          StoredIsFound(t, a);
        }
      }
    }
  }

  lemma {:induction false} NoneOccupied<X>(s: Slots<X>, m: nat)
    requires m <= |s| && forall j :: 0 <= j < m ==> s[j].None?
    ensures OccupiedIn(s, m) == 0
  {
    if m > 0 {
      NoneOccupied(s, m - 1);
    }
  }

  lemma {:induction false} SizeUpdate<V>(slots: Outer<V>, p: nat, x: Option<(Key, Inner<V>)>, m: nat)
    requires p < |slots| && m <= |slots|
    ensures SizeIn(slots[p := x], m) + (if p < m && slots[p].Some? then Occupied(slots[p].value.1) else 0)
         == SizeIn(slots, m) + (if p < m && x.Some? then Occupied(x.value.1) else 0)
  {
    if m > 0 {
      SizeUpdate(slots, p, x, m - 1);
    }
  }

  /** The outer slots once `__setitem__` has written the pair into the inner
      table of `key1`, at the slot the inner probe reached. */
  function StoreAt<V>(slots: Outer<V>, key1: Key, key2: Key, v: V): (r: Outer<V>)
    requires Shaped(slots) && Find(slots, key1).Found?
    requires !Find(slots[Find(slots, key1).at].value.1, key2).Exhausted?
    ensures |r| == |slots|
  {
    var i := Find(slots, key1).at;
    slots[i := Some((key1, Put(slots[i].value.1, key2, v)))]
  }

  /** The pairs stored under `key1`. */
  function CountUnder<V>(slots: Outer<V>, key1: Key): nat
    requires Shaped(slots)
  {
    match Find(slots, key1)
    case Found(i) => Occupied(slots[i].value.1)
    case _ => 0
  }

  /** Writing a pair: it then looks up to the new value, every other pair to
      what it did before, and one more pair is counted exactly when the pair
      was new. No `key1` is added or moved. */
  lemma StoreAtSpec<V>(slots: Outer<V>, key1: Key, key2: Key, v: V, cap: nat)
    requires Placed(slots, cap) && Find(slots, key1).Found?
    requires !Find(slots[Find(slots, key1).at].value.1, key2).Exhausted?
    ensures Placed(StoreAt(slots, key1, key2, v), cap)
    ensures Get(StoreAt(slots, key1, key2, v), key1, key2) == Ok(v)
    ensures forall a, b :: (a, b) != (key1, key2) ==> Get(StoreAt(slots, key1, key2, v), a, b) == Get(slots, a, b)
    ensures Size(StoreAt(slots, key1, key2, v)) == Size(slots) + (if Get(slots, key1, key2).Ok? then 0 else 1)
    ensures forall a :: Find(StoreAt(slots, key1, key2, v), a) == Find(slots, a)
    ensures Occupied(StoreAt(slots, key1, key2, v)) == Occupied(slots)
    ensures CountUnder(StoreAt(slots, key1, key2, v), key1)
         == CountUnder(slots, key1) + (if Get(slots, key1, key2).Ok? then 0 else 1)
    ensures forall a :: a != key1 ==> CountUnder(StoreAt(slots, key1, key2, v), a) == CountUnder(slots, a)
  {
    var i := Find(slots, key1).at;
    var inner := slots[i].value.1;
    var inner2 := Put(inner, key2, v);
    var t := StoreAt(slots, key1, key2, v);
    PutSpec(inner, key2, v);
    Overwrite(slots, key1, inner2);
    SizeUpdate(slots, i, Some((key1, inner2)), |slots|);
    OccupiedUpdate(slots, i, Some((key1, inner2)), |slots|);
    forall a, b | (a, b) != (key1, key2)
      ensures Get(t, a, b) == Get(slots, a, b)
    {
      var f := Find(slots, a);
      assert Find(t, a) == f;
    }
    forall a | a != key1
      ensures CountUnder(t, a) == CountUnder(slots, a)
    {
      assert Find(t, a) == Find(slots, a);
    }
  }


  /** What `__setitem__` needs of a write: the table stays placed, and the
      size grows exactly when the slot written was free. */
  lemma StoreAtValid<V>(slots: Outer<V>, key1: Key, key2: Key, v: V, cap: nat)
    requires Placed(slots, cap) && Find(slots, key1).Found?
    requires !Find(slots[Find(slots, key1).at].value.1, key2).Exhausted?
    ensures Placed(StoreAt(slots, key1, key2, v), cap)
    ensures var inner := slots[Find(slots, key1).at].value.1;
      Size(StoreAt(slots, key1, key2, v)) == Size(slots) + (if inner[Find(inner, key2).at].None? then 1 else 0)
  {
    var inner := slots[Find(slots, key1).at].value.1;
    StoreAtSpec(slots, key1, key2, v, cap);
    assert Get(slots, key1, key2).Ok? <==> Find(inner, key2).Found?;
  }

  /** A write of the pair finds room: `key1` is stored or has a free outer
      slot, and its inner table has room for `key2`. */
  predicate StoreOk<V>(slots: Outer<V>, key1: Key, key2: Key)
    requires Shaped(slots)
  {
    && !Find(slots, key1).Exhausted?
    && (Find(slots, key1).Found? ==> !Find(slots[Find(slots, key1).at].value.1, key2).Exhausted?)
  }

  /** The outer slots after a write of the pair that finds room. */
  ghost function StoreSpec<V>(slots: Outer<V>, key1: Key, key2: Key, v: V, cap: nat): Outer<V>
    requires Placed(slots, cap) && StoreOk(slots, key1, key2)
  {
    ClaimFacts(slots, key1, cap);
    ClaimKeeps(slots, key1, true, cap);
    var claimed := Claim(slots, key1, true, cap);
    assert !Find(claimed[Find(claimed, key1).at].value.1, key2).Exhausted? by {
      if Find(slots, key1).Vacant? {
        assert Find(EmptyInner<V>(cap), key2).Vacant?;
      }
    }
    StoreAt(claimed, key1, key2, v)
  }

  /** `__setitem__` without the load check: the pair then looks up to the
      new value, every other pair to what it did before, and the count grows
      exactly when the pair was new. At most one outer slot is claimed, for
      `key1`. */
  lemma StoreSpecFacts<V>(slots: Outer<V>, key1: Key, key2: Key, v: V, cap: nat)
    requires Placed(slots, cap) && StoreOk(slots, key1, key2)
    ensures var t := StoreSpec(slots, key1, key2, v, cap);
      && Placed(t, cap) && |t| == |slots|
      && Get(t, key1, key2) == Ok(v)
      && (forall a, b :: (a, b) != (key1, key2) ==> Get(t, a, b) == Get(slots, a, b))
      && Size(t) == Size(slots) + (if Get(slots, key1, key2).Ok? then 0 else 1)
      && Occupied(t) <= Occupied(slots) + 1
      && (Find(slots, key1).Found? ==> Occupied(t) == Occupied(slots))
      && Find(t, key1).Found?
      && (forall a :: Find(t, a).Found? <==> a == key1 || Find(slots, a).Found?)
      && CountUnder(t, key1) == CountUnder(slots, key1) + (if Get(slots, key1, key2).Ok? then 0 else 1)
      && (forall a :: a != key1 ==> CountUnder(t, a) == CountUnder(slots, a))
  {
    ClaimFacts(slots, key1, cap);
    ClaimKeeps(slots, key1, true, cap);
    var claimed := Claim(slots, key1, true, cap);
    if Find(slots, key1).Vacant? {
      assert Find(EmptyInner<V>(cap), key2).Vacant?;
    }
    StoreAtSpec(claimed, key1, key2, v, cap);
  }

  /** Removing a pair whose inner table has been repaired: the pair is gone,
      every other pair looks up as before, one pair less is counted, and the
      outer keys stay where they were. */
  lemma DeleteSpec<V>(slots: Outer<V>, key1: Key, key2: Key, repaired: Inner<V>, cap: nat)
    requires Placed(slots, cap) && Find(slots, key1).Found?
    requires var inner := slots[Find(slots, key1).at].value.1;
      && Find(inner, key2).Found?
      && |repaired| == cap && WellPlaced(repaired)
      && Entries(repaired) == Entries(inner) - {inner[Find(inner, key2).at].value}
      && Occupied(repaired) == Occupied(inner) - 1
    ensures var t := slots[Find(slots, key1).at := Some((key1, repaired))];
      && Placed(t, cap) && Size(slots) >= 1 && Size(t) == Size(slots) - 1
      && Get(t, key1, key2) == Err(KeyError)
      && (forall a, b :: (a, b) != (key1, key2) ==> Get(t, a, b) == Get(slots, a, b))
      && (forall a :: Find(t, a) == Find(slots, a))
  {
    var i := Find(slots, key1).at;
    var inner := slots[i].value.1;
    var t := slots[i := Some((key1, repaired))];
    RemoveSpec(inner, Find(inner, key2).at, repaired);
    Overwrite(slots, key1, repaired);
    SizeUpdate(slots, i, Some((key1, repaired)), |slots|);
    forall a, b | (a, b) != (key1, key2)
      ensures Get(t, a, b) == Get(slots, a, b)
    {
      assert Find(t, a) == Find(slots, a);
    }
  }

  /** The new outer table once the first `i` old outer slots have been
      moved into it. */
  ghost predicate Rehashing<V>(slots: Outer<V>, before: Outer<V>, i: nat, cap: nat)
  {
    && Placed(slots, cap) && Placed(before, cap) && i <= |before| && |before| < |slots|
    && (forall a, b :: Get(slots, a, b) == RehashedSoFar(before, a, b, i))
    && Size(slots) == SizeIn(before, i)
    && Occupied(slots) <= i
    && (forall a :: Find(slots, a).Found? <==> Find(before, a).Found? && Find(before, a).at < i)
  }

  lemma RehashStart<V>(slots: Outer<V>, before: Outer<V>, cap: nat)
    requires Placed(before, cap) && |before| < |slots|
    requires forall i :: 0 <= i < |slots| ==> slots[i].None?
    ensures Rehashing(slots, before, 0, cap)
  {
    EmptyTable(slots, cap);
  }

  /** The key of the next old slot is not yet in the new table, whose
      probe for it stops at a free slot. */
  lemma RehashPrepare<V>(slots: Outer<V>, before: Outer<V>, i: nat, cap: nat)
    requires Rehashing(slots, before, i, cap) && i < |before| && before[i].Some?
    ensures Find(slots, before[i].value.0).Vacant?
  {
    assert Find(before, before[i].value.0) == Found(i);
    if Find(slots, before[i].value.0).Exhausted? {
      ExhaustedFull(slots, before[i].value.0);
    }
  }

  /** Moving old slot `i` (a key and its whole inner table) into the free
      slot its probe reaches in the new table. */
  lemma RehashPlace<V>(slots: Outer<V>, before: Outer<V>, i: nat, cap: nat)
    requires Rehashing(slots, before, i, cap) && i < |before| && before[i].Some?
    requires Find(slots, before[i].value.0).Vacant?
    ensures var t := slots[Find(slots, before[i].value.0).at := before[i]];
      && Rehashing(t, before, i + 1, cap)
      && Size(t) == Size(slots) + Occupied(before[i].value.1)
  {
    var (key1, inner) := before[i].value;
    var q := Find(slots, key1).at;
    var t := slots[q := before[i]];
    PlaceInner(slots, key1, inner, cap);
    RehashPlaceCounts(slots, before, i, cap);
    forall a
      ensures Find(t, a).Found? <==> Find(before, a).Found? && Find(before, a).at < i + 1
    {
      RehashPlaceFound(slots, before, i, cap, a);
    }
    forall a, b
      ensures Get(t, a, b) == RehashedSoFar(before, a, b, i + 1)
    {
      RehashPlaceGet(slots, before, i, cap, a, b);
    }
  }

  /** Moving old slot `i` adds its pairs to the size and one slot to the
      occupied ones. */
  lemma RehashPlaceCounts<V>(slots: Outer<V>, before: Outer<V>, i: nat, cap: nat)
    requires Rehashing(slots, before, i, cap) && i < |before| && before[i].Some?
    requires Find(slots, before[i].value.0).Vacant?
    ensures var t := slots[Find(slots, before[i].value.0).at := before[i]];
      && Size(t) == Size(slots) + Occupied(before[i].value.1)
      && Size(t) == SizeIn(before, i + 1)
      && Occupied(t) <= i + 1
  {
    var q := Find(slots, before[i].value.0).at;
    SizeUpdate(slots, q, before[i], |slots|);
    OccupiedUpdate(slots, q, before[i], |slots|);
  }

  /** Placing a new key with a placed inner table in the free slot its
      probe reaches keeps the outer slots placed. */
  lemma PlaceInner<V>(slots: Outer<V>, key1: Key, inner: Inner<V>, cap: nat)
    requires Placed(slots, cap) && Find(slots, key1).Vacant?
    requires WellPlaced(inner) && |inner| == cap
    ensures Placed(slots[Find(slots, key1).at := Some((key1, inner))], cap)
  {
    PlaceVacant(slots, key1, inner);
  }

  /** The keys found after old slot `i` has been moved are the moved key
      and the ones found before. */
  lemma RehashPlaceFound<V>(slots: Outer<V>, before: Outer<V>, i: nat, cap: nat, a: Key)
    requires Rehashing(slots, before, i, cap) && i < |before| && before[i].Some?
    requires Find(slots, before[i].value.0).Vacant?
    ensures var t := slots[Find(slots, before[i].value.0).at := before[i]];
      Find(t, a).Found? <==> Find(before, a).Found? && Find(before, a).at < i + 1
  {
    var (key1, inner) := before[i].value;
    var q := Find(slots, key1).at;
    var t := slots[q := before[i]];
    assert Find(before, key1) == Found(i);
    PlaceVacant(slots, key1, inner);
    if a == key1 {
      VacantBecomesFound(slots, key1, inner);
    } else if Find(slots, a).Found? {
      FoundSurvivesFill(slots, a, q, before[i]);
    } else if Find(t, a).Found? {
      StoredIsFound(slots, a);
      StoredIsFound(t, a);
    } else {
      assert Find(before, a).Found? ==> Find(before, a).at != i;
    }
  }

  /** One lookup after old slot `i` has been moved. */
  lemma RehashPlaceGet<V>(slots: Outer<V>, before: Outer<V>, i: nat, cap: nat, a: Key, b: Key)
    requires Rehashing(slots, before, i, cap) && i < |before| && before[i].Some?
    requires Find(slots, before[i].value.0).Vacant?
    ensures var t := slots[Find(slots, before[i].value.0).at := before[i]];
      Shaped(t) && Get(t, a, b) == RehashedSoFar(before, a, b, i + 1)
  {
    var (key1, inner) := before[i].value;
    var q := Find(slots, key1).at;
    var t := slots[q := before[i]];
    assert Find(before, key1) == Found(i);
    PlaceVacant(slots, key1, inner);
    if a == key1 {
      VacantBecomesFound(slots, key1, inner);
      assert Get(t, a, b) == Lookup(inner, b);
      assert RehashedSoFar(before, a, b, i + 1) == Lookup(inner, b);
    } else if Find(slots, a).Found? {
      FoundSurvivesFill(slots, a, q, before[i]);
      assert Get(t, a, b) == Get(slots, a, b);
      assert Find(before, a).at != i;
      assert RehashedSoFar(before, a, b, i + 1) == RehashedSoFar(before, a, b, i);
    } else {
      StoredIsFound(slots, a);
      StoredIsFound(t, a);
      assert Get(t, a, b) == Err(KeyError);
      assert Find(before, a).Found? ==> Find(before, a).at != i;
      assert RehashedSoFar(before, a, b, i + 1) == RehashedSoFar(before, a, b, i);
    }
  }

  lemma RehashSkip<V>(slots: Outer<V>, before: Outer<V>, i: nat, cap: nat)
    requires Rehashing(slots, before, i, cap) && i < |before| && before[i].None?
    ensures Rehashing(slots, before, i + 1, cap)
  {
    forall a
      ensures Find(before, a).Found? ==> Find(before, a).at != i
    {
    }
    forall a, b
      ensures RehashedSoFar(before, a, b, i + 1) == RehashedSoFar(before, a, b, i)
    {
    }
  }

  /** Every old slot moved: the new table holds exactly the old pairs. */
  lemma RehashDone<V>(slots: Outer<V>, before: Outer<V>, cap: nat)
    requires Rehashing(slots, before, |before|, cap)
    ensures forall a, b :: Get(slots, a, b) == Get(before, a, b)
    ensures forall a :: Find(slots, a).Found? <==> Find(before, a).Found?
    ensures Size(slots) == Size(before)
  {
  }

  /** What a lookup in the new outer table gives once the first `i` old outer
      slots have been moved. */
  function RehashedSoFar<V>(before: Outer<V>, a: Key, b: Key, i: nat): Result<V>
    requires Shaped(before)
  {
    var f := Find(before, a);
    if f.Found? && f.at < i then Get(before, a, b) else Err(KeyError)
  }

  lemma LadderGrows(sizes: seq<nat>, i: nat)
    requires Ladder(sizes) && i + 1 < |sizes|
    ensures sizes[i] < sizes[i + 1]
  {
  }

  /** What claiming a slot does to the outer keys and counts. */
  lemma ClaimFacts<V>(slots: Outer<V>, key1: Key, cap: nat)
    requires Placed(slots, cap)
    ensures var t := Claim(slots, key1, true, cap);
      && Occupied(t) <= Occupied(slots) + 1
      && (forall a :: Find(t, a).Found? ==> a == key1 || Find(slots, a).Found?)
      && (forall a :: Find(slots, a).Found? ==> Find(t, a) == Find(slots, a))
      && (forall a :: CountUnder(t, a) == CountUnder(slots, a))
      && (Find(slots, key1).Found? ==> t == slots)
      && (Find(slots, key1).Vacant? ==> Find(t, key1).Found? && t[Find(t, key1).at].value.1 == EmptyInner(cap))
  {
    var f := Find(slots, key1);
    ClaimKeeps(slots, key1, true, cap);
    if f.Vacant? {
      var t := Claim(slots, key1, true, cap);
      var empty: Inner<V> := EmptyInner(cap);
      OccupiedUpdate(slots, f.at, Some((key1, empty)), |slots|);
      VacantBecomesFound(slots, key1, empty);
      NoneOccupied(empty, cap);
      forall a | Find(t, a).Found?
        ensures a == key1 || Find(slots, a).Found?
      {
        StoredIsFound(slots, a);
      }
      forall a | Find(slots, a).Found?
        ensures Find(t, a) == Find(slots, a)
      {
        FoundSurvivesFill(slots, a, f.at, Some((key1, empty)));
      }
      forall a
        ensures CountUnder(t, a) == CountUnder(slots, a)
      {
        if Find(slots, a).Found? {
          FoundSurvivesFill(slots, a, f.at, Some((key1, empty)));
        } else if a != key1 {
          StoredIsFound(slots, a);
          StoredIsFound(t, a);
        }
      }
    }
  }

  /** A table of free slots is placed, holds no pair and finds nothing. */
  lemma EmptyTable<V>(slots: Outer<V>, cap: nat)
    requires |slots| >= 2 && cap >= 2 && forall i :: 0 <= i < |slots| ==> slots[i].None?
    ensures Placed(slots, cap) && Size(slots) == 0 && Occupied(slots) == 0
    ensures forall a, b :: Get(slots, a, b) == Err(KeyError)
  {
    EmptySize(slots, |slots|);
    NoneOccupied(slots, |slots|);
    forall a, b
      ensures Get(slots, a, b) == Err(KeyError)
    {
      assert !Find(slots, a).Found?;
    }
  }

  lemma {:induction false} EmptySize<V>(slots: Outer<V>, m: nat)
    requires m <= |slots| && forall i :: 0 <= i < |slots| ==> slots[i].None?
    ensures SizeIn(slots, m) == 0
  {
    if m > 0 {
      EmptySize(slots, m - 1);
    }
  }

  /** `keys(key1)` as documented: the `key2`s stored under `key1`, in slot
      order; none when `key1` is absent. */
  function KeysOf<V>(slots: Outer<V>, key1: Key): seq<Key>
    requires Shaped(slots)
  {
    match Find(slots, key1)
    case Found(i) => KeysIn(slots[i].value.1, |slots[i].value.1|)
    case _ => []
  }

  /** `values(key1)` as documented: the values stored under `key1`, in slot
      order; none when `key1` is absent. */
  function ValuesOf<V>(slots: Outer<V>, key1: Key): seq<V>
    requires Shaped(slots)
  {
    match Find(slots, key1)
    case Found(i) => ItemsIn(slots[i].value.1, |slots[i].value.1|)
    case _ => []
  }

  /** `values()`: the values of the first `m` outer slots' inner tables, outer
      slot by outer slot; one per stored pair. */
  function AllValues<V>(slots: Outer<V>, m: nat): (r: seq<V>)
    requires m <= |slots|
    ensures |r| == SizeIn(slots, m)
  {
    if m == 0 then []
    else AllValues(slots, m - 1)
         + (if slots[m - 1].Some? then ItemsIn(slots[m - 1].value.1, |slots[m - 1].value.1|) else [])
  }

  /** The `key1`s listed by `keys()` are exactly the ones a probe finds, each
      once. */
  lemma TopKeysSpec<V>(slots: Outer<V>, cap: nat, key1: Key)
    requires Placed(slots, cap)
    ensures key1 in KeysIn(slots, |slots|) <==> Find(slots, key1).Found?
    ensures forall i, j :: 0 <= i < j < |KeysIn(slots, |slots|)| ==> KeysIn(slots, |slots|)[i] != KeysIn(slots, |slots|)[j]
  {
    KeysFound(slots, key1);
  }

  /** The `key2`s listed for `key1` are exactly those a lookup of the pair
      finds, each once. */
  lemma KeysOfSpec<V>(slots: Outer<V>, cap: nat, key1: Key, key2: Key)
    requires Placed(slots, cap)
    ensures key2 in KeysOf(slots, key1) <==> Get(slots, key1, key2).Ok?
    ensures forall i, j :: 0 <= i < j < |KeysOf(slots, key1)| ==> KeysOf(slots, key1)[i] != KeysOf(slots, key1)[j]
  {
    if Find(slots, key1).Found? {
      KeysFound(slots[Find(slots, key1).at].value.1, key2);
    }
  }

  /** The values listed for `key1` are exactly those its pairs look up to. */
  lemma ValuesOfSpec<V>(slots: Outer<V>, cap: nat, key1: Key, v: V)
    requires Placed(slots, cap)
    ensures v in ValuesOf(slots, key1) <==> exists key2 :: Get(slots, key1, key2) == Ok(v)
  {
    var f := Find(slots, key1);
    if f.Found? {
      var inner := slots[f.at].value.1;
      ItemsFound(inner, v);
      if v in ValuesOf(slots, key1) {
        var k :| Lookup(inner, k) == Ok(v);
        assert Get(slots, key1, k) == Ok(v);
      }
      if exists key2 :: Get(slots, key1, key2) == Ok(v) {
        var k :| Get(slots, key1, k) == Ok(v);
        assert Lookup(inner, k) == Ok(v);
      }
    }
  }

  /** The values listed by `values()` are exactly those the stored pairs look
      up to, one per pair. */
  lemma AllValuesSpec<V>(slots: Outer<V>, cap: nat, v: V)
    requires Placed(slots, cap)
    ensures v in AllValues(slots, |slots|) <==> exists key1, key2 :: Get(slots, key1, key2) == Ok(v)
    ensures |AllValues(slots, |slots|)| == Size(slots)
  {
    AllValuesMembers(slots, v, |slots|);
    if v in AllValues(slots, |slots|) {
      var i :| 0 <= i < |slots| && slots[i].Some? && v in ItemsIn(slots[i].value.1, |slots[i].value.1|);
      var inner := slots[i].value.1;
      ItemsFound(inner, v);
      var k :| Lookup(inner, k) == Ok(v);
      assert Find(slots, slots[i].value.0) == Found(i);
      assert Get(slots, slots[i].value.0, k) == Ok(v);
    }
    if exists key1, key2 :: Get(slots, key1, key2) == Ok(v) {
      var key1, key2 :| Get(slots, key1, key2) == Ok(v);
      var i := Find(slots, key1).at;
      assert Lookup(slots[i].value.1, key2) == Ok(v);
      ItemsFound(slots[i].value.1, v);
    }
  }

  /** A value is listed among the first `m` outer slots exactly when one of
      their inner tables holds it. */
  lemma {:induction false} AllValuesMembers<V>(slots: Outer<V>, v: V, m: nat)
    requires m <= |slots|
    ensures v in AllValues(slots, m) <==>
      exists i :: 0 <= i < m && slots[i].Some? && v in ItemsIn(slots[i].value.1, |slots[i].value.1|)
  {
    if m > 0 {
      AllValuesMembers(slots, v, m - 1);
      var last := if slots[m - 1].Some? then ItemsIn(slots[m - 1].value.1, |slots[m - 1].value.1|) else [];
      assert AllValues(slots, m) == AllValues(slots, m - 1) + last;
      if v in last {
        assert 0 <= m - 1 < m && slots[m - 1].Some? && v in ItemsIn(slots[m - 1].value.1, |slots[m - 1].value.1|);
      }
    }
  }

  class DoubleKeyTable<V> {
    /** `TABLE_SIZES`: the ladder of outer sizes. */
    var sizes: seq<nat>
    /** `internal_sizes`: only its first size is ever used by an inner table. */
    var internalSizes: seq<nat>
    var sizeIndex: nat
    var table: array<Option<(Key, Inner<V>)>>
    var count: nat

    ghost predicate Valid()
      reads this, table
    {
      && Ladder(sizes) && sizeIndex < |sizes| && table.Length == sizes[sizeIndex]
      && |internalSizes| > 0
      && Placed(table[..], internalSizes[0])
      && count == Size(table[..])
    }

    /** The outer slots as a value. */
    ghost function Slots(): Outer<V>
      reads this, table
    {
      table[..]
    }

    /** `__init__`: an empty table on the given ladders; the inner ladder
        defaults to the outer one. */
    constructor(sizes: Option<seq<nat>>, internalSizes: Option<seq<nat>>)
      requires Ladder(if sizes.Some? then sizes.value else TableSizes)
      requires var inner := if internalSizes.Some? then internalSizes.value
                            else if sizes.Some? then sizes.value else TableSizes;
               |inner| > 0 && inner[0] >= 2
      ensures Valid() && fresh(table)
      ensures this.sizes == (if sizes.Some? then sizes.value else TableSizes)
      ensures this.internalSizes == (if internalSizes.Some? then internalSizes.value else this.sizes)
      ensures sizeIndex == 0 && count == 0
      ensures forall a, b :: Get(Slots(), a, b) == Err(KeyError)
    {
      this.sizes := if sizes.Some? then sizes.value else TableSizes;
      this.sizeIndex := 0;
      var n := if sizes.Some? then sizes.value[0] else TableSizes[0];
      this.table := new Option<(Key, Inner<V>)>[n](_ => None);
      this.count := 0;
      this.internalSizes := if internalSizes.Some? then internalSizes.value
                            else if sizes.Some? then sizes.value else TableSizes;
      new;
      EmptyTable(table[..], this.internalSizes[0]);
    }

    /** `table_size`: the current outer size. */
    function TableSize(): (r: nat)
      reads this, table
      requires Valid()
      ensures r == table.Length && r >= 2
    {
      sizes[sizeIndex]
    }

    /** `__len__`: the number of stored pairs. */
    function Len(): (r: nat)
      reads this, table
      requires Valid()
      ensures r == Size(Slots())
    {
      count
    }

    /** `hash1`: the polynomial hash of `key` for the outer size. */
    method Hash1(key: Key) returns (r: nat)
      requires Valid()
      ensures r == Home(key, table.Length)
    {
      r := RollingHash(key, TableSize());
    }

    /** `hash2`: the same hash for the size of an inner table. */
    method Hash2(key: Key, subTable: Inner<V>) returns (r: nat)
      requires |subTable| >= 2
      ensures r == Home(key, |subTable|)
    {
      r := RollingHash(key, |subTable|);
    }

    /** `_linear_probe`: find `key1` in the outer table (an insert claims a
        free slot with a fresh inner table), then probe its inner table for
        `key2`. */
    method LinearProbe(key1: Key, key2: Key, isInsert: bool) returns (r: Result<(nat, nat)>)
      requires Valid()
      modifies table
      ensures Valid()
      ensures Slots() == Claim(old(Slots()), key1, isInsert, internalSizes[0])
      ensures r == PairProbe(Slots(), key1, key2, isInsert)
    {
      ghost var before := table[..];
      var outer := Probing.LinearProbe(table[..], key1);
      ClaimKeeps(before, key1, isInsert, internalSizes[0]);
      match outer {
        case Exhausted =>
          return Err(if isInsert then FullError else KeyError);
        case Vacant(i) =>
          if !isInsert {
            return Err(KeyError);
          }
          table[i] := Some((key1, EmptyInner(internalSizes[0])));
          assert table[..] == Claim(before, key1, isInsert, internalSizes[0]);
        case Found(_) =>
      }
      var i := outer.at;
      assert Find(table[..], key1) == Found(i);
      var inner := Probing.LinearProbe(table[i].value.1, key2);
      match inner
      case Found(j) =>
        r := Ok((i, j));
      case Vacant(j) =>
        r := if isInsert then Ok((i, j)) else Err(KeyError);
      case Exhausted =>
        r := Err(if isInsert then FullError else KeyError);
    }

    /** `__getitem__`: the value stored under the pair, or `KeyError`. */
    method GetItem(key1: Key, key2: Key) returns (r: Result<V>)
      requires Valid()
      modifies table
      ensures Valid() && Slots() == old(Slots())
      ensures r == Get(Slots(), key1, key2)
    {
      var p := LinearProbe(key1, key2, false);
      if p.Err? {
        return Err(p.error);
      }
      var (top, bottom) := p.value;
      r := Ok(table[top].value.1[bottom].value.1);
    }

    /** `__contains__`: whether `__getitem__` would succeed. */
    method Contains(key1: Key, key2: Key) returns (r: bool)
      requires Valid()
      modifies table
      ensures Valid() && Slots() == old(Slots())
      ensures r <==> Get(Slots(), key1, key2).Ok?
    {
      var got := GetItem(key1, key2);
      r := got.Ok?;
    }

    /** `__delitem__`: clear the pair's inner slot, count one pair less and
        repair the inner probe cluster; `KeyError` when the pair is absent.
        The outer slot of `key1` stays claimed. */
    method DelItem(key1: Key, key2: Key) returns (r: Result<()>)
      requires Valid()
      modifies this, table
      ensures Valid() && table == old(table)
      ensures sizes == old(sizes) && internalSizes == old(internalSizes) && sizeIndex == old(sizeIndex)
      ensures r.Ok? <==> old(Get(Slots(), key1, key2)).Ok?
      ensures r.Err? ==> r.error == KeyError && Slots() == old(Slots())
      ensures Get(Slots(), key1, key2) == Err(KeyError)
      ensures forall a, b :: (a, b) != (key1, key2) ==> Get(Slots(), a, b) == old(Get(Slots(), a, b))
      ensures count == old(count) - (if r.Ok? then 1 else 0)
      ensures forall a :: Find(Slots(), a) == old(Find(Slots(), a))
    {
      ghost var before := Slots();
      var p := LinearProbe(key1, key2, false);
      if p.Err? {
        return Err(p.error);
      }
      var (top, bottom) := p.value;
      var sub := table[top].value.1;
      var repaired := RemoveAt(sub, bottom);
      DeleteSpec(before, key1, key2, repaired, internalSizes[0]);
      table[top] := Some((key1, repaired));
      count := count - 1;
      r := Ok(());
    }

    /** `_rehash`: move to the next size of the ladder, allocate a fresh outer
        table and write every stored pair into it again; nothing happens on
        the last size. */
    method Rehash()
      requires Valid()
      modifies this
      ensures Valid() && sizes == old(sizes) && internalSizes == old(internalSizes) && count == old(count)
      ensures old(sizeIndex) + 1 < |sizes| ==> sizeIndex == old(sizeIndex) + 1 && fresh(table)
      ensures old(sizeIndex) + 1 == |sizes| ==> sizeIndex == old(sizeIndex) && table == old(table)
      ensures forall a, b :: Get(Slots(), a, b) == old(Get(Slots(), a, b))
      ensures forall a :: Find(Slots(), a).Found? <==> old(Find(Slots(), a)).Found?
    {
      if sizeIndex + 1 == |sizes| {
        return;
      }
      var oldTable := table;
      ghost var before := table[..];
      ghost var cap := internalSizes[0];
      LadderGrows(sizes, sizeIndex);
      sizeIndex := sizeIndex + 1;
      table := new Option<(Key, Inner<V>)>[sizes[sizeIndex]](_ => None);
      count := 0;
      RehashStart(table[..], before, cap);
      for i := 0 to oldTable.Length
        invariant Valid() && fresh(table) && oldTable[..] == before
        invariant sizes == old(sizes) && internalSizes == old(internalSizes) && sizeIndex == old(sizeIndex) + 1
        invariant Rehashing(table[..], before, i, cap)
      {
        MoveSlot(oldTable, i, before);
      }
      RehashDone(Slots(), before, cap);
      assert old(Slots()) == before;
    }

    /** One step of `_rehash`: move old outer slot `i`, its key with its
        whole inner table, to the free slot its probe reaches in the new
        table, and count its pairs. */
    method MoveSlot(oldTable: array<Option<(Key, Inner<V>)>>, i: nat, ghost before: Outer<V>)
      requires Valid() && oldTable != table && oldTable[..] == before && i < oldTable.Length
      requires Rehashing(table[..], before, i, internalSizes[0])
      modifies this, table
      ensures Valid() && table == old(table)
      ensures sizes == old(sizes) && internalSizes == old(internalSizes) && sizeIndex == old(sizeIndex)
      ensures Rehashing(table[..], before, i + 1, internalSizes[0])
    {
      if oldTable[i].Some? {
        var (key1, inner) := oldTable[i].value;
        RehashPrepare(table[..], before, i, internalSizes[0]);
        RehashPlace(table[..], before, i, internalSizes[0]);
        var p := Probing.LinearProbe(table[..], key1);
        table[p.at] := oldTable[i];
        count := count + Occupied(inner);
      } else {
        RehashSkip(table[..], before, i, internalSizes[0]);
      }
    }

    /** `__setitem__`: write the pair, then rehash once the number of stored
        pairs exceeds half the outer size plus one. */
    method SetItem(key1: Key, key2: Key, data: V) returns (r: Result<()>)
      requires Valid()
      modifies this, table
      ensures Valid() && sizes == old(sizes) && internalSizes == old(internalSizes)
      ensures r.Ok? <==> old(StoreOk(Slots(), key1, key2))
      ensures r.Err? ==> r.error == FullError && Slots() == old(Slots()) && count == old(count)
      ensures r.Ok? ==> Get(Slots(), key1, key2) == Ok(data)
      ensures r.Ok? ==> forall a, b :: (a, b) != (key1, key2) ==> Get(Slots(), a, b) == old(Get(Slots(), a, b))
      ensures r.Ok? ==> count == old(count) + (if old(Get(Slots(), key1, key2)).Ok? then 0 else 1)
      ensures forall a :: Find(Slots(), a).Found? <==> (r.Ok? && a == key1) || old(Find(Slots(), a)).Found?
      ensures sizeIndex == old(sizeIndex)
        + (if r.Ok? && 2 * count > old(table.Length) + 2 && old(sizeIndex) + 1 < |sizes| then 1 else 0)
    {
      ghost var before := Slots();
      r := Store(key1, key2, data);
      if r.Err? {
        return;
      }
      StoreSpecFacts(before, key1, key2, data, internalSizes[0]);
      if 2 * count > TableSize() + 2 {
        Rehash();
      }
    }

    /** The write of `__setitem__`, before the load check: probe (claiming a
        slot for a new `key1`), count the pair if its inner slot was free, and
        store it. `FullError` when the outer or the inner table is full. */
    method Store(key1: Key, key2: Key, data: V) returns (r: Result<()>)
      requires Valid()
      modifies this, table
      ensures Valid() && table == old(table)
      ensures sizes == old(sizes) && internalSizes == old(internalSizes) && sizeIndex == old(sizeIndex)
      ensures r.Ok? <==> StoreOk(old(Slots()), key1, key2)
      ensures r.Ok? ==> Slots() == StoreSpec(old(Slots()), key1, key2, data, internalSizes[0])
      ensures r.Err? ==> r.error == FullError && Slots() == old(Slots())
    {
      ghost var before := Slots();
      var p := LinearProbe(key1, key2, true);
      ghost var claimed := Slots();
      ClaimFacts(before, key1, internalSizes[0]);
      if p.Err? {
        assert Slots() == before;
        return Err(p.error);
      }
      var (top, bottom) := p.value;
      var sub := table[top].value.1;
      StoreAtValid(claimed, key1, key2, data, internalSizes[0]);
      if sub[bottom].None? {
        count := count + 1;
      }
      table[top] := Some((key1, sub[bottom := Some((key2, data))]));
      assert Slots() == StoreAt(claimed, key1, key2, data);
      r := Ok(());
    }

    /** `keys`: with no key, every `key1` in outer slot order; with `key1`, the
        `key2`s stored under it. */
    method Keys(key: Option<Key>) returns (r: seq<Key>)
      requires Valid()
      ensures key.None? ==> r == KeysIn(Slots(), table.Length)
      ensures key.None? ==> forall a :: a in r <==> Find(Slots(), a).Found?
      ensures key.Some? ==> r == KeysOf(Slots(), key.value)
      ensures key.Some? ==> forall b :: b in r <==> Get(Slots(), key.value, b).Ok?
      ensures forall i, j :: 0 <= i < j < |r| ==> r[i] != r[j]
    {
      if key.None? {
        r := CollectKeys(table[..]);
        forall a
          ensures a in r <==> Find(Slots(), a).Found?
        {
          TopKeysSpec(Slots(), internalSizes[0], a);
        }
        TopKeysSpec(Slots(), internalSizes[0], "");
      } else {
        var top := Probing.LinearProbe(table[..], key.value);
        if top.Found? {
          r := CollectKeys(table[top.at].value.1);
        } else {
          r := [];
        }
        forall b
          ensures b in r <==> Get(Slots(), key.value, b).Ok?
        {
          KeysOfSpec(Slots(), internalSizes[0], key.value, b);
        }
        KeysOfSpec(Slots(), internalSizes[0], key.value, "");
      }
    }

    /** `values`: with no key, every stored value, outer slot by outer slot;
        with `key1`, the values stored under it. */
    method Values(key: Option<Key>) returns (r: seq<V>)
      requires Valid()
      ensures key.None? ==> r == AllValues(Slots(), table.Length) && |r| == Len()
      ensures key.None? ==> forall v :: v in r <==> exists a, b :: Get(Slots(), a, b) == Ok(v)
      ensures key.Some? ==> r == ValuesOf(Slots(), key.value)
      ensures key.Some? ==> forall v :: v in r <==> exists b :: Get(Slots(), key.value, b) == Ok(v)
    {
      if key.None? {
        r := [];
        for i := 0 to table.Length
          invariant r == AllValues(table[..], i)
        {
          if table[i].Some? {
            var items := CollectItems(table[i].value.1);
            r := r + items;
          }
        }
        forall v
          ensures v in r <==> exists a, b :: Get(Slots(), a, b) == Ok(v)
        {
          AllValuesSpec(Slots(), internalSizes[0], v);
        }
      } else {
        var top := Probing.LinearProbe(table[..], key.value);
        if top.Found? {
          r := CollectItems(table[top.at].value.1);
        } else {
          r := [];
        }
        forall v
          ensures v in r <==> exists b :: Get(Slots(), key.value, b) == Ok(v)
        {
          ValuesOfSpec(Slots(), internalSizes[0], key.value, v);
        }
      }
    }
  }
}
