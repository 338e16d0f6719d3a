/** Places where `DoubleKeyTable` as written departs from what its comments
    and its own other operations promise. Each is modelled here as written,
    with a lemma exhibiting an input on which it goes wrong; the table itself
    follows the documented behaviour. */
module DoubleKeyFindings {
  import opened Results
  import opened Probing
  import opened DoubleKeyTable

  /** The `key2`s of the inner tables of the first `m` outer slots. */
  function InnerKeysIn<V>(slots: Outer<V>, m: nat): seq<Key>
    requires m <= |slots|
  {
    if m == 0 then []
    else InnerKeysIn(slots, m - 1)
         + (if slots[m - 1].Some? then KeysIn(slots[m - 1].value.1, |slots[m - 1].value.1|) else [])
  }

  /** `keys(key)` as written: given a key, it lists the `key2`s of every inner
      table and never looks at the key. */
  function KeysAsWritten<V>(slots: Outer<V>, key: Option<Key>): seq<Key>
  {
    if key.Some? then InnerKeysIn(slots, |slots|) else KeysIn(slots, |slots|)
  }

  lemma {:induction false} InnerKeysHas<V>(slots: Outer<V>, m: nat, i: nat, key2: Key)
    requires i < m <= |slots| && slots[i].Some?
    requires key2 in KeysIn(slots[i].value.1, |slots[i].value.1|)
    ensures key2 in InnerKeysIn(slots, m)
  {
    if i < m - 1 {
      InnerKeysHas(slots, m - 1, i, key2);
    }
  }

  /** A `key2` stored only under `key1` `b` is listed, as written, among the
      keys of any other `key1` `a`; the documented `keys(a)` leaves it out. */
  lemma KeysAsWrittenUnfiltered<V>(slots: Outer<V>, cap: nat, a: Key, b: Key, y: Key)
    requires Placed(slots, cap) && Get(slots, b, y).Ok? && Get(slots, a, y).Err?
    ensures y in KeysAsWritten(slots, Some(a))
    ensures y !in KeysOf(slots, a)
  {
    var i := Find(slots, b).at;
    KeysFound(slots[i].value.1, y);
    InnerKeysHas(slots, |slots|, i, y);
    KeysOfSpec(slots, cap, a, y);
  }

  /** `values(key1)` as written: the values in outer slot `hash1(key1)`,
      without probing, whichever `key1` owns that slot. */
  function ValuesAsWritten<V>(slots: Outer<V>, key1: Key): seq<V>
    requires |slots| >= 2
  {
    var h := Home(key1, |slots|);
    if slots[h].Some? then ItemsIn(slots[h].value.1, |slots[h].value.1|) else []
  }

  /** Five outer slots: "a" at its home slot 2, and "f", whose home is also
      slot 2, moved on to slot 3. Each owns a two-slot inner table with one
      pair. */
  function Collided(): Outer<int>
  {
    [None, None, Some(("a", [Some(("x", 1)), None])), Some(("f", [None, Some(("y", 2))])), None]
  }

  lemma CollidedPlaced()
    ensures Placed(Collided(), 2)
  {
    var s := Collided();
    CollidedInnerA();
    CollidedInnerF();
    CollidedOuter();
    assert forall j :: 0 <= j < |s| && s[j].Some? ==> j == 2 || j == 3;
  }

  lemma CollidedOuter()
    ensures WellPlaced(Collided())
    ensures Find(Collided(), "f") == Found(3)
  {
    var s := Collided();
    CollidedFindF();
    forall j | 0 <= j < |s| && s[j].Some?
      ensures Find(s, s[j].value.0) == Found(j)
    {
      if j == 2 {
        CollidedFindA();
      } else {
        assert j == 3;
      }
    }
  }

  lemma CollidedFindA()
    ensures Find(Collided(), "a") == Found(2)
  {
    assert Home("a", 5) == 2;
    StopIs(Collided(), "a", 2, 0);
  }

  lemma CollidedFindF()
    ensures Find(Collided(), "f") == Found(3)
  {
    assert Home("f", 5) == 2;
    StopIs(Collided(), "f", 2, 1);
  }

  lemma CollidedInnerA()
    ensures WellPlaced(Collided()[2].value.1)
  {
    var a := Collided()[2].value.1;
    assert Home("x", 2) == 0;
    StopIs(a, "x", 0, 0);
    assert Find(a, "x") == Found(0);
  }

  lemma CollidedInnerF()
    ensures WellPlaced(Collided()[3].value.1)
    ensures Find(Collided()[3].value.1, "y") == Found(1)
  {
    var f := Collided()[3].value.1;
    assert Home("y", 2) == 1;
    StopIs(f, "y", 1, 0);
    assert Find(f, "y") == Found(1);
  }

  /** On that table `values("f")` as written returns the value stored under
      "a", while the pair stored under "f" holds 2. */
  lemma ValuesAsWrittenWrongTable()
    ensures Placed(Collided(), 2)
    ensures ValuesAsWritten(Collided(), "f") == [1]
    ensures Get(Collided(), "f", "y") == Ok(2)
    ensures ValuesOf(Collided(), "f") == [2]
  {
    CollidedPlaced();
    CollidedOuter();
    CollidedInnerF();
  }

  /** The outer slot `_linear_probe` settles on, as written: a loop that ends
      without meeting `key1` or a free slot has gone all the way round, back
      to `hash1(key1)`. */
  function OuterSlotAsWritten<V>(slots: Outer<V>, key1: Key, isInsert: bool): Result<nat>
    requires |slots| >= 2
  {
    match Find(slots, key1)
    case Found(i) => Ok(i)
    case Vacant(i) => if isInsert then Ok(i) else Err(KeyError)
    case Exhausted => Ok(Home(key1, |slots|))
  }

  /** When every outer slot is claimed by some other `key1` (slots are never
      released by `__delitem__`), the probe as written hands back a slot that
      belongs to another `key1`, so the pair is read or written in that
      `key1`'s inner table; the model's probe reports the error instead. */
  lemma OuterSlotAsWrittenFull<V>(slots: Outer<V>, key1: Key, key2: Key, isInsert: bool)
    requires Shaped(slots) && Find(slots, key1).Exhausted?
    ensures OuterSlotAsWritten(slots, key1, isInsert).Ok?
    ensures var i := OuterSlotAsWritten(slots, key1, isInsert).value;
      i < |slots| && slots[i].Some? && slots[i].value.0 != key1
    ensures PairProbe(slots, key1, key2, isInsert).Err?
  {
    var h := Home(key1, |slots|);
    assert Pos(h, 0, |slots|) == h;
    assert !Halts(slots, key1, h);
  }

  /** The ladder position `_rehash` as written leaves behind: it moves up
      first and only then checks for the end of the ladder. */
  function RehashIndexAsWritten(sizeIndex: nat): nat
  {
    sizeIndex + 1
  }

  /** On the last size of the ladder the position as written falls off the
      ladder, so `table_size` has no size to read from then on; `Rehash`
      stays on the last size. */
  lemma RehashIndexAsWrittenOffLadder(sizes: seq<nat>, sizeIndex: nat)
    requires sizeIndex + 1 == |sizes|
    ensures !(RehashIndexAsWritten(sizeIndex) < |sizes|)
  {
  }

  /** The key pair `_rehash` as written writes an old slot under:
      `self[sub_table[0]] = sub_table[1]` indexes `key1` itself, so the
      pair is its first two characters, and a shorter `key1` fails. */
  function RehashPairAsWritten(key1: Key): Option<(Key, Key)>
  {
    if |key1| < 2 then None else Some(([key1[0]], [key1[1]]))
  }

  /** Whatever `key1` an old slot held, the reinsertion as written never
      stores anything under that `key1`. */
  lemma RehashPairAsWrittenLosesKey(key1: Key)
    ensures RehashPairAsWritten(key1).Some? ==> RehashPairAsWritten(key1).value.0 != key1
    ensures |key1| < 2 <==> RehashPairAsWritten(key1).None?
  {
    if |key1| >= 2 {
      assert |RehashPairAsWritten(key1).value.0| == 1;
    }
  }

  /** The next inner slot of the cluster repair in `__delitem__` as written:
      it wraps around the inner size at the OUTER ladder position. */
  function RepairNextAsWritten(bottom: nat, internalSizes: seq<nat>, sizeIndex: nat): nat
    requires sizeIndex < |internalSizes| && internalSizes[sizeIndex] > 0
  {
    (bottom + 1) % internalSizes[sizeIndex]
  }

  /** With the default sizes, after one rehash the repair steps from the
      last slot of a five-slot inner table to slot 5, past its end; the
      model's repair steps with `Next`, which stays inside the table. */
  lemma RepairNextAsWrittenOverruns()
    ensures TableSizes[0] == 5
    ensures RepairNextAsWritten(4, TableSizes, 1) == 5
    ensures Next(4, TableSizes[0]) == 0
  {
  }

  /** The repair step of `__delitem__` as written, for one entry `(k, v)`
      lifted out of the cluster after the deleted slot: it is handed to the
      table's own `_linear_probe` with `k` (a `key2`) as the `key1` and `v`
      (its value) as the `key2`, so it lands in the inner table of whichever
      outer slot that probe reaches, claiming a new one for `k` if need be. */
  function RepairMoveAsWritten(slots: Outer<Key>, k: Key, v: Key, cap: nat): (r: Result<Outer<Key>>)
    requires Shaped(slots) && cap >= 2
    ensures r.Ok? ==> Shaped(r.value) && |r.value| == |slots|
    ensures r.Ok? ==> forall j :: 0 <= j < |slots| && j != OuterSlotAsWritten(slots, k, true).value ==>
      r.value[j] == Claim(slots, k, true, cap)[j]
  {
    var claimed := Claim(slots, k, true, cap);
    var o := OuterSlotAsWritten(slots, k, true).value;
    assert claimed[o].Some? by {
      if Find(slots, k).Exhausted? {
        OuterSlotAsWrittenFull(slots, k, v, true);
      }
    }
    var (owner, inner) := claimed[o].value;
    var p := Find(inner, v);
    if p.Exhausted? then Err(FullError)
    else Ok(claimed[o := Some((owner, inner[p.at := Some((k, v))]))])
  }

  /** When the probe for `k` stops at `k`'s own slot or a free one, the
      outer slot the move as written writes into is `k`'s, so any other
      `key1` found before the move is found at the same slot after it, with
      the same inner table. */
  lemma RepairMoveAsWrittenKeepsOuter(slots: Outer<Key>, k: Key, v: Key, cap: nat, a: Key)
    requires WellPlaced(slots) && Shaped(slots) && cap >= 2
    requires Find(slots, a).Found? && a != k && !Find(slots, k).Exhausted?
    requires RepairMoveAsWritten(slots, k, v, cap).Ok?
    ensures RepairMoveAsWritten(slots, k, v, cap).value[Find(slots, a).at] == slots[Find(slots, a).at]
    ensures Find(RepairMoveAsWritten(slots, k, v, cap).value, a) == Find(slots, a)
  {
    var i := Find(slots, a).at;
    var claimed := Claim(slots, k, true, cap);
    var o := Find(slots, k).at;
    var after := RepairMoveAsWritten(slots, k, v, cap).value;
    assert OuterSlotAsWritten(slots, k, true).value == o;
    assert o != i;
    assert Find(claimed, a) == Found(i) by {
      if Find(slots, k).Vacant? {
        FoundSurvivesFill(slots, a, o, Some((k, EmptyInner(cap))));
      }
    }
    assert claimed[o].Some? && claimed[o].value.0 == k;
    assert forall j :: 0 <= j < |claimed| && j != o ==> after[j] == claimed[j];
    assert after[o].Some? && after[o].value.0 == k;
    SameKeysSameStop(claimed, after, a, Home(a, |claimed|), 0);
  }

  /** Key1 `a` holds the pair `(a, y) -> v`, stored at inner slot `p`, right
      behind the slot `__delitem__` empties. When the outer probe for `y`
      stops at `y`'s slot or a free one, lifting the entry out and moving it
      as written puts it under the `key1` `y` and never back under `a`: the
      pair `(a, y)`, which `__delitem__` was not asked to remove, no longer
      looks up. `Repair` puts it back into `a`'s
      own inner table, where `DeleteSpec` shows it is still found. */
  lemma RepairMoveAsWrittenLosesPair(slots: Outer<Key>, cap: nat, a: Key, p: nat, y: Key, v: Key)
    requires Placed(slots, cap) && Find(slots, a).Found? && y != a && !Find(slots, y).Exhausted?
    requires p < |slots[Find(slots, a).at].value.1|
    requires slots[Find(slots, a).at].value.1[p] == Some((y, v))
    ensures Get(slots, a, y) == Ok(v)
    ensures var i := Find(slots, a).at;
      var lifted := slots[i := Some((a, slots[i].value.1[p := None]))];
      && Shaped(lifted)
      && RepairMoveAsWritten(lifted, y, v, cap).Ok?
      ==> Get(RepairMoveAsWritten(lifted, y, v, cap).value, a, y) == Err(KeyError)
  {
    var i := Find(slots, a).at;
    var inner := slots[i].value.1;
    var cleared := inner[p := None];
    assert (y, v) in Entries(inner);
    LookupIsEntry(inner, y, v);
    ClearedLosesKey(inner, p, y, v);
    var lifted := slots[i := Some((a, cleared))];
    Overwrite(slots, a, cleared);
    assert Find(lifted, a) == Found(i);
    if Shaped(lifted) && RepairMoveAsWritten(lifted, y, v, cap).Ok? {
      RepairMoveAsWrittenKeepsOuter(lifted, y, v, cap, a);
    }
  }

  /** Emptying the slot of a key in a well-placed table leaves no entry for
      that key. */
  lemma ClearedLosesKey(inner: Slots<Key>, p: nat, y: Key, v: Key)
    requires WellPlaced(inner) && p < |inner| && inner[p] == Some((y, v))
    ensures Lookup(inner[p := None], y) == Err(KeyError)
  {
    var cleared := inner[p := None];
    WellPlacedDistinct(inner);
    forall j | 0 <= j < |cleared| && cleared[j].Some?
      ensures cleared[j].value.0 != y
    {
      assert j != p;
      assert inner[j] == cleared[j];
    }
    LookupAbsent(cleared, y);
  }
}
