/** Open addressing with +1 linear probing over a sequence of slots: the
    scheme both levels of the double-key table use. The outer table probes
    its `key1`s with `hash1`; every inner table probes its `key2`s with
    `hash2`. Both hashes are the same rolling polynomial, taken modulo the
    size of the table being probed. */
module Probing {
  import opened Results

  type Key = string

  /** A probe table: each slot is free or holds a `(key, item)` pair. */
  type Slots<X> = seq<Option<(Key, X)>>

  const HashSeed: nat := 31415
  const HashBase: nat := 31

  /** The rolling hash of `key[i..]`, continuing from the running `value` and
      multiplier `a`. */
  function HashFrom(key: Key, i: nat, value: nat, a: nat, size: nat): (r: nat)
    requires i <= |key| && size >= 2 && value < size
    ensures r < size
    ensures i == |key| ==> r == value
    decreases |key| - i
  {
    if i == |key| then value
    else HashFrom(key, i + 1, (key[i] as int + a * value) % size, a * HashBase % (size - 1), size)
  }

  /** `hash1` / `hash2`: the polynomial hash of `key` for a table of `size` slots. */
  function PolyHash(key: Key, size: nat): (r: nat)
    requires size >= 2
    ensures r < size
    ensures key == [] ==> r == 0
  {
    HashFrom(key, 0, 0, HashSeed, size)
  }

  /** The accumulator loop of `hash1` / `hash2`. */
  method RollingHash(key: Key, size: nat) returns (r: nat)
    requires size >= 2
    ensures r == PolyHash(key, size)
  {
    var value: nat := 0;
    var a: nat := HashSeed;
    for i := 0 to |key|
      invariant value < size
      invariant HashFrom(key, i, value, a, size) == PolyHash(key, size)
    {
      value := (key[i] as int + a * value) % size;
      a := a * HashBase % (size - 1);
    }
    r := value;
  }

  // Positions along a probe sequence, written without `%` so that the solver
  // reasons about them linearly.

  /** The slot `d` steps after `h` in cyclic order. */
  function Pos(h: nat, d: nat, n: nat): (r: nat)
    requires h < n && d < n
    ensures r < n
  {
    if h + d < n then h + d else h + d - n
  }

  /** How many steps a probe starting at `h` takes to reach slot `j`. */
  function Dist(h: nat, j: nat, n: nat): (r: nat)
    requires h < n && j < n
    ensures r < n && Pos(h, r, n) == j
  {
    if h <= j then j - h else j + n - h
  }

  lemma DistOfPos(h: nat, d: nat, n: nat)
    requires h < n && d < n
    ensures Dist(h, Pos(h, d, n), n) == d
  {
  }

  /** `(p + 1) % n`: the next slot a probe looks at. */
  function Next(p: nat, n: nat): (r: nat)
    requires p < n
    ensures r < n && r == (p + 1) % n
  {
    if p + 1 == n then 0 else p + 1
  }

  /** A probe for `key` stops at a free slot or at the key's own slot. */
  predicate Halts<X>(s: Slots<X>, key: Key, j: nat)
    requires j < |s|
  {
    s[j].None? || s[j].value.0 == key
  }

  /** The number of steps, from `d` on, before a probe for `key` that started
      at `h` stops; `|s|` when it goes all the way round. */
  function Stop<X>(s: Slots<X>, key: Key, h: nat, d: nat): (r: nat)
    requires h < |s| && d <= |s|
    ensures d <= r <= |s|
    ensures forall e :: d <= e < r ==> !Halts(s, key, Pos(h, e, |s|))
    ensures r < |s| ==> Halts(s, key, Pos(h, r, |s|))
    decreases |s| - d
  {
    if d == |s| then d
    else if Halts(s, key, Pos(h, d, |s|)) then d
    else Stop(s, key, h, d + 1)
  }

  /** The stopping step is the first step at which the probe halts. */
  lemma StopIs<X>(s: Slots<X>, key: Key, h: nat, r: nat)
    requires h < |s| && r <= |s|
    requires forall e :: 0 <= e < r ==> !Halts(s, key, Pos(h, e, |s|))
    requires r < |s| ==> Halts(s, key, Pos(h, r, |s|))
    ensures Stop(s, key, h, 0) == r
  {
  }

  /** Where a probe for `key` ends. */
  datatype Probe = Found(at: nat) | Vacant(at: nat) | Exhausted

  /** The slot a key's probe starts from. */
  function Home(key: Key, n: nat): (r: nat)
    requires n >= 2
    ensures r < n
  {
    PolyHash(key, n)
  }

  /** Steps a probe for `key` takes before it stops. */
  function Offset<X>(s: Slots<X>, key: Key): (r: nat)
    requires |s| >= 2
    ensures r <= |s|
  {
    Stop(s, key, Home(key, |s|), 0)
  }

  /** Linear probing from the key's home slot: the key's slot, else the
      first free slot, else nothing after a full turn. */
  function Find<X>(s: Slots<X>, key: Key): (r: Probe)
    requires |s| >= 2
    ensures r.Found? ==> r.at < |s| && s[r.at].Some? && s[r.at].value.0 == key
    ensures r.Vacant? ==> r.at < |s| && s[r.at].None?
    ensures r.Exhausted? <==> Offset(s, key) == |s|
    ensures !r.Exhausted? ==> r.at == Pos(Home(key, |s|), Offset(s, key), |s|)
  {
    var d := Offset(s, key);
    if d == |s| then Exhausted
    else
      var j := Pos(Home(key, |s|), d, |s|);
      if s[j].None? then Vacant(j) else Found(j)
  }

  /** `_linear_probe`: walk at most one full turn from the home slot. */
  method LinearProbe<X>(s: Slots<X>, key: Key) returns (r: Probe)
    requires |s| >= 2
    ensures r == Find(s, key)
  {
    var n := |s|;
    var h := RollingHash(key, n);
    var position := h;
    for step := 0 to n
      invariant step < n ==> position == Pos(h, step, n)
      invariant forall e :: 0 <= e < step ==> !Halts(s, key, Pos(h, e, n))
    {
      if s[position].None? {
        StopIs(s, key, h, step);
        return Vacant(position);
      } else if s[position].value.0 == key {
        StopIs(s, key, h, step);
        return Found(position);
      }
      position := Next(position, n);
    }
    StopIs(s, key, h, n);
    r := Exhausted;
  }

  /** Every stored key is where its own probe finds it. This is the table's
      invariant: lookups reach every entry that inserts placed. */
  ghost predicate WellPlaced<X>(s: Slots<X>)
  {
    && |s| >= 2
    && forall j :: 0 <= j < |s| && s[j].Some? ==> Find(s, s[j].value.0) == Found(j)
  }

  /** No key is stored in two slots. */
  ghost predicate DistinctKeys<X>(s: Slots<X>)
  {
    forall i, j :: 0 <= i < |s| && 0 <= j < |s| && s[i].Some? && s[j].Some? && s[i].value.0 == s[j].value.0 ==> i == j
  }

  /** The pairs a table stores. */
  ghost function Entries<X>(s: Slots<X>): set<(Key, X)>
  {
    set j | 0 <= j < |s| && s[j].Some? :: s[j].value
  }

  lemma WellPlacedDistinct<X>(s: Slots<X>)
    requires WellPlaced(s)
    ensures DistinctKeys(s)
  {
    forall i, j | 0 <= i < |s| && 0 <= j < |s| && s[i].Some? && s[j].Some? && s[i].value.0 == s[j].value.0
      ensures i == j
    {
      assert Find(s, s[i].value.0) == Found(i);
      assert Find(s, s[j].value.0) == Found(j);
    }
  }

  /** The value a lookup returns: the item in the key's slot, else `KeyError`. */
  function Lookup<X>(s: Slots<X>, key: Key): (r: Result<X>)
    requires |s| >= 2
    ensures r.Err? ==> r.error == KeyError
  {
    match Find(s, key)
    case Found(j) => Ok(s[j].value.1)
    case _ => Err(KeyError)
  }

  /** In a well-placed table a lookup succeeds exactly on the stored pairs. */
  lemma LookupIsEntry<X>(s: Slots<X>, key: Key, x: X)
    requires WellPlaced(s)
    ensures Lookup(s, key) == Ok(x) <==> (key, x) in Entries(s)
  {
    if (key, x) in Entries(s) {
      var j :| 0 <= j < |s| && s[j].Some? && s[j].value == (key, x);
      assert Find(s, key) == Found(j);
    }
  }

  /** A key with no entry looks up to `KeyError`. */
  lemma LookupAbsent<X>(s: Slots<X>, key: Key)
    requires |s| >= 2 && forall x :: (key, x) !in Entries(s)
    ensures Lookup(s, key) == Err(KeyError)
  {
  }

  /** A key that is stored somewhere is found by its probe. */
  lemma StoredIsFound<X>(s: Slots<X>, key: Key)
    requires WellPlaced(s)
    ensures (exists j :: 0 <= j < |s| && s[j].Some? && s[j].value.0 == key) <==> Find(s, key).Found?
  {
    if exists j :: 0 <= j < |s| && s[j].Some? && s[j].value.0 == key {
      var j :| 0 <= j < |s| && s[j].Some? && s[j].value.0 == key;
      assert Find(s, key) == Found(j);
    }
  }

  /** Changing a slot the probe for `key` never reaches leaves the probe's
      result unchanged. */
  lemma FindSurvivesUpdate<X>(s: Slots<X>, key: Key, p: nat, x: Option<(Key, X)>)
    requires |s| >= 2 && p < |s| && Find(s, key).Found?
    requires Dist(Home(key, |s|), p, |s|) > Offset(s, key)
    ensures Find(s[p := x], key) == Find(s, key)
  {
    var t, n, h, d := s[p := x], |s|, Home(key, |s|), Offset(s, key);
    forall e | 0 <= e < d
      ensures !Halts(t, key, Pos(h, e, n))
    {
      DistOfPos(h, e, n);
    }
    DistOfPos(h, d, n);
    StopIs(t, key, h, d);
  }

  /** Filling a free slot never disturbs a probe that finds its key. */
  lemma FoundSurvivesFill<X>(s: Slots<X>, key: Key, q: nat, x: Option<(Key, X)>)
    requires |s| >= 2 && q < |s| && s[q].None? && Find(s, key).Found?
    ensures Find(s[q := x], key) == Find(s, key)
  {
    var h := Home(key, |s|);
    var e := Dist(h, q, |s|);
    DistOfPos(h, Offset(s, key), |s|);
    assert !(e < Offset(s, key)) by {
      assert Pos(h, e, |s|) == q;
    }
    FindSurvivesUpdate(s, key, q, x);
  }

  /** A key placed in the free slot its probe stopped at is then found there. */
  lemma VacantBecomesFound<X>(s: Slots<X>, key: Key, x: X)
    requires |s| >= 2 && Find(s, key).Vacant?
    ensures Find(s[Find(s, key).at := Some((key, x))], key) == Found(Find(s, key).at)
  {
    var q := Find(s, key).at;
    var t, n, h, d := s[q := Some((key, x))], |s|, Home(key, |s|), Offset(s, key);
    forall e | 0 <= e < d
      ensures !Halts(t, key, Pos(h, e, n))
    {
      DistOfPos(h, e, n);
      DistOfPos(h, d, n);
    }
    StopIs(t, key, h, d);
  }

  /** `__setitem__` on a free slot: the new key is found, every other entry
      still is. */
  lemma PlaceVacant<X>(s: Slots<X>, key: Key, x: X)
    requires WellPlaced(s) && Find(s, key).Vacant?
    ensures WellPlaced(s[Find(s, key).at := Some((key, x))])
    ensures Entries(s[Find(s, key).at := Some((key, x))]) == Entries(s) + {(key, x)}
  {
    var q := Find(s, key).at;
    var t := s[q := Some((key, x))];
    VacantBecomesFound(s, key, x);
    forall j | 0 <= j < |t| && t[j].Some?
      ensures Find(t, t[j].value.0) == Found(j)
    {
      if j != q {
        FoundSurvivesFill(s, s[j].value.0, q, Some((key, x)));
      }
    }
    assert forall j :: 0 <= j < |t| && j != q ==> t[j] == s[j];
  }

  /** `__setitem__` on the key's own slot: only the item changes. */
  lemma Overwrite<X>(s: Slots<X>, key: Key, x: X)
    requires WellPlaced(s) && Find(s, key).Found?
    ensures WellPlaced(s[Find(s, key).at := Some((key, x))])
    ensures forall k :: Find(s[Find(s, key).at := Some((key, x))], k) == Find(s, k)
  {
    var j := Find(s, key).at;
    var t := s[j := Some((key, x))];
    forall k
      ensures Find(t, k) == Find(s, k)
    {
      SameKeysSameStop(s, t, k, Home(k, |s|), 0);
    }
  }

  /** Two tables with the same keys in the same slots probe alike. */
  lemma {:induction false} SameKeysSameStop<X>(s: Slots<X>, t: Slots<X>, key: Key, h: nat, d: nat)
    requires |s| == |t| && h < |s| && d <= |s|
    requires forall j :: 0 <= j < |s| ==> s[j].None? == t[j].None? && (s[j].Some? ==> s[j].value.0 == t[j].value.0)
    ensures Stop(s, key, h, d) == Stop(t, key, h, d)
    decreases |s| - d
  {
    if d < |s| {
      var j := Pos(h, d, |s|);
      assert Halts(s, key, j) == Halts(t, key, j);
      SameKeysSameStop(s, t, key, h, d + 1);
    }
  }

  // Cluster repair after a delete.

  lemma ShiftPos(h: nat, a: nat, e: nat, n: nat)
    requires h < n && a + 1 + e < n
    ensures Pos(Next(Pos(h, a, n), n), e, n) == Pos(h, a + 1 + e, n)
  {
  }

  /** Slots `start` to `j`, in cyclic order, are all occupied: `j` lies in the
      run of entries that begins at `start`. */
  ghost predicate Run<X>(s: Slots<X>, start: nat, j: nat)
    requires start < |s| && j < |s|
  {
    forall e :: 0 <= e <= Dist(start, j, |s|) ==> s[Pos(start, e, |s|)].Some?
  }

  /** The state of a repair about to look at slot `pos`: an entry that its
      probe would miss lies in the run that begins at `pos`. */
  ghost predicate Repairing<X>(s: Slots<X>, pos: nat)
  {
    && |s| >= 2 && pos < |s|
    && forall j :: 0 <= j < |s| && s[j].Some? ==> Find(s, s[j].value.0) == Found(j) || Run(s, pos, j)
  }

  /** Clearing slot `p` on the probe path to `key`'s slot leaves that slot in
      the run after `p`. */
  lemma BrokenInRun<X>(s: Slots<X>, key: Key, p: nat, x: Option<(Key, X)>)
    requires |s| >= 2 && p < |s| && Find(s, key).Found?
    requires Dist(Home(key, |s|), p, |s|) < Offset(s, key)
    ensures Run(s[p := x], Next(p, |s|), Find(s, key).at)
  {
    var t, n, h, d, j := s[p := x], |s|, Home(key, |s|), Offset(s, key), Find(s, key).at;
    var a := Dist(h, p, n);
    var start := Next(p, n);
    ShiftPos(h, a, d - a - 1, n);
    DistOfPos(start, d - a - 1, n);
    assert Dist(start, j, n) == d - a - 1;
    forall e | 0 <= e <= d - a - 1
      ensures t[Pos(start, e, n)].Some?
    {
      ShiftPos(h, a, e, n);
      DistOfPos(h, a + 1 + e, n);
      DistOfPos(h, a, n);
      assert Pos(h, a + 1 + e, n) != p;
    }
  }

  /** Moving past an occupied slot `p` keeps the rest of its run a run. */
  lemma RunShift<X>(s: Slots<X>, p: nat, j: nat, x: Option<(Key, X)>)
    requires p < |s| && j < |s| && j != p && Run(s, p, j)
    ensures Run(s[p := x], Next(p, |s|), j)
  {
    var n, t, start := |s|, s[p := x], Next(p, |s|);
    var k := Dist(p, j, n);
    ShiftPos(p, 0, k - 1, n);
    DistOfPos(start, k - 1, n);
    forall e | 0 <= e <= k - 1
      ensures t[Pos(start, e, n)].Some?
    {
      ShiftPos(p, 0, e, n);
      DistOfPos(p, e + 1, n);
    }
  }

  /** After slot `i` is cleared, only the run behind it can hold misplaced entries. */
  lemma ClearStart<X>(s: Slots<X>, i: nat)
    requires WellPlaced(s) && i < |s|
    ensures Repairing(s[i := None], Next(i, |s|))
  {
    var t := s[i := None];
    forall j | 0 <= j < |t| && t[j].Some?
      ensures Find(t, t[j].value.0) == Found(j) || Run(t, Next(i, |s|), j)
    {
      var key := s[j].value.0;
      var h := Home(key, |s|);
      assert Find(s, key) == Found(j);
      DistOfPos(h, Offset(s, key), |s|);
      if Dist(h, i, |s|) < Offset(s, key) {
        BrokenInRun(s, key, i, None);
      } else {
        FindSurvivesUpdate(s, key, i, None);
      }
    }
  }

  /** Re-inserting the entry lifted out of slot `pos` lands in a free slot no
      later than `pos` on its own probe path. */
  lemma ReinsertVacant<X>(r: Slots<X>, pos: nat)
    requires |r| >= 2 && pos < |r| && r[pos].Some? && DistinctKeys(r)
    ensures Find(r[pos := None], r[pos].value.0).Vacant?
    ensures Offset(r[pos := None], r[pos].value.0) <= Dist(Home(r[pos].value.0, |r|), pos, |r|)
  {
    var key, t := r[pos].value.0, r[pos := None];
    var h := Home(key, |r|);
    assert Halts(t, key, Pos(h, Dist(h, pos, |r|), |r|));
  }

  /** One step of the repair loop keeps the repair state, one slot further on. */
  /** The table after the entry in slot `pos` is lifted out and re-inserted
      at the free slot its probe reaches. */
  ghost function Lifted<X>(r: Slots<X>, pos: nat): Slots<X>
    requires |r| >= 2 && pos < |r| && r[pos].Some?
  {
    var t := r[pos := None];
    var f := Find(t, r[pos].value.0);
    if f.Vacant? then t[f.at := r[pos]] else t
  }

  lemma RepairStep<X>(r: Slots<X>, pos: nat)
    requires Repairing(r, pos) && DistinctKeys(r) && r[pos].Some?
    ensures Find(r[pos := None], r[pos].value.0).Vacant?
    ensures var u := Lifted(r, pos);
      && Repairing(u, Next(pos, |r|)) && DistinctKeys(u) && Entries(u) == Entries(r)
  {
    var item := r[pos].value;
    var t := r[pos := None];
    ReinsertVacant(r, pos);
    var q := Find(t, item.0).at;
    var u := t[q := Some(item)];
    assert u == Lifted(r, pos);
    VacantBecomesFound(t, item.0, item.1);
    forall j | 0 <= j < |u| && u[j].Some?
      ensures Find(u, u[j].value.0) == Found(j) || Run(u, Next(pos, |r|), j)
    {
      if j != q {
        RepairStepAt(r, pos, j);
      }
    }
    MoveEntry(r, pos, q);
  }

  /** Moving the entry of slot `pos` to a free slot `q` keeps the entries and
      their distinct keys. */
  lemma MoveEntry<X>(r: Slots<X>, pos: nat, q: nat)
    requires pos < |r| && q < |r| && r[pos].Some? && DistinctKeys(r)
    requires q == pos || r[q].None?
    ensures DistinctKeys(r[pos := None][q := r[pos]])
    ensures Entries(r[pos := None][q := r[pos]]) == Entries(r)
  {
    var u := r[pos := None][q := r[pos]];
    assert forall j :: 0 <= j < |u| && j != q && j != pos ==> u[j] == r[j];
    forall y | y in Entries(r)
      ensures y in Entries(u)
    {
      var j :| 0 <= j < |r| && r[j].Some? && r[j].value == y;
      if j == pos {
        assert u[q].value == y;
      }
    }
  }

  /** An entry the step does not lift is still found, or still lies in the
      run that is being repaired. */
  lemma RepairStepAt<X>(r: Slots<X>, pos: nat, j: nat)
    requires Repairing(r, pos) && DistinctKeys(r) && r[pos].Some?
    requires Find(r[pos := None], r[pos].value.0).Vacant?
    requires j < |r| && j != Find(r[pos := None], r[pos].value.0).at
    ensures var u := Lifted(r, pos);
      u[j].Some? ==> Find(u, u[j].value.0) == Found(j) || Run(u, Next(pos, |r|), j)
  {
    var item := r[pos].value;
    var t := r[pos := None];
    var q := Find(t, item.0).at;
    var u := t[q := Some(item)];
    assert u == Lifted(r, pos);
    if u[j].Some? {
      var key := r[j].value.0;
      var h := Home(key, |r|);
      if Find(r, key) == Found(j) {
        DistOfPos(h, Offset(r, key), |r|);
        if Dist(h, pos, |r|) < Offset(r, key) {
          BrokenInRun(r, key, pos, None);
        } else {
          FindSurvivesUpdate(r, key, pos, None);
          FoundSurvivesFill(t, key, q, Some(item));
        }
      } else {
        RunShift(r, pos, j, None);
      }
    }
  }

  /** The number of occupied slots among the first `m`. */
  function OccupiedIn<X>(s: Slots<X>, m: nat): (r: nat)
    requires m <= |s|
    ensures r <= m
  {
    if m == 0 then 0 else OccupiedIn(s, m - 1) + (if s[m - 1].Some? then 1 else 0)
  }

  /** The number of stored entries. */
  function Occupied<X>(s: Slots<X>): (r: nat)
    ensures r <= |s|
  {
    OccupiedIn(s, |s|)
  }

  lemma {:induction false} OccupiedUpdate<X>(s: Slots<X>, p: nat, x: Option<(Key, X)>, m: nat)
    requires p < |s| && m <= |s|
    ensures OccupiedIn(s[p := x], m) + (if p < m && s[p].Some? then 1 else 0)
         == OccupiedIn(s, m) + (if p < m && x.Some? then 1 else 0)
  {
    if m > 0 {
      OccupiedUpdate(s, p, x, m - 1);
    }
  }

  /** A table with fewer entries than slots has a free slot. */
  lemma {:induction false} FreeSlotExists<X>(s: Slots<X>, m: nat)
    requires m <= |s| && OccupiedIn(s, m) < m
    ensures exists j :: 0 <= j < m && s[j].None?
  {
    if s[m - 1].Some? {
      FreeSlotExists(s, m - 1);
    }
  }

  /** How far entry `j` sits past its home slot. */
  ghost function Displacement<X>(s: Slots<X>, j: nat): nat
    requires |s| >= 2 && j < |s|
  {
    if s[j].Some? then Dist(Home(s[j].value.0, |s|), j, |s|) else 0
  }

  ghost function DisplacementIn<X>(s: Slots<X>, m: nat): nat
    requires |s| >= 2 && m <= |s|
  {
    if m == 0 then 0 else DisplacementIn(s, m - 1) + Displacement(s, m - 1)
  }

  lemma {:induction false} DisplacementUpdate<X>(s: Slots<X>, p: nat, x: Option<(Key, X)>, m: nat)
    requires |s| >= 2 && p < |s| && m <= |s|
    ensures DisplacementIn(s[p := x], m) + (if p < m then Displacement(s, p) else 0)
         == DisplacementIn(s, m) + (if p < m then Displacement(s[p := x], p) else 0)
  {
    if m > 0 {
      DisplacementUpdate(s, p, x, m - 1);
      assert m - 1 != p ==> Displacement(s[p := x], m - 1) == Displacement(s, m - 1);
    }
  }

  /** Steps from `p`, counting from `d`, to the first free slot; `|s|` if none. */
  function Gap<X>(s: Slots<X>, p: nat, d: nat): (r: nat)
    requires p < |s| && d <= |s|
    ensures d <= r <= |s|
    ensures forall e :: d <= e < r ==> s[Pos(p, e, |s|)].Some?
    ensures r < |s| ==> s[Pos(p, r, |s|)].None?
    decreases |s| - d
  {
    if d == |s| then d
    else if s[Pos(p, d, |s|)].None? then d
    else Gap(s, p, d + 1)
  }

  /** Stepping past an occupied slot brings the next free slot one step closer. */
  lemma GapShrinks<X>(s: Slots<X>, p: nat)
    requires p < |s| && s[p].Some? && Occupied(s) < |s|
    ensures Gap(s, Next(p, |s|), 0) < Gap(s, p, 0)
  {
    var n := |s|;
    FreeSlotExists(s, n);
    var j :| 0 <= j < n && s[j].None?;
    assert s[Pos(p, Dist(p, j, n), n)].None?;
    var g := Gap(s, p, 0);
    assert s[Pos(p, 0, n)].Some?;
    ShiftPos(p, 0, g - 1, n);
    var g2 := Gap(s, Next(p, n), 0);
    forall e | 0 <= e < g - 1
      ensures s[Pos(Next(p, n), e, n)].Some?
    {
      ShiftPos(p, 0, e, n);
    }
  }

  /** The repair loop ends: either the entry returns to its own slot and the
      free slot ahead comes a step closer, or it moves back along its probe
      path and the total displacement drops. */
  lemma RepairProgress<X>(r: Slots<X>, pos: nat)
    requires |r| >= 2 && pos < |r| && r[pos].Some? && DistinctKeys(r) && Occupied(r) < |r|
    ensures Find(r[pos := None], r[pos].value.0).Vacant?
    ensures var q := Find(r[pos := None], r[pos].value.0).at;
      var u := Lifted(r, pos);
      && Occupied(u) == Occupied(r)
      && (q == pos ==> u == r && Gap(u, Next(pos, |r|), 0) < Gap(r, pos, 0))
      && (q != pos ==> DisplacementIn(u, |r|) < DisplacementIn(r, |r|))
  {
    var n, item := |r|, r[pos].value;
    var t := r[pos := None];
    ReinsertVacant(r, pos);
    var q := Find(t, item.0).at;
    var u := t[q := Some(item)];
    OccupiedUpdate(r, pos, None, n);
    OccupiedUpdate(t, q, Some(item), n);
    DisplacementUpdate(r, pos, None, n);
    DisplacementUpdate(t, q, Some(item), n);
    if q == pos {
      assert u == r;
      GapShrinks(r, pos);
    } else {
      DistOfPos(Home(item.0, n), Offset(t, item.0), n);
    }
  }

  /** Clearing the deleted slot: the repair can start at the next slot. */
  lemma RepairStart<X>(s: Slots<X>, i: nat)
    requires WellPlaced(s) && i < |s| && s[i].Some?
    ensures Repairing(s[i := None], Next(i, |s|)) && DistinctKeys(s[i := None])
    ensures Entries(s[i := None]) == Entries(s) - {s[i].value}
    ensures Occupied(s[i := None]) == Occupied(s) - 1
  {
    var r := s[i := None];
    WellPlacedDistinct(s);
    ClearStart(s, i);
    OccupiedUpdate(s, i, None, |s|);
    assert forall j :: 0 <= j < |s| && r[j].Some? ==> j != i && r[j].value.0 != s[i].value.0;
  }

  /** The repair stops at a free slot, where no run begins: every entry is
      found again. */
  lemma RepairDone<X>(r: Slots<X>, pos: nat)
    requires Repairing(r, pos) && r[pos].None?
    ensures WellPlaced(r)
  {
    assert Pos(pos, 0, |r|) == pos;
  }

  /** One pass of the repair loop: lift the entry out of slot `pos`, probe for
      its key and put it back in the free slot found. */
  method Reinsert<X>(r: Slots<X>, pos: nat) returns (u: Slots<X>, next: nat)
    requires Repairing(r, pos) && DistinctKeys(r) && r[pos].Some? && Occupied(r) < |r|
    ensures |u| == |r| && next == (pos + 1) % |r|
    ensures Repairing(u, next) && DistinctKeys(u)
    ensures Entries(u) == Entries(r) && Occupied(u) == Occupied(r)
    ensures DisplacementIn(u, |u|) < DisplacementIn(r, |r|)
         || (DisplacementIn(u, |u|) == DisplacementIn(r, |r|) && Gap(u, next, 0) < Gap(r, pos, 0))
  {
    var item := r[pos].value;
    var probe := LinearProbe(r[pos := None], item.0);
    RepairStep(r, pos);
    RepairProgress(r, pos);
    ghost var lifted := Lifted(r, pos);
    u := r[pos := None][probe.at := Some(item)];
    assert u == lifted;
    next := (pos + 1) % |r|;
  }

  /** The repair loop: re-insert entries from `pos` on until a free slot. */
  method Repair<X>(s: Slots<X>, start: nat) returns (r: Slots<X>)
    requires Repairing(s, start) && DistinctKeys(s) && Occupied(s) < |s|
    ensures |r| == |s| && WellPlaced(r)
    ensures Entries(r) == Entries(s) && Occupied(r) == Occupied(s)
  {
    var n := |s|;
    r := s;
    var pos: nat := start;
    while r[pos].Some?
      invariant |r| == n && pos < n
      invariant Repairing(r, pos) && DistinctKeys(r)
      invariant Entries(r) == Entries(s) && Occupied(r) == Occupied(s)
      decreases DisplacementIn(r, n), Gap(r, pos, 0)
    {
      r, pos := Reinsert(r, pos);
    }
    RepairDone(r, pos);
  }

  /** `__delitem__` of an inner table: clear slot `i`, then lift out and
      re-insert every entry of the run behind it until a free slot ends the
      run. */
  method RemoveAt<X>(s: Slots<X>, i: nat) returns (r: Slots<X>)
    requires WellPlaced(s) && i < |s| && s[i].Some?
    ensures |r| == |s| && WellPlaced(r)
    ensures Entries(r) == Entries(s) - {s[i].value}
    ensures Occupied(r) == Occupied(s) - 1
  {
    RepairStart(s, i);
    r := s[i := None];
    r := Repair(r, (i + 1) % |s|);
  }

  /** The table after `key` is written, with item `x`, at the slot its probe
      reached. */
  function Put<X>(s: Slots<X>, key: Key, x: X): (r: Slots<X>)
    requires |s| >= 2 && !Find(s, key).Exhausted?
    ensures |r| == |s|
  {
    s[Find(s, key).at := Some((key, x))]
  }

  /** Writing a key: it then looks up to the new item, every other key to
      what it did before, and the entry count grows exactly when the key was
      new. */
  lemma PutSpec<X>(s: Slots<X>, key: Key, x: X)
    requires WellPlaced(s) && !Find(s, key).Exhausted?
    ensures WellPlaced(Put(s, key, x))
    ensures Lookup(Put(s, key, x), key) == Ok(x)
    ensures forall k :: k != key ==> Lookup(Put(s, key, x), k) == Lookup(s, k)
    ensures Occupied(Put(s, key, x)) == Occupied(s) + (if Find(s, key).Vacant? then 1 else 0)
  {
    var j := Find(s, key).at;
    var t := Put(s, key, x);
    OccupiedUpdate(s, j, Some((key, x)), |s|);
    if Find(s, key).Vacant? {
      PlaceVacant(s, key, x);
      VacantBecomesFound(s, key, x);
      forall k | k != key
        ensures Lookup(t, k) == Lookup(s, k)
      {
        if Lookup(t, k).Ok? {
          LookupIsEntry(t, k, Lookup(t, k).value);
          LookupIsEntry(s, k, Lookup(t, k).value);
        }
        if Lookup(s, k).Ok? {
          LookupIsEntry(t, k, Lookup(s, k).value);
          LookupIsEntry(s, k, Lookup(s, k).value);
        }
      }
    } else {
      Overwrite(s, key, x);
    }
  }

  /** After the entry for `key` in slot `i` is removed, `key` is missing and
      every other key looks up as before. */
  lemma RemoveSpec<X>(s: Slots<X>, i: nat, r: Slots<X>)
    requires WellPlaced(s) && i < |s| && s[i].Some?
    requires WellPlaced(r) && Entries(r) == Entries(s) - {s[i].value}
    ensures Lookup(r, s[i].value.0) == Err(KeyError)
    ensures forall k :: k != s[i].value.0 ==> Lookup(r, k) == Lookup(s, k)
  {
    var key := s[i].value.0;
    WellPlacedDistinct(s);
    forall x
      ensures (key, x) !in Entries(r)
    {
      if (key, x) in Entries(s) {
        var j :| 0 <= j < |s| && s[j].Some? && s[j].value == (key, x);
      }
    }
    LookupAbsent(r, key);
    forall k | k != key
      ensures Lookup(r, k) == Lookup(s, k)
    {
      if Lookup(r, k).Ok? {
        LookupIsEntry(r, k, Lookup(r, k).value);
        LookupIsEntry(s, k, Lookup(r, k).value);
      }
      if Lookup(s, k).Ok? {
        LookupIsEntry(r, k, Lookup(s, k).value);
        LookupIsEntry(s, k, Lookup(s, k).value);
      }
    }
  }

  /** A probe goes all the way round only in a full table. */
  lemma ExhaustedFull<X>(s: Slots<X>, key: Key)
    requires |s| >= 2 && Find(s, key).Exhausted?
    ensures Occupied(s) == |s|
  {
    var h := Home(key, |s|);
    forall j | 0 <= j < |s|
      ensures s[j].Some?
    {
      assert !Halts(s, key, Pos(h, Dist(h, j, |s|), |s|));
    }
    AllOccupied(s, |s|);
  }

  lemma {:induction false} AllOccupied<X>(s: Slots<X>, m: nat)
    requires m <= |s| && forall j :: 0 <= j < m ==> s[j].Some?
    ensures OccupiedIn(s, m) == m
  {
    if m > 0 {
      AllOccupied(s, m - 1);
    }
  }

  /** The keys of the first `m` slots, in slot order: what iterating a
      table yields, key by key. */
  function KeysIn<X>(s: Slots<X>, m: nat): (r: seq<Key>)
    requires m <= |s|
    ensures |r| == OccupiedIn(s, m)
  {
    if m == 0 then [] else KeysIn(s, m - 1) + (if s[m - 1].Some? then [s[m - 1].value.0] else [])
  }

  /** The items of the first `m` slots, in slot order. */
  function ItemsIn<X>(s: Slots<X>, m: nat): (r: seq<X>)
    requires m <= |s|
    ensures |r| == OccupiedIn(s, m)
  {
    if m == 0 then [] else ItemsIn(s, m - 1) + (if s[m - 1].Some? then [s[m - 1].value.1] else [])
  }

  /** A key is listed exactly when one of the first `m` slots holds it. */
  lemma {:induction false} KeysInMembers<X>(s: Slots<X>, m: nat, key: Key)
    requires m <= |s|
    ensures key in KeysIn(s, m) <==> exists j :: 0 <= j < m && s[j].Some? && s[j].value.0 == key
  {
    if m > 0 {
      KeysInMembers(s, m - 1, key);
    }
  }

  /** An item is listed exactly when one of the first `m` slots holds it. */
  lemma {:induction false} ItemsInMembers<X>(s: Slots<X>, m: nat, x: X)
    requires m <= |s|
    ensures x in ItemsIn(s, m) <==> exists j :: 0 <= j < m && s[j].Some? && s[j].value.1 == x
  {
    if m > 0 {
      ItemsInMembers(s, m - 1, x);
    }
  }

  /** No key of a table with distinct keys is listed twice. */
  lemma {:induction false} KeysInDistinct<X>(s: Slots<X>, m: nat)
    requires m <= |s| && DistinctKeys(s)
    ensures forall i, j :: 0 <= i < j < |KeysIn(s, m)| ==> KeysIn(s, m)[i] != KeysIn(s, m)[j]
  {
    if m > 0 {
      KeysInDistinct(s, m - 1);
      if s[m - 1].Some? {
        var key := s[m - 1].value.0;
        KeysInMembers(s, m - 1, key);
      }
    }
  }

  /** In a well-placed table the listed keys are exactly the keys a lookup
      finds, each once, and there are as many as entries. */
  lemma KeysFound<X>(s: Slots<X>, key: Key)
    requires WellPlaced(s)
    ensures key in KeysIn(s, |s|) <==> Find(s, key).Found?
    ensures |KeysIn(s, |s|)| == Occupied(s)
    ensures forall i, j :: 0 <= i < j < |KeysIn(s, |s|)| ==> KeysIn(s, |s|)[i] != KeysIn(s, |s|)[j]
  {
    KeysInMembers(s, |s|, key);
    StoredIsFound(s, key);
    WellPlacedDistinct(s);
    KeysInDistinct(s, |s|);
  }

  /** In a well-placed table the listed items are exactly the results of
      successful lookups. */
  lemma ItemsFound<X>(s: Slots<X>, x: X)
    requires WellPlaced(s)
    ensures x in ItemsIn(s, |s|) <==> exists key :: Lookup(s, key) == Ok(x)
  {
    ItemsInMembers(s, |s|, x);
    if x in ItemsIn(s, |s|) {
      var j :| 0 <= j < |s| && s[j].Some? && s[j].value.1 == x;
      assert Lookup(s, s[j].value.0) == Ok(x);
    }
  }

  /** Iterating a table: its keys in slot order. */
  method CollectKeys<X>(s: Slots<X>) returns (r: seq<Key>)
    ensures r == KeysIn(s, |s|)
  {
    r := [];
    for i := 0 to |s|
      invariant r == KeysIn(s, i)
    {
      if s[i].Some? {
        r := r + [s[i].value.0];
      }
    }
  }

  /** Iterating a table: its items in slot order. */
  method CollectItems<X>(s: Slots<X>) returns (r: seq<X>)
    ensures r == ItemsIn(s, |s|)
  {
    r := [];
    for i := 0 to |s|
      invariant r == ItemsIn(s, i)
    {
      if s[i].Some? {
        r := r + [s[i].value.1];
      }
    }
  }
}
