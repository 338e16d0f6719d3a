/** The "infinite" hash table: a trie of fixed 27-slot tables. A slot is
    empty, holds one `(key, value)` leaf, or holds a child table one level
    deeper. Level `l` routes a key by its `l`-th character (26 symbol slots)
    or, once the key is exhausted, to the terminal slot 26. */
module InfiniteHashTable {
  import opened Ordering
  import opened Results

  const TableSize: nat := 27

  type Key = string

  /** Keys the table can always separate: lower-case letters, whose code
      points are distinct modulo 26. */
  predicate IsLetterKey(key: Key)
  {
    forall i :: 0 <= i < |key| ==> 'a' <= key[i] <= 'z'
  }

  /** `hash`: the slot of `key` in a table at depth `level`. */
  function Hash(key: Key, level: nat): (r: nat)
    ensures r < TableSize
    ensures r == TableSize - 1 <==> |key| <= level
  {
    if level < |key| then (key[level] as int) % (TableSize - 1) else TableSize - 1
  }

  datatype Slot<V(==)> = Empty | Leaf(key: Key, value: V) | Child(table: Table<V>)

  /** One table of the trie: its depth, its slots and its number of reachable leaves. */
  datatype Table<V(==)> = Table(level: nat, slots: seq<Slot<V>>, count: nat)

  function EmptySlots<V(==)>(n: nat): (r: seq<Slot<V>>)
    ensures |r| == n && forall i :: 0 <= i < n ==> r[i] == Empty
  {
    if n == 0 then [] else EmptySlots(n - 1) + [Empty]
  }

  /** A freshly constructed table at depth `level`. */
  function EmptyTable<V(==)>(level: nat): Table<V>
  {
    Table(level, EmptySlots(TableSize), 0)
  }

  /** The leaves reachable from one slot, depth first, in slot order. */
  function SlotLeaves<V(==)>(x: Slot<V>): seq<(Key, V)>
    decreases x
  {
    match x
    case Empty => []
    case Leaf(k, v) => [(k, v)]
    case Child(c) => SlotsLeaves(c.slots)
  }

  function SlotsLeaves<V(==)>(s: seq<Slot<V>>): seq<(Key, V)>
    decreases s
  {
    if s == [] then [] else SlotLeaves(s[0]) + SlotsLeaves(s[1..])
  }

  function Leaves<V(==)>(t: Table<V>): seq<(Key, V)>
  {
    SlotsLeaves(t.slots)
  }

  function KeysOf<V(==)>(t: Table<V>): set<Key>
  {
    set p | p in Leaves(t) :: p.0
  }

  /** The structural invariant: 27 slots, `count` is the number of reachable
      leaves, every key is a letter key, and every slot is well formed. */
  ghost predicate ValidTable<V>(t: Table<V>)
    decreases t, 1
  {
    && |t.slots| == TableSize
    && t.count == |Leaves(t)|
    && (forall p :: p in Leaves(t) ==> IsLetterKey(p.0))
    && forall i :: 0 <= i < |t.slots| ==> ValidSlot(t.slots[i], t.level, i)
  }

  /** Every leaf under slot `i` of a table at depth `level` hashes to `i`
      there; a child sits one level deeper, is valid, and holds at least two
      leaves (a child reduced to one leaf is collapsed into its parent). */
  ghost predicate ValidSlot<V>(x: Slot<V>, level: nat, i: nat)
    decreases x, 0
  {
    && (forall p :: p in SlotLeaves(x) ==> Hash(p.0, level) == i)
    && (x.Child? ==> x.table.level == level + 1 && ValidTable(x.table) && x.table.count >= 2)
  }

  lemma {:induction false} SlotsLeavesAppend<V>(a: seq<Slot<V>>, b: seq<Slot<V>>)
    ensures SlotsLeaves(a + b) == SlotsLeaves(a) + SlotsLeaves(b)
    decreases |a|
  {
    if a == [] {
      assert a + b == b;
    } else {
      assert (a + b)[1..] == a[1..] + b;
      SlotsLeavesAppend(a[1..], b);
    }
  }

  /** The leaves of a slot sequence split around slot `i`. */
  lemma SlotsLeavesAt<V>(s: seq<Slot<V>>, i: nat)
    requires i < |s|
    ensures SlotsLeaves(s) == SlotsLeaves(s[..i]) + SlotLeaves(s[i]) + SlotsLeaves(s[i + 1..])
  {
    assert s == s[..i] + s[i..];
    SlotsLeavesAppend(s[..i], s[i..]);
    assert s[i..][0] == s[i] && s[i..][1..] == s[i + 1..];
  }

  /** Replacing slot `i` replaces exactly that slot's leaves. */
  lemma SlotsLeavesUpdate<V>(s: seq<Slot<V>>, i: nat, x: Slot<V>)
    requires i < |s|
    ensures SlotsLeaves(s[i := x]) == SlotsLeaves(s[..i]) + SlotLeaves(x) + SlotsLeaves(s[i + 1..])
    ensures SlotsLeaves(s) == SlotsLeaves(s[..i]) + SlotLeaves(s[i]) + SlotsLeaves(s[i + 1..])
  {
    SlotsLeavesAt(s, i);
    SlotsLeavesAt(s[i := x], i);
    assert s[i := x][..i] == s[..i];
    assert s[i := x][i + 1..] == s[i + 1..];
  }

  /** A leaf of the sequence comes from one of its slots. */
  lemma {:induction false} LeafInSomeSlot<V>(s: seq<Slot<V>>, p: (Key, V))
    requires p in SlotsLeaves(s)
    ensures exists i :: 0 <= i < |s| && p in SlotLeaves(s[i])
    decreases |s|
  {
    if p !in SlotLeaves(s[0]) {
      LeafInSomeSlot(s[1..], p);
      var i :| 0 <= i < |s[1..]| && p in SlotLeaves(s[1..][i]);
      assert s[1..][i] == s[i + 1];
    }
  }

  /** The leaves of a slot are leaves of the sequence. */
  lemma SlotLeafInLeaves<V>(s: seq<Slot<V>>, i: nat)
    requires i < |s|
    ensures forall p :: p in SlotLeaves(s[i]) ==> p in SlotsLeaves(s)
  {
    SlotsLeavesAt(s, i);
  }

  /** A stored key lives under the slot it hashes to. */
  lemma KeyInItsSlot<V>(t: Table<V>, key: Key)
    requires ValidTable(t)
    ensures key in KeysOf(t) ==> exists v :: (key, v) in SlotLeaves(t.slots[Hash(key, t.level)])
  {
    if key !in KeysOf(t) {
      return;
    }
    var p :| p in Leaves(t) && p.0 == key;
    LeafInSomeSlot(t.slots, p);
    var i :| 0 <= i < |t.slots| && p in SlotLeaves(t.slots[i]);
    assert ValidSlot(t.slots[i], t.level, i);
  }

  predicate NoDupKeys<V>(ps: seq<(Key, V)>)
  {
    forall i, j :: 0 <= i < j < |ps| ==> ps[i].0 != ps[j].0
  }

  /** No key is stored twice: leaves under different slots hash apart. */
  lemma ValidNoDup<V>(t: Table<V>)
    requires ValidTable(t)
    ensures NoDupKeys(Leaves(t))
  {
    NoDupSlots(t.slots, t.level, 0);
  }

  lemma {:induction false} NoDupSlot<V>(x: Slot<V>, level: nat, i: nat)
    requires ValidSlot(x, level, i)
    ensures NoDupKeys(SlotLeaves(x))
    decreases x
  {
    if x.Child? {
      NoDupSlots(x.table.slots, x.table.level, 0);
    }
  }

  lemma {:induction false} NoDupSlots<V>(s: seq<Slot<V>>, level: nat, base: nat)
    requires forall i :: 0 <= i < |s| ==> ValidSlot(s[i], level, base + i)
    ensures NoDupKeys(SlotsLeaves(s))
    decreases s
  {
    if s != [] {
      var a, b := SlotLeaves(s[0]), SlotsLeaves(s[1..]);
      assert ValidSlot(s[0], level, base);
      NoDupSlot(s[0], level, base);
      NoDupSlots(s[1..], level, base + 1);
      forall q | q in b
        ensures Hash(q.0, level) > base
      {
        LeafInSomeSlot(s[1..], q);
        var i :| 0 <= i < |s[1..]| && q in SlotLeaves(s[1..][i]);
        assert ValidSlot(s[1..][i], level, base + 1 + i);
      }
      forall i, j | 0 <= i < j < |a + b|
        ensures (a + b)[i].0 != (a + b)[j].0
      {
        if i < |a| && j >= |a| {
          assert (a + b)[i] in a && (a + b)[j] == b[j - |a|];
          assert b[j - |a|] in b;
        }
      }
    }
  }

  /** `__getitem__`: follow the key's slots down the trie. */
  function Get<V(==)>(t: Table<V>, key: Key): (r: Result<V>)
    requires ValidTable(t)
    ensures r.Ok? ==> (key, r.value) in Leaves(t)
    ensures r.Err? ==> r.error == KeyError && key !in KeysOf(t)
    decreases t
  {
    var s := Hash(key, t.level);
    assert ValidSlot(t.slots[s], t.level, s);
    KeyInItsSlot(t, key);
    SlotLeafInLeaves(t.slots, s);
    match t.slots[s]
    case Empty => Err(KeyError)
    case Leaf(k, v) => if k == key then Ok(v) else Err(KeyError)
    case Child(c) => Get(c, key)
  }

  /** Two letter keys that are exhausted by depth `level` and take the same
      slots above it are the same key. */
  lemma SameRouteSameKey(a: Key, b: Key, level: nat)
    requires IsLetterKey(a) && IsLetterKey(b)
    requires |a| <= level && |b| <= level
    requires forall j :: 0 <= j < level ==> Hash(a, j) == Hash(b, j)
    ensures a == b
  {
    var m := if |a| < |b| then |a| else |b|;
    if m < level {
      assert Hash(a, m) == Hash(b, m);
    }
    assert |a| == |b|;
    forall j | 0 <= j < |a|
      ensures a[j] == b[j]
    {
      assert Hash(a, j) == Hash(b, j);
    }
  }

  /** Every key stored under `t` takes the same slots as `key` above `t`'s depth. */
  ghost predicate PathAgrees<V>(t: Table<V>, key: Key)
  {
    forall p, j :: p in Leaves(t) && 0 <= j < t.level ==> Hash(p.0, j) == Hash(key, j)
  }

  /** A new key that meets an occupied slot is not yet exhausted at this depth,
      so inserting it descends at most `|key|` levels. */
  lemma OccupiedSlotBelowKeyLength<V>(t: Table<V>, key: Key)
    requires ValidTable(t) && IsLetterKey(key) && key !in KeysOf(t) && PathAgrees(t, key)
    requires !t.slots[Hash(key, t.level)].Empty?
    ensures t.level < |key|
  {
    var s := Hash(key, t.level);
    var x := t.slots[s];
    assert ValidSlot(x, t.level, s);
    var p: (Key, V);
    if x.Leaf? {
      p := (x.key, x.value);
    } else {
      assert |Leaves(x.table)| >= 2;
      p := Leaves(x.table)[0];
    }
    assert p in SlotLeaves(x);
    SlotLeafInLeaves(t.slots, s);
    if t.level >= |key| {
      SameRouteSameKey(p.0, key, t.level);
      assert false;
    }
  }

  lemma EmptySlotsHaveNoLeaves<V>(n: nat)
    ensures SlotsLeaves(EmptySlots<V>(n)) == []
  {
    var e := EmptySlots<V>(n);
    if n > 0 {
      LeafInSomeSlotEmpty(e);
    }
  }

  lemma {:induction false} LeafInSomeSlotEmpty<V>(e: seq<Slot<V>>)
    requires forall i :: 0 <= i < |e| ==> e[i] == Empty
    ensures SlotsLeaves(e) == []
    decreases |e|
  {
    if e != [] {
      LeafInSomeSlotEmpty(e[1..]);
    }
  }

  /** The child created on a collision after `new_table[k] = v`: a table one
      level deeper holding only the displaced leaf. */
  function Singleton<V(==)>(level: nat, k: Key, v: V): (r: Table<V>)
    requires IsLetterKey(k)
    ensures ValidTable(r) && r.level == level && Leaves(r) == [(k, v)]
  {
    var e := EmptySlots<V>(TableSize);
    var h := Hash(k, level);
    LeafInSomeSlotEmpty(e);
    SlotsLeavesUpdate(e, h, Leaf(k, v));
    var r := Table(level, e[h := Leaf(k, v)], 1);
    LeafInSomeSlotEmpty(e[..h]);
    LeafInSomeSlotEmpty(e[h + 1..]);
    assert Leaves(r) == [(k, v)];
    r
  }

  /** `__setitem__` for a key not yet stored: an empty slot takes the leaf, a
      leaf for another key is pushed with the new entry into a fresh child one
      level deeper, a child receives the entry recursively; `count` grows by
      one at every level on the way. */
  function Insert<V(==)>(t: Table<V>, key: Key, value: V): (r: Table<V>)
    requires ValidTable(t) && IsLetterKey(key) && key !in KeysOf(t)
    requires PathAgrees(t, key) && t.level <= |key|
    ensures ValidTable(r) && r.level == t.level
    ensures multiset(Leaves(r)) == multiset(Leaves(t)) + multiset{(key, value)}
    ensures r.count == t.count + 1
    decreases |key| - t.level
  {
    var s := Hash(key, t.level);
    assert ValidSlot(t.slots[s], t.level, s);
    match t.slots[s]
    case Empty =>
      InsertIntoSlot(t, s, Leaf(key, value), key, value)
    case Leaf(k, v) =>
      DescendPathAgrees(t, key);
      var c := Insert(Singleton(t.level + 1, k, v), key, value);
      InsertIntoSlot(t, s, Child(c), key, value)
    case Child(c) =>
      DescendPathAgrees(t, key);
      InsertIntoSlot(t, s, Child(Insert(c, key, value)), key, value)
  }

  /** What holds one level down when a new key meets an occupied slot: the
      key is longer than the depth, and the leaves under the slot take the
      key's slots down to and including this depth. */
  lemma DescendPathAgrees<V>(t: Table<V>, key: Key)
    requires ValidTable(t) && IsLetterKey(key) && key !in KeysOf(t) && PathAgrees(t, key)
    requires !t.slots[Hash(key, t.level)].Empty?
    ensures t.level < |key|
    ensures var x := t.slots[Hash(key, t.level)];
      && (x.Leaf? ==> IsLetterKey(x.key) && x.key != key
                      && PathAgrees(Singleton(t.level + 1, x.key, x.value), key))
      && (x.Child? ==> PathAgrees(x.table, key) && key !in KeysOf(x.table))
  {
    var s := Hash(key, t.level);
    var x := t.slots[s];
    OccupiedSlotBelowKeyLength(t, key);
    assert ValidSlot(x, t.level, s);
    SlotLeafInLeaves(t.slots, s);
    forall p, j | p in SlotLeaves(x) && 0 <= j <= t.level
      ensures Hash(p.0, j) == Hash(key, j)
    {
      assert p in Leaves(t);
    }
    if x.Leaf? {
      assert (x.key, x.value) in Leaves(t);
    }
  }

  /** Replace slot `s` by `x`, whose leaves are the old slot's plus the new entry. */
  function InsertIntoSlot<V(==)>(t: Table<V>, s: nat, x: Slot<V>, key: Key, value: V): (r: Table<V>)
    requires ValidTable(t) && s < TableSize && IsLetterKey(key) && Hash(key, t.level) == s
    requires multiset(SlotLeaves(x)) == multiset(SlotLeaves(t.slots[s])) + multiset{(key, value)}
    requires x.Child? ==> x.table.level == t.level + 1 && ValidTable(x.table) && x.table.count >= 2
    ensures ValidTable(r) && r.level == t.level && r.count == t.count + 1
    ensures multiset(Leaves(r)) == multiset(Leaves(t)) + multiset{(key, value)}
  {
    InsertIntoSlotValid(t, s, x, key, value);
    Table(t.level, t.slots[s := x], t.count + 1)
  }

  /** Replacing slot `s` of a valid table by a slot valid there, holding
      letter keys only, keeps the table valid once `count` is adjusted by the
      difference in leaves; the leaves change only at that slot. */
  lemma ReplaceSlot<V>(t: Table<V>, s: nat, x: Slot<V>, count: nat)
    requires ValidTable(t) && s < TableSize
    requires ValidSlot(x, t.level, s)
    requires forall p :: p in SlotLeaves(x) ==> IsLetterKey(p.0)
    requires count + |SlotLeaves(t.slots[s])| == t.count + |SlotLeaves(x)|
    ensures ValidTable(Table(t.level, t.slots[s := x], count))
    ensures Leaves(Table(t.level, t.slots[s := x], count))
         == SlotsLeaves(t.slots[..s]) + SlotLeaves(x) + SlotsLeaves(t.slots[s + 1..])
    ensures Leaves(t) == SlotsLeaves(t.slots[..s]) + SlotLeaves(t.slots[s]) + SlotsLeaves(t.slots[s + 1..])
  {
    var r := Table(t.level, t.slots[s := x], count);
    SlotsLeavesUpdate(t.slots, s, x);
    var pre, post := SlotsLeaves(t.slots[..s]), SlotsLeaves(t.slots[s + 1..]);
    assert Leaves(r) == pre + SlotLeaves(x) + post;
    forall i | 0 <= i < |r.slots|
      ensures ValidSlot(r.slots[i], r.level, i)
    {
      if i != s {
        assert r.slots[i] == t.slots[i];
      }
    }
    forall p | p in Leaves(r)
      ensures IsLetterKey(p.0)
    {
      if p !in SlotLeaves(x) {
        assert p in pre || p in post;
        assert p in Leaves(t);
      }
    }
  }

  /** The leaves of slot `s` of a valid table have letter keys. */
  lemma SlotLetters<V>(t: Table<V>, s: nat)
    requires ValidTable(t) && s < TableSize
    ensures ValidSlot(t.slots[s], t.level, s)
    ensures forall p :: p in SlotLeaves(t.slots[s]) ==> IsLetterKey(p.0)
  {
    SlotLeafInLeaves(t.slots, s);
  }

  /** A slot whose leaves are those of a valid slot `y` plus `(key, value)`,
      for a letter key hashing there, is valid there too. */
  lemma GrownSlot<V>(x: Slot<V>, y: Slot<V>, level: nat, s: nat, key: Key, value: V)
    requires ValidSlot(y, level, s) && forall p :: p in SlotLeaves(y) ==> IsLetterKey(p.0)
    requires IsLetterKey(key) && Hash(key, level) == s
    requires multiset(SlotLeaves(x)) == multiset(SlotLeaves(y)) + multiset{(key, value)}
    requires x.Child? ==> x.table.level == level + 1 && ValidTable(x.table) && x.table.count >= 2
    ensures ValidSlot(x, level, s) && forall p :: p in SlotLeaves(x) ==> IsLetterKey(p.0)
    ensures |SlotLeaves(x)| == |SlotLeaves(y)| + 1
  {
    forall p | p in SlotLeaves(x)
      ensures Hash(p.0, level) == s && IsLetterKey(p.0)
    {
      assert multiset(SlotLeaves(x))[p] > 0;
      if p != (key, value) {
        assert multiset(SlotLeaves(y))[p] > 0;
      }
    }
    assert |multiset(SlotLeaves(x))| == |multiset(SlotLeaves(y))| + 1;
  }

  /** A slot whose leaves are those of a valid slot `y` less one is valid
      there too. */
  lemma ShrunkSlot<V>(x: Slot<V>, y: Slot<V>, level: nat, s: nat, gone: (Key, V))
    requires ValidSlot(y, level, s) && forall p :: p in SlotLeaves(y) ==> IsLetterKey(p.0)
    requires multiset(SlotLeaves(x)) + multiset{gone} == multiset(SlotLeaves(y))
    requires x.Child? ==> x.table.level == level + 1 && ValidTable(x.table) && x.table.count >= 2
    ensures ValidSlot(x, level, s) && forall p :: p in SlotLeaves(x) ==> IsLetterKey(p.0)
    ensures |SlotLeaves(x)| + 1 == |SlotLeaves(y)|
  {
    forall p | p in SlotLeaves(x)
      ensures p in SlotLeaves(y)
    {
      assert multiset(SlotLeaves(y))[p] >= multiset(SlotLeaves(x))[p] > 0;
    }
    assert |multiset(SlotLeaves(x))| + 1 == |multiset(SlotLeaves(y))|;
  }

  /** Exchanging the middle part of a sequence changes its multiset by the
      same amount. */
  lemma MultisetSplice<T>(a: seq<T>, b: seq<T>, c: seq<T>, d: seq<T>, e: multiset<T>)
    requires multiset(c) == multiset(b) + e
    ensures multiset(a + c + d) == multiset(a + b + d) + e
  {
  }

  lemma InsertIntoSlotValid<V>(t: Table<V>, s: nat, x: Slot<V>, key: Key, value: V)
    requires ValidTable(t) && s < TableSize && IsLetterKey(key) && Hash(key, t.level) == s
    requires multiset(SlotLeaves(x)) == multiset(SlotLeaves(t.slots[s])) + multiset{(key, value)}
    requires x.Child? ==> x.table.level == t.level + 1 && ValidTable(x.table) && x.table.count >= 2
    ensures ValidTable(Table(t.level, t.slots[s := x], t.count + 1))
    ensures multiset(Leaves(Table(t.level, t.slots[s := x], t.count + 1)))
            == multiset(Leaves(t)) + multiset{(key, value)}
  {
    SlotLetters(t, s);
    GrownSlot(x, t.slots[s], t.level, s, key, value);
    ReplaceSlot(t, s, x, t.count + 1);
    MultisetSplice(SlotsLeaves(t.slots[..s]), SlotLeaves(t.slots[s]), SlotLeaves(x),
                   SlotsLeaves(t.slots[s + 1..]), multiset{(key, value)});
  }

  /** The collapse loop of `__delitem__`: the first occupied slot from `i` on. */
  function FirstOccupied<V(==)>(s: seq<Slot<V>>, i: nat): Slot<V>
    requires i <= |s|
    decreases |s| - i
  {
    if i == |s| then Empty
    else if !s[i].Empty? then s[i]
    else FirstOccupied(s, i + 1)
  }

  /** In slots holding no child and exactly one leaf, the collapse loop
      finds that leaf. */
  lemma {:induction false} FirstOccupiedIsOnlyLeaf<V>(s: seq<Slot<V>>, i: nat, p: (Key, V))
    requires i <= |s| && forall j :: i <= j < |s| ==> !s[j].Child?
    requires SlotsLeaves(s[i..]) == [p]
    ensures FirstOccupied(s, i) == Leaf(p.0, p.1)
    decreases |s| - i
  {
    assert s[i..] != [];
    assert s[i..][0] == s[i] && s[i..][1..] == s[i + 1..];
    assert SlotsLeaves(s[i..]) == SlotLeaves(s[i]) + SlotsLeaves(s[i + 1..]);
    if s[i].Empty? {
      FirstOccupiedIsOnlyLeaf(s, i + 1, p);
    } else {
      assert SlotLeaves(s[i]) == [(s[i].key, s[i].value)];
      assert (SlotLeaves(s[i]) + SlotsLeaves(s[i + 1..]))[0] == p;
    }
  }

  /** A valid table with one leaf has no child, so collapsing it yields its leaf. */
  lemma CollapseYieldsLeaf<V>(c: Table<V>)
    requires ValidTable(c) && c.count == 1
    ensures FirstOccupied(c.slots, 0) == Leaf(Leaves(c)[0].0, Leaves(c)[0].1)
    ensures SlotLeaves(FirstOccupied(c.slots, 0)) == Leaves(c)
  {
    forall j | 0 <= j < |c.slots|
      ensures !c.slots[j].Child?
    {
      assert ValidSlot(c.slots[j], c.level, j);
      SlotsLeavesAt(c.slots, j);
      assert |SlotLeaves(c.slots[j])| <= 1;
    }
    assert c.slots[0..] == c.slots;
    FirstOccupiedIsOnlyLeaf(c.slots, 0, Leaves(c)[0]);
  }

  /** Replace slot `s` by `x`, whose leaves are the old slot's minus `(key, value)`. */
  function RemoveFromSlot<V(==)>(t: Table<V>, s: nat, x: Slot<V>, key: Key, value: V): (r: Table<V>)
    requires ValidTable(t) && s < TableSize
    requires multiset(SlotLeaves(x)) + multiset{(key, value)} == multiset(SlotLeaves(t.slots[s]))
    requires x.Child? ==> x.table.level == t.level + 1 && ValidTable(x.table) && x.table.count >= 2
    ensures ValidTable(r) && r.level == t.level && r.count == t.count - 1
    ensures multiset(Leaves(r)) + multiset{(key, value)} == multiset(Leaves(t))
  {
    RemoveFromSlotValid(t, s, x, key, value);
    Table(t.level, t.slots[s := x], t.count - 1)
  }

  lemma RemoveFromSlotValid<V>(t: Table<V>, s: nat, x: Slot<V>, key: Key, value: V)
    requires ValidTable(t) && s < TableSize
    requires multiset(SlotLeaves(x)) + multiset{(key, value)} == multiset(SlotLeaves(t.slots[s]))
    requires x.Child? ==> x.table.level == t.level + 1 && ValidTable(x.table) && x.table.count >= 2
    ensures t.count >= 1
    ensures ValidTable(Table(t.level, t.slots[s := x], t.count - 1))
    ensures multiset(Leaves(Table(t.level, t.slots[s := x], t.count - 1))) + multiset{(key, value)}
            == multiset(Leaves(t))
  {
    SlotLetters(t, s);
    ShrunkSlot(x, t.slots[s], t.level, s, (key, value));
    SlotsLeavesAt(t.slots, s);
    ReplaceSlot(t, s, x, t.count - 1);
    MultisetSplice(SlotsLeaves(t.slots[..s]), SlotLeaves(x), SlotLeaves(t.slots[s]),
                   SlotsLeaves(t.slots[s + 1..]), multiset{(key, value)});
  }

  /** What the parent stores after deleting under a child: the child itself,
      or its only leaf once the child is down to one. */
  function Collapsed<V(==)>(c: Table<V>): (x: Slot<V>)
    requires ValidTable(c) && c.count >= 1
    ensures SlotLeaves(x) == Leaves(c)
    ensures x.Child? ==> x.table == c && c.count >= 2
    ensures c.count == 1 ==> x.Leaf?
  {
    if c.count == 1 then
      CollapseYieldsLeaf(c);
      FirstOccupied(c.slots, 0)
    else
      Child(c)
  }

  /** `__delitem__`: remove the key's leaf, decrement `count` on the way back
      up, and replace a child left with a single leaf by that leaf. */
  function Delete<V(==)>(t: Table<V>, key: Key): (r: Result<Table<V>>)
    requires ValidTable(t)
    ensures r.Ok? <==> key in KeysOf(t)
    ensures r.Err? ==> r.error == KeyError
    ensures r.Ok? ==> ValidTable(r.value) && r.value.level == t.level && r.value.count == t.count - 1
    ensures r.Ok? ==> multiset(Leaves(r.value)) + multiset{(key, Get(t, key).value)} == multiset(Leaves(t))
    decreases t
  {
    var s := Hash(key, t.level);
    assert ValidSlot(t.slots[s], t.level, s);
    KeyInItsSlot(t, key);
    match t.slots[s]
    case Empty => Err(KeyError)
    case Leaf(k, v) =>
      SlotLeafInLeaves(t.slots, s);
      if k != key then Err(KeyError)
      else
        assert Get(t, key) == Ok(v);
        Ok(RemoveFromSlot(t, s, Empty, key, v))
    case Child(c) =>
      assert Get(t, key) == Get(c, key);
      match Delete(c, key)
      case Err(e) => Err(e)
      case Ok(c2) => Ok(RemoveFromSlot(t, s, Collapsed(c2), key, Get(c, key).value))
  }

  /** A stored leaf is what `__getitem__` returns for its key. */
  lemma GetFindsLeaf<V>(t: Table<V>, key: Key, value: V)
    requires ValidTable(t) && (key, value) in Leaves(t)
    ensures Get(t, key) == Ok(value)
  {
    ValidNoDup(t);
    var r := Get(t, key);
    assert key in KeysOf(t);
    var i :| 0 <= i < |Leaves(t)| && Leaves(t)[i] == (key, value);
    var j :| 0 <= j < |Leaves(t)| && Leaves(t)[j] == (key, r.value);
    assert i == j;
  }

  /** `__contains__`: true exactly when `__getitem__` does not raise. */
  function Contains<V(==)>(t: Table<V>, key: Key): (r: bool)
    requires ValidTable(t)
    ensures r <==> key in KeysOf(t)
  {
    Get(t, key).Ok?
  }

  /** `__len__`: the root's `count`, which is the number of stored keys. */
  function Len<V(==)>(t: Table<V>): (r: nat)
    requires ValidTable(t)
    ensures r == |KeysOf(t)| == |Leaves(t)|
  {
    ValidNoDup(t);
    KeysOfSize(Leaves(t));
    t.count
  }

  lemma {:induction false} KeysOfSize<V>(ps: seq<(Key, V)>)
    requires NoDupKeys(ps)
    ensures |set p | p in ps :: p.0| == |ps|
  {
    if ps != [] {
      var rest := ps[1..];
      assert NoDupKeys(rest) by {
        forall i, j | 0 <= i < j < |rest| ensures rest[i].0 != rest[j].0 {
          assert rest[i] == ps[i + 1] && rest[j] == ps[j + 1];
        }
      }
      KeysOfSize(rest);
      var ks := set p | p in rest :: p.0;
      forall k | 0 <= k < |rest|
        ensures rest[k].0 != ps[0].0
      {
        assert rest[k] == ps[k + 1];
      }
      assert ps[0].0 !in ks;
      assert (set p | p in ps :: p.0) == ks + {ps[0].0} by {
        forall q | q in ps ensures q == ps[0] || q in rest {
          var k :| 0 <= k < |ps| && ps[k] == q;
          if k > 0 { assert rest[k - 1] == q; }
        }
      }
    }
  }

  /** Setting a new key then getting it returns the value just set. */
  lemma InsertThenGet<V>(t: Table<V>, key: Key, value: V)
    requires ValidTable(t) && IsLetterKey(key) && key !in KeysOf(t) && t.level == 0
    ensures Get(Insert(t, key, value), key) == Ok(value)
    ensures Len(Insert(t, key, value)) == Len(t) + 1
  {
    var r := Insert(t, key, value);
    assert (key, value) in multiset(Leaves(r));
    GetFindsLeaf(r, key, value);
  }

  /** Setting a new key leaves every other key's lookup unchanged. */
  lemma InsertKeepsOthers<V>(t: Table<V>, key: Key, value: V, other: Key)
    requires ValidTable(t) && IsLetterKey(key) && key !in KeysOf(t) && t.level == 0
    requires other != key
    ensures Get(Insert(t, key, value), other) == Get(t, other)
  {
    var r := Insert(t, key, value);
    var g, g2 := Get(t, other), Get(r, other);
    if g.Ok? {
      assert (other, g.value) in multiset(Leaves(r));
      GetFindsLeaf(r, other, g.value);
    }
    if g2.Ok? {
      assert (other, g2.value) in multiset(Leaves(r));
      assert (other, g2.value) in Leaves(t);
      GetFindsLeaf(t, other, g2.value);
    }
  }

  lemma {:induction false} NoDupOnce<V>(ps: seq<(Key, V)>, p: (Key, V))
    requires NoDupKeys(ps)
    ensures multiset(ps)[p] <= 1
  {
    if ps != [] {
      var rest := ps[1..];
      assert ps == [ps[0]] + rest;
      assert NoDupKeys(rest) by {
        forall i, j | 0 <= i < j < |rest| ensures rest[i].0 != rest[j].0 {
          assert rest[i] == ps[i + 1] && rest[j] == ps[j + 1];
        }
      }
      NoDupOnce(rest, p);
      if p == ps[0] {
        assert p !in rest by {
          forall k | 0 <= k < |rest| ensures rest[k] != p {
            assert rest[k] == ps[k + 1];
          }
        }
      }
    }
  }

  /** After deleting a key it is no longer contained, and `len` drops by one. */
  lemma DeleteRemovesKey<V>(t: Table<V>, key: Key)
    requires ValidTable(t) && key in KeysOf(t)
    ensures Delete(t, key).Ok?
    ensures !Contains(Delete(t, key).value, key)
    ensures Len(Delete(t, key).value) == Len(t) - 1
  {
    var r := Delete(t, key).value;
    var v := Get(t, key).value;
    ValidNoDup(t);
    forall p | p in Leaves(r)
      ensures p.0 != key
    {
      NoDupOnce(Leaves(t), p);
      assert p in multiset(Leaves(r));
      assert p != (key, v);
      var i :| 0 <= i < |Leaves(t)| && Leaves(t)[i] == p;
      var j :| 0 <= j < |Leaves(t)| && Leaves(t)[j] == (key, v);
      assert i != j;
    }
  }

  /** Deleting a key leaves every other key's lookup unchanged. */
  lemma DeleteKeepsOthers<V>(t: Table<V>, key: Key, other: Key)
    requires ValidTable(t) && key in KeysOf(t) && other != key
    ensures Delete(t, key).Ok?
    ensures Get(Delete(t, key).value, other) == Get(t, other)
  {
    var r := Delete(t, key).value;
    var v := Get(t, key).value;
    var g, g2 := Get(t, other), Get(r, other);
    if g.Ok? {
      assert (other, g.value) in multiset(Leaves(t));
      assert (other, g.value) in multiset(Leaves(r));
      GetFindsLeaf(r, other, g.value);
    }
    if g2.Ok? {
      assert (other, g2.value) in multiset(Leaves(r));
      assert (other, g2.value) in multiset(Leaves(t));
      GetFindsLeaf(t, other, g2.value);
    }
  }

  /** The slots `__getitem__` visits for `key`, from `t` down to the first
      slot that is not a child. */
  function Path<V(==)>(t: Table<V>, key: Key): (r: seq<nat>)
    requires ValidTable(t)
    ensures |r| >= 1
    ensures forall j :: 0 <= j < |r| ==> r[j] == Hash(key, t.level + j)
    decreases t
  {
    var s := Hash(key, t.level);
    assert ValidSlot(t.slots[s], t.level, s);
    match t.slots[s]
    case Child(c) => [s] + Path(c, key)
    case _ => [s]
  }

  /** One step of the walk: the slot holds a child, so both the path and the
      lookup continue there. */
  lemma StepDown<V>(t: Table<V>, key: Key)
    requires ValidTable(t) && t.slots[Hash(key, t.level)].Child?
    ensures var c := t.slots[Hash(key, t.level)].table;
      && ValidTable(c) && c < t
      && Path(t, key) == [Hash(key, t.level)] + Path(c, key)
      && Get(t, key) == Get(c, key)
  {
    var s := Hash(key, t.level);
    assert ValidSlot(t.slots[s], t.level, s);
  }

  /** The walk's loop invariant carries over one step down. */
  lemma Descend<V>(t: Table<V>, current: Table<V>, key: Key, above: seq<nat>)
    requires ValidTable(t) && ValidTable(current)
    requires current.slots[Hash(key, current.level)].Child?
    requires above + Path(current, key) == Path(t, key)
    requires Get(current, key) == Get(t, key)
    ensures var c := current.slots[Hash(key, current.level)].table;
      && ValidTable(c)
      && (above + [Hash(key, current.level)]) + Path(c, key) == Path(t, key)
      && Get(c, key) == Get(t, key)
      && |Path(c, key)| < |Path(current, key)|
  {
    var c := current.slots[Hash(key, current.level)].table;
    StepDown(current, key);
    assert (above + [Hash(key, current.level)]) + Path(c, key)
        == above + ([Hash(key, current.level)] + Path(c, key));
  }

  /** The walk stops at a slot that is not a child: that slot ends the path,
      and the key is stored exactly when that slot is its leaf. */
  lemma WalkEnds<V>(t: Table<V>, current: Table<V>, key: Key, above: seq<nat>)
    requires ValidTable(t) && ValidTable(current)
    requires !current.slots[Hash(key, current.level)].Child?
    requires above + Path(current, key) == Path(t, key)
    requires Get(current, key) == Get(t, key)
    ensures Path(t, key) == above + [Hash(key, current.level)]
    ensures var x := current.slots[Hash(key, current.level)];
      key in KeysOf(t) <==> x.Leaf? && x.key == key
  {
    var x := current.slots[Hash(key, current.level)];
    var g := Get(t, key);
    assert g.Ok? <==> x.Leaf? && x.key == key;
    if g.Ok? {
      assert (key, g.value) in Leaves(t);
    }
  }

  /** `get_location`: walk down through child tables, recording one slot per
      level; succeed only on a leaf holding the key. */
  method GetLocation<V(==)>(t: Table<V>, key: Key) returns (r: Result<seq<nat>>)
    requires ValidTable(t)
    ensures r.Ok? <==> key in KeysOf(t)
    ensures r.Ok? ==> r.value == Path(t, key)
    ensures r.Ok? ==> forall j :: 0 <= j < |r.value| ==> r.value[j] == Hash(key, j + t.level)
    ensures r.Err? ==> r.error == KeyError
  {
    var current := t;
    var position := Hash(key, current.level);
    var location := [position];
    ghost var above: seq<nat> := [];
    while current.slots[position].Child?
      invariant ValidTable(current) && position == Hash(key, current.level)
      invariant location == above + [position]
      invariant above + Path(current, key) == Path(t, key)
      invariant Get(current, key) == Get(t, key)
      decreases |Path(current, key)|
    {
      Descend(t, current, key, above);
      above := location;
      current := current.slots[position].table;
      position := Hash(key, current.level);
      location := location + [position];
    }
    WalkEnds(t, current, key, above);
    var x := current.slots[position];
    if x.Leaf? && x.key == key {
      r := Ok(location);
    } else {
      r := Err(KeyError);
    }
  }

  /** Deleting never lengthens the path to another key: a child left with one
      leaf is collapsed, so no single-leaf child stays on any path. */
  lemma {:induction false} DeleteShortensPaths<V>(t: Table<V>, key: Key, other: Key)
    requires ValidTable(t) && key in KeysOf(t)
    ensures Delete(t, key).Ok?
    ensures |Path(Delete(t, key).value, other)| <= |Path(t, other)|
    decreases t
  {
    var s := Hash(key, t.level);
    var r := Delete(t, key).value;
    var o := Hash(other, t.level);
    assert ValidSlot(t.slots[s], t.level, s);
    if o != s {
      assert r.slots[o] == t.slots[o];
    } else if t.slots[s].Child? {
      var c := t.slots[s].table;
      assert Get(t, key) == Get(c, key);
      var c2 := Delete(c, key).value;
      assert r.slots[s] == Collapsed(c2);
      if Collapsed(c2).Child? {
        DeleteShortensPaths(c, key, other);
      }
    }
  }

  /** `quick_sort`: the first element is the pivot; the rest is split into the
      strictly smaller and the not smaller, each sorted recursively. */
  method QuickSort<T(==, !new)>(lst: seq<T>, less: (T, T) -> bool) returns (r: seq<T>)
    requires StrictOrder(less)
    ensures multiset(r) == multiset(lst)
    ensures Ascending(r, less)
    decreases |lst|
  {
    if |lst| <= 1 {
      return lst;
    }
    var pivot := lst[0];
    var lesser, greater := Split(lst[1..], pivot, less);
    assert lst == [pivot] + lst[1..];
    var sortedLesser := QuickSort(lesser, less);
    var sortedGreater := QuickSort(greater, less);
    r := sortedLesser + [pivot] + sortedGreater;
    JoinAscending(lesser, sortedLesser, pivot, greater, sortedGreater, less);
  }

  /** The loop of `quick_sort` that deals the items after the pivot into the
      strictly smaller ones and the others, keeping their order. */
  method Split<T(==)>(items: seq<T>, pivot: T, less: (T, T) -> bool) returns (lesser: seq<T>, greater: seq<T>)
    ensures |lesser| + |greater| == |items|
    ensures multiset(lesser) + multiset(greater) == multiset(items)
    ensures forall x :: x in lesser ==> less(x, pivot)
    ensures forall x :: x in greater ==> !less(x, pivot)
  {
    lesser, greater := [], [];
    for k := 0 to |items|
      invariant |lesser| + |greater| == k
      invariant multiset(lesser) + multiset(greater) == multiset(items[..k])
      invariant forall x :: x in lesser ==> less(x, pivot)
      invariant forall x :: x in greater ==> !less(x, pivot)
    {
      assert items[..k + 1] == items[..k] + [items[k]];
      if less(items[k], pivot) {
        lesser := lesser + [items[k]];
      } else {
        greater := greater + [items[k]];
      }
    }
    assert items[..|items|] == items;
  }

  /** Sorted smaller part, pivot, sorted not-smaller part: ascending. */
  lemma JoinAscending<T(!new)>(lesser: seq<T>, a: seq<T>, pivot: T, greater: seq<T>, b: seq<T>,
                         less: (T, T) -> bool)
    requires StrictOrder(less)
    requires multiset(a) == multiset(lesser) && multiset(b) == multiset(greater)
    requires forall x :: x in lesser ==> less(x, pivot)
    requires forall x :: x in greater ==> !less(x, pivot)
    requires Ascending(a, less) && Ascending(b, less)
    ensures Ascending(a + [pivot] + b, less)
  {
    var r := a + [pivot] + b;
    forall x | x in a
      ensures less(x, pivot)
    {
      assert x in multiset(a);
    }
    forall y | y in b
      ensures !less(y, pivot)
    {
      assert y in multiset(b);
    }
    forall i, j | 0 <= i < j < |r|
      ensures !less(r[j], r[i])
    {
      var n := |a|;
      if i < n && j == n {
        assert r[i] in a;
      } else if i < n && j > n {
        assert r[i] == a[i] && r[j] == b[j - n - 1];
        assert r[i] in a && r[j] in b;
      } else if i == n && j > n {
        assert r[j] == b[j - n - 1];
        assert r[j] in b;
      } else if i > n {
        assert r[i] == b[i - n - 1] && r[j] == b[j - n - 1];
      }
    }
  }

  function KeySeq<V>(ps: seq<(Key, V)>): (r: seq<Key>)
    ensures |r| == |ps| && forall i :: 0 <= i < |ps| ==> r[i] == ps[i].0
  {
    if ps == [] then [] else [ps[0].0] + KeySeq(ps[1..])
  }

  lemma KeySeqAppend<V>(a: seq<(Key, V)>, b: seq<(Key, V)>)
    ensures KeySeq(a + b) == KeySeq(a) + KeySeq(b)
  {
  }

  lemma KeysOfNextSlot<V>(s: seq<Slot<V>>, i: nat)
    requires i < |s|
    ensures KeySeq(SlotsLeaves(s[..i + 1])) == KeySeq(SlotsLeaves(s[..i])) + KeySeq(SlotLeaves(s[i]))
  {
    assert s[..i + 1] == s[..i] + [s[i]];
    SlotsLeavesAppend(s[..i], [s[i]]);
    assert SlotsLeaves([s[i]]) == SlotLeaves(s[i]);
    KeySeqAppend(SlotsLeaves(s[..i]), SlotLeaves(s[i]));
  }

  lemma CollectStep<V>(s: seq<Slot<V>>, i: nat, before: seq<Key>, added: seq<Key>)
    requires i < |s|
    requires multiset(before) == multiset(KeySeq(SlotsLeaves(s[..i])))
    requires multiset(added) == multiset(KeySeq(SlotLeaves(s[i])))
    ensures multiset(before + added) == multiset(KeySeq(SlotsLeaves(s[..i + 1])))
  {
    KeysOfNextSlot(s, i);
  }

  /** `sort_keys`: collect the keys slot by slot (a child contributes its own
      sorted keys), then quick-sort them: every stored key, ascending. */
  method SortKeys<V(==)>(t: Table<V>) returns (keys: seq<Key>)
    requires ValidTable(t)
    ensures multiset(keys) == multiset(KeySeq(Leaves(t)))
    ensures Ascending(keys, StrLess)
    decreases t
  {
    var collected: seq<Key> := [];
    for i := 0 to |t.slots|
      invariant multiset(collected) == multiset(KeySeq(SlotsLeaves(t.slots[..i])))
    {
      var added: seq<Key> := [];
      match t.slots[i] {
        case Empty =>
        case Leaf(k, _) =>
          added := [k];
        case Child(c) =>
          assert ValidSlot(t.slots[i], t.level, i);
          added := SortKeys(c);
      }
      CollectStep(t.slots, i, collected, added);
      collected := collected + added;
    }
    assert t.slots[..|t.slots|] == t.slots;
    keys := SortStrings(collected);
  }

  /** Quick-sort of keys under Python's string order. */
  method SortStrings(items: seq<Key>) returns (r: seq<Key>)
    ensures multiset(r) == multiset(items)
    ensures Ascending(r, StrLess)
  {
    StrLessIsStrictOrder();
    r := QuickSort(items, (a, b) => StrLess(a, b));
  }
}
