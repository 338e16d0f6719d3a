/** Where `__getitem__` of the infinite hash table as written departs from
    its documented contract: it never reaches a key stored below the root,
    and it answers a lookup that meets another key's leaf with no value
    instead of `KeyError`. The table itself uses `Get`, which follows the
    contract. */
module InfiniteHashFindings {
  import opened Results
  import opened InfiniteHashTable

  /** What a call can end with. */
  datatype Outcome<V> = Returns(value: V) | ReturnsNone | RaisesKeyError | RaisesTypeError

  /** `__getitem__` as written. A leaf for another key falls through both
      branches and the call returns `None`. A child table is tested first
      with `collision[0]`, a lookup of the integer `0` in the child, whose
      `hash` takes the length of an integer and raises `TypeError`. */
  function GetAsWritten<V(==)>(t: Table<V>, key: Key): Outcome<V>
    requires |t.slots| == TableSize
  {
    match t.slots[Hash(key, t.level)]
    case Empty => RaisesKeyError
    case Leaf(k, v) => if k == key then Returns(v) else ReturnsNone
    case Child(_) => RaisesTypeError
  }

  /** "ab" and "ax" both start with 'a' and take root slot 19; so do "ab"
      and "ac". */
  lemma SharedRootSlot()
    ensures IsLetterKey("ab") && IsLetterKey("ac") && IsLetterKey("ax")
    ensures "ab" != "ac" && "ab" != "ax"
    ensures Hash("ab", 0) == 19 && Hash("ac", 0) == 19 && Hash("ax", 0) == 19
  {
    assert "ab"[1] != "ac"[1] && "ab"[1] != "ax"[1];
  }

  /** A table holding only `a`. */
  function OneKey(a: Key): Table<int>
    requires IsLetterKey(a)
  {
    Singleton(0, a, 1)
  }

  lemma OneKeyHolds(a: Key, b: Key)
    requires IsLetterKey(a) && a != b
    ensures ValidTable(OneKey(a)) && OneKey(a).level == 0
    ensures Leaves(OneKey(a)) == [(a, 1)]
    ensures b !in KeysOf(OneKey(a))
  {
  }

  /** `a` and then `b`: when they share a root slot, both are pushed into a
      child table under it. */
  function TwoKeys(a: Key, b: Key): Table<int>
    requires IsLetterKey(a) && IsLetterKey(b) && a != b
  {
    OneKeyHolds(a, b);
    Insert(OneKey(a), b, 2)
  }

  /** When `other` takes the root slot where `OneKey(a)` holds the leaf for
      `a` (as "ax" does with "ab"), the lookup as written returns no value,
      where `KeyError` is documented. */
  lemma GetAsWrittenOtherLeaf(a: Key, other: Key)
    requires IsLetterKey(a) && a != other && Hash(a, 0) == Hash(other, 0)
    ensures GetAsWritten(OneKey(a), other) == ReturnsNone
    ensures Get(OneKey(a), other) == Err(KeyError)
  {
    OneKeyHolds(a, other);
    var t := OneKey(a);
    var s := Hash(a, 0);
    assert (a, 1) in SlotLeaves(t.slots[s]) by {
      assert (a, 1) in Leaves(t);
      KeyInItsSlot(t, a);
      var v :| (a, v) in SlotLeaves(t.slots[s]);
      SlotLeafInLeaves(t.slots, s);
    }
    assert ValidSlot(t.slots[s], 0, s);
    assert t.slots[s] == Leaf(a, 1);
  }

  /** When `b` shares the root slot of `a` (as "ac" does with "ab"), `a`
      lives in the child under that slot of `TwoKeys(a, b)`: the lookup as
      written raises `TypeError`, where the stored value is documented. */
  lemma GetAsWrittenBelowRoot(a: Key, b: Key)
    requires IsLetterKey(a) && IsLetterKey(b) && a != b && Hash(a, 0) == Hash(b, 0)
    ensures GetAsWritten(TwoKeys(a, b), a) == RaisesTypeError
    ensures Get(TwoKeys(a, b), a) == Ok(1)
  {
    OneKeyHolds(a, b);
    var t := TwoKeys(a, b);
    GetAsWrittenOtherLeaf(a, b);
    assert OneKey(a).slots[Hash(a, 0)] == Leaf(a, 1);
    assert t.slots[Hash(a, 0)].Child?;
    assert (a, 1) in multiset(Leaves(t));
    GetFindsLeaf(t, a, 1);
  }
}
