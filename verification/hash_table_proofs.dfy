/**
 * The states a `HashTable` object can reach, and what the operations do there.
 *
 * No operation ever writes the key column, so from construction onward every
 * key cell stays `null`. In those states `getIndex` answers with the hash
 * position on its first iteration, the wrap-around is never reached, nothing
 * throws, and the table behaves as an array of value cells indexed by hash
 * together with a counter of accepted `add` calls.
 */
module HashTableProofs {
  import opened Wrappers
  import Ascii
  import opened HashTables

  /** Invariant of every reachable table: well-formed, `0 <= size <= capacity`, and no key cell set. */
  predicate Invariant(t: Table)
  {
    && WellFormed(t)
    && 0 <= t.size <= t.capacity
    && forall j :: 0 <= j < |t.slots| ==> t.slots[j].key == None
  }

  /** One call on the `Dictionary` interface. */
  datatype Op = AddOp(key: string, value: Option<string>) | GetOp(key: string) | DeleteOp(key: string)

  /** The table after one call; `getValue` hands back the same table. */
  function Step(t: Table, op: Op): (r: Outcome<Table>)
    requires WellFormed(t)
    ensures r.Returned? ==> WellFormed(r.value) && r.value.capacity == t.capacity
    ensures !op.AddOp? && r.Returned? ==> r.value == t
  {
    match op
    case AddOp(key, value) => Add(t, key, value)
    case GetOp(key) =>
      (match GetValue(t, key)
       case Returned(_) => Returned(t)
       case Threw(e) => Threw(e))
    case DeleteOp(key) => Returned(Delete(t, key))
  }

  /** The table after a sequence of calls, or the first exception thrown. */
  function Run(t: Table, ops: seq<Op>): (r: Outcome<Table>)
    requires WellFormed(t)
    decreases |ops|
  {
    if |ops| == 0 then Returned(t)
    else
      match Step(t, ops[0])
      case Threw(e) => Threw(e)
      case Returned(t') => Run(t', ops[1..])
  }

  /** Number of `add` calls in `ops`. */
  function CountAdds(ops: seq<Op>): nat
  {
    if |ops| == 0 then 0 else (if ops[0].AddOp? then 1 else 0) + CountAdds(ops[1..])
  }

  function Min(a: int, b: int): int
  {
    if a <= b then a else b
  }

  /** The constructor establishes the invariant with every cell `null`. */
  lemma CreateEstablishesInvariant(capacity: int)
    requires 0 < capacity <= IntMax
    ensures Invariant(Create(capacity))
    ensures forall j :: 0 <= j < capacity ==> Create(capacity).slots[j].value == None
  {
  }

  /**
   * In a reachable table `getIndex(key)` is `hashFunction(key)`: the first
   * probed row has a `null` key, so the loop returns before stepping and the
   * wrap-around formula is never evaluated.
   */
  lemma GetIndexIsHash(t: Table, key: string)
    requires Invariant(t)
    ensures GetIndex(t, key) == Found(HashFunction(t, key))
  {
    assert Usable(t, HashFunction(t, key), key);
  }

  /**
   * The wrap-around formula sends the probe to index `-1` instead of row 0.
   * In a two-row array whose row 1 held another key, looking up "a" (hash 1)
   * would throw although row 0 is free. No reachable table has such a row.
   */
  lemma WrapAroundWouldThrow()
    ensures var t := Table([EmptySlot, Slot(Some("b"), None)], 2, 0);
            && WellFormed(t)
            && Usable(t, 0, "a")
            && GetIndex(t, "a") == OutOfBounds(-1)
            && GetValue(t, "a") == Threw(ArrayIndexOutOfBounds(-1))
            && !Invariant(t)
  {
    var t := Table([EmptySlot, Slot(Some("b"), None)], 2, 0);
    assert "a"[..0] == "";
    assert Ascii.CharSum("a") == 97;
    assert HashFunction(t, "a") == 1;
    assert !HasUsable(t, "a", 1);
  }

  /**
   * `add` in a reachable table: refused without effect when full, and otherwise
   * writes `value` into the value cell at the hash position and counts one more
   * entry, even when the cell already held a value.
   */
  lemma AddInReachable(t: Table, key: string, value: Option<string>)
    requires Invariant(t)
    ensures Add(t, key, value).Returned?
    ensures Invariant(Add(t, key, value).value)
    ensures t.size == t.capacity ==> Add(t, key, value) == Returned(t)
    ensures t.size < t.capacity ==>
              var h := HashFunction(t, key);
              Add(t, key, value) == Returned(Table(t.slots[h := Slot(None, value)], t.capacity, t.size + 1))
  {
    GetIndexIsHash(t, key);
  }

  /** `getValue` in a reachable table reads the value cell at the hash position, which may be `null`. */
  lemma GetValueInReachable(t: Table, key: string)
    requires Invariant(t)
    ensures GetValue(t, key) == Returned(t.slots[HashFunction(t, key)].value)
  {
    GetIndexIsHash(t, key);
  }

  /** `delete` leaves every observation and the count as they were, and preserves the invariant. */
  lemma DeleteChangesNothing(t: Table, key: string, other: string)
    requires Invariant(t)
    ensures Invariant(Delete(t, key))
    ensures Delete(t, key).size == t.size
    ensures GetValue(Delete(t, key), other) == GetValue(t, other)
    ensures Delete(Delete(t, key), key) == Delete(t, key)
  {
  }

  /** After an accepted `add(key, value)`, `getValue(key)` returns `value`. */
  lemma AddThenGet(t: Table, key: string, value: Option<string>)
    requires Invariant(t) && t.size < t.capacity
    ensures Add(t, key, value).Returned?
    ensures GetValue(Add(t, key, value).value, key) == Returned(value)
  {
    AddInReachable(t, key, value);
    GetValueInReachable(Add(t, key, value).value, key);
  }

  /**
   * Keys are not stored, so two keys with the same hash share one value cell:
   * adding under one of them changes what `getValue` returns for the other.
   */
  lemma CollidingKeysShareValue(t: Table, k1: string, k2: string, value: Option<string>)
    requires Invariant(t) && t.size < t.capacity
    requires HashFunction(t, k1) == HashFunction(t, k2)
    ensures GetValue(Add(t, k1, value).value, k2) == Returned(value)
  {
    AddInReachable(t, k1, value);
    var t' := Add(t, k1, value).value;
    assert HashFunction(t', k2) == HashFunction(t, k2);
    GetValueInReachable(t', k2);
  }

  /** An `add` leaves `getValue` unchanged for every key hashing elsewhere. */
  lemma AddLeavesOtherKeys(t: Table, k1: string, k2: string, value: Option<string>)
    requires Invariant(t)
    requires HashFunction(t, k1) != HashFunction(t, k2)
    ensures GetValue(Add(t, k1, value).value, k2) == GetValue(t, k2)
  {
    AddInReachable(t, k1, value);
    var t' := Add(t, k1, value).value;
    assert HashFunction(t', k2) == HashFunction(t, k2);
    GetValueInReachable(t', k2);
    GetValueInReachable(t, k2);
  }

  /** Rearrangements of the same characters hash alike, whatever the capacity. */
  lemma AnagramsCollide(t: Table, k1: string, k2: string)
    requires WellFormed(t)
    requires multiset(k1) == multiset(k2)
    ensures HashFunction(t, k1) == HashFunction(t, k2)
  {
    Ascii.PermutationSameSum(k1, k2);
  }

  /** Adding the same key twice counts it twice and leaves the later value. */
  lemma OverwriteCountsTwice(t: Table, key: string, v1: Option<string>, v2: Option<string>)
    requires Invariant(t) && t.size + 2 <= t.capacity
    ensures Add(t, key, v1).Returned?
    ensures Add(Add(t, key, v1).value, key, v2).Returned?
    ensures Add(Add(t, key, v1).value, key, v2).value.size == t.size + 2
    ensures GetValue(Add(Add(t, key, v1).value, key, v2).value, key) == Returned(v2)
  {
    AddInReachable(t, key, v1);
    var t1 := Add(t, key, v1).value;
    AddThenGet(t1, key, v2);
    AddInReachable(t1, key, v2);
  }

  /** One call from a reachable table keeps the invariant and counts an `add` unless the table is full. */
  lemma StepPreservesInvariant(t: Table, op: Op)
    requires Invariant(t)
    ensures Step(t, op).Returned?
    ensures Invariant(Step(t, op).value)
    ensures Step(t, op).value.size == Min(t.size + (if op.AddOp? then 1 else 0), t.capacity)
  {
    match op
    case AddOp(key, value) => AddInReachable(t, key, value);
    case GetOp(key) => GetValueInReachable(t, key);
    case DeleteOp(key) => DeleteChangesNothing(t, key, key);
  }

  /**
   * Any sequence of calls from a reachable table keeps the invariant, never
   * throws, and ends with `size` equal to the number of `add` calls, capped at
   * the capacity.
   */
  lemma {:induction false} RunPreservesInvariant(t: Table, ops: seq<Op>)
    requires Invariant(t)
    ensures Run(t, ops).Returned?
    ensures Invariant(Run(t, ops).value)
    ensures Run(t, ops).value.capacity == t.capacity
    ensures Run(t, ops).value.size == Min(t.size + CountAdds(ops), t.capacity)
    decreases |ops|
  {
    if |ops| > 0 {
      StepPreservesInvariant(t, ops[0]);
      var t' := Step(t, ops[0]).value;
      RunPreservesInvariant(t', ops[1..]);
      assert Run(t, ops) == Run(t', ops[1..]);
      assert CountAdds(ops) == (if ops[0].AddOp? then 1 else 0) + CountAdds(ops[1..]);
    }
  }

  /**
   * Every table reachable from the constructor satisfies the invariant, so in
   * it `getIndex` returns the hash position and neither `add` nor `getValue`
   * throws.
   */
  lemma ReachableFromCreate(capacity: int, ops: seq<Op>, key: string, value: Option<string>)
    requires 0 < capacity <= IntMax
    ensures Run(Create(capacity), ops).Returned?
    ensures Invariant(Run(Create(capacity), ops).value)
    ensures Run(Create(capacity), ops).value.size == Min(CountAdds(ops), capacity)
    ensures var t := Run(Create(capacity), ops).value;
            GetIndex(t, key) == Found(HashFunction(t, key))
            && Add(t, key, value).Returned?
            && GetValue(t, key).Returned?
  {
    CreateEstablishesInvariant(capacity);
    RunPreservesInvariant(Create(capacity), ops);
    var t := Run(Create(capacity), ops).value;
    GetIndexIsHash(t, key);
    AddInReachable(t, key, value);
  }

  /**
   * The demonstration in `App.main`: a table of 31 buckets, `add("key1",
   * "value1")`, then `getValue("key1")` gives "value1" and `getValue("key2")`,
   * whose bucket was never written, gives `null` rather than the empty string.
   */
  lemma DemoScenario()
    ensures Add(Create(31), "key1", Some("value1")).Returned?
    ensures var t := Add(Create(31), "key1", Some("value1")).value;
            && GetValue(t, "key1") == Returned(Some("value1"))
            && GetValue(t, "key2") == Returned(None)
  {
    var t0 := Create(31);
    CreateEstablishesInvariant(31);
    assert "key1"[..3] == "key" && "key"[..2] == "ke" && "ke"[..1] == "k" && "k"[..0] == "";
    assert "key2"[..3] == "key";
    assert Ascii.CharSum("key") == 329;
    assert Ascii.CharSum("key1") == 378;
    assert Ascii.CharSum("key2") == 379;
    assert HashFunction(t0, "key1") == 6;
    AddInReachable(t0, "key1", Some("value1"));
    var t := Add(t0, "key1", Some("value1")).value;
    assert HashFunction(t, "key2") == 7;
    GetValueInReachable(t, "key1");
    GetValueInReachable(t, "key2");
  }
}
