/**
 * The `HashTable` class: a fixed-capacity string-to-string dictionary kept in a
 * `capacity`-by-2 array of Java strings, column 0 for keys and column 1 for
 * values, with a character-sum hash and linear probing.
 *
 * Each operation is a pure function of the table. Operations are defined on
 * every well-formed array, including arrays whose key column is not all
 * `null`, so that the probing loop and its wrap-around can be stated in full;
 * the states the class can actually reach are characterised in module
 * `HashTableProofs`.
 */
module HashTables {
  import opened Wrappers
  import Ascii

  const IntMin: int := -0x8000_0000
  const IntMax: int := 0x7fff_ffff

  /** Step between probed slots (`SKIP_FACTOR`). */
  const SkipFactor: int := 1

  /** One row of the array: a key cell and a value cell, either possibly `null`. */
  datatype Slot = Slot(key: Option<string>, value: Option<string>)

  /** The fields of a `HashTable` object; `size` and `capacity` are Java `int`s. */
  datatype Table = Table(slots: seq<Slot>, capacity: int, size: int)

  /** Java exceptions the operations can raise. */
  datatype Exception = ArrayIndexOutOfBounds(badIndex: int)

  /** How a Java call ends: it returns a value or throws. */
  datatype Outcome<+T> = Returned(value: T) | Threw(exception: Exception)

  /** What `getIndex` computes: a slot index, `-1`, or a thrown exception. */
  datatype ProbeResult = Found(index: nat) | NotFound | OutOfBounds(badIndex: int)

  /** Shape facts of every `HashTable` object: one row per bucket, Java `int` fields, positive capacity. */
  predicate WellFormed(t: Table)
  {
    && 0 < t.capacity <= IntMax
    && |t.slots| == t.capacity
    && IntMin <= t.size <= IntMax
  }

  /** The row with a fresh `null` key cell and `null` value cell. */
  const EmptySlot: Slot := Slot(None, None)

  /** The constructor `HashTable(capacity)`. */
  function Create(capacity: int): (t: Table)
    requires 0 < capacity <= IntMax
    ensures WellFormed(t) && t.capacity == capacity
    ensures t.size == 0
    ensures forall j :: 0 <= j < |t.slots| ==> t.slots[j] == EmptySlot
  {
    Table(seq(capacity, _ => EmptySlot), capacity, 0)
  }

  /** `hashFunction`: the character sum reduced modulo the capacity. */
  function HashFunction(t: Table, key: string): (h: nat)
    requires WellFormed(t)
    ensures h < t.capacity
    ensures Ascii.CharSum(key) < t.capacity ==> h == Ascii.CharSum(key)
    ensures exists q: nat :: Ascii.CharSum(key) == q * t.capacity + h
  {
    var sum := Ascii.CharSum(key);
    DivisionWitness(sum, t.capacity);
    sum % t.capacity
  }

  /** A natural number is a multiple of `n` plus its remainder modulo `n`. */
  lemma DivisionWitness(a: nat, n: int)
    requires n > 0
    ensures 0 <= a % n < n
    ensures a < n ==> a % n == a
    ensures exists q: nat :: a == q * n + a % n
  {
    var q: nat := a / n;
    assert a == q * n + a % n;
  }

  /** The probe stops at row `j` for `key`: its key cell is `null` or equals `key`. */
  predicate Usable(t: Table, j: int, key: string)
    requires WellFormed(t) && 0 <= j < t.capacity
  {
    t.slots[j].key == None || t.slots[j].key == Some(key)
  }

  /** Some row in `[from, capacity)` stops the probe for `key`. */
  predicate HasUsable(t: Table, key: string, from: int)
    requires WellFormed(t)
  {
    exists j :: from <= j < t.capacity && 0 <= j && Usable(t, j, key)
  }

  /**
   * Where the loop of `getIndex` stands after `i` iterations when it started at
   * `start`: it has walked up to the last row, and after that the wrap formula
   * `capacity - 1 - index` has taken it to `-1`.
   */
  function LoopIndex(capacity: int, start: nat, i: nat): int
  {
    if start + i < capacity then start + i else -1
  }

  /**
   * The `for` loop of `getIndex` from iteration `i` on, at array index `index`.
   * The loop runs while `i < capacity`; it reads row `index` (throwing when
   * `index` is not a row), returns `index` when that row is usable, and
   * otherwise steps forward, applying the wrap formula at the end of the array.
   */
  function Probe(t: Table, key: string, start: nat, i: nat, index: int): (r: ProbeResult)
    requires WellFormed(t)
    requires start < t.capacity && start + i <= t.capacity
    requires index == LoopIndex(t.capacity, start, i)
    decreases t.capacity - i
    ensures r.Found? ==> start + i <= r.index < t.capacity && Usable(t, r.index, key)
    ensures r.Found? ==> forall j :: start + i <= j < r.index ==> !Usable(t, j, key)
    ensures r.Found? <==> HasUsable(t, key, start + i)
    ensures r.NotFound? <==> !HasUsable(t, key, start + i) && start == 0
    ensures r.OutOfBounds? ==> r.badIndex == -1
  {
    if i >= t.capacity then
      NotFound
    else if index < 0 || index >= t.capacity then
      OutOfBounds(index)
    else if Usable(t, index, key) then
      Found(index)
    else
      var next := index + SkipFactor;
      var wrapped := if next >= t.capacity then t.capacity - 1 - next else next;
      Probe(t, key, start, i + 1, wrapped)
  }

  /**
   * `getIndex`: the first usable row from the hash position to the end of the
   * array. When there is none, the result is `-1` (`NotFound`) if the hash
   * is 0, and otherwise the wrap-around sends the loop to index `-1` with
   * iterations left, and the array access throws.
   */
  function GetIndex(t: Table, key: string): (r: ProbeResult)
    requires WellFormed(t)
    ensures Usable(t, HashFunction(t, key), key) ==> r == Found(HashFunction(t, key))
    ensures r.Found? ==> HashFunction(t, key) <= r.index < t.capacity && Usable(t, r.index, key)
    ensures r.Found? ==> forall j :: HashFunction(t, key) <= j < r.index ==> !Usable(t, j, key)
    ensures r.Found? <==> HasUsable(t, key, HashFunction(t, key))
    ensures r.NotFound? <==> !HasUsable(t, key, HashFunction(t, key)) && HashFunction(t, key) == 0
    ensures r.OutOfBounds? <==> !HasUsable(t, key, HashFunction(t, key)) && HashFunction(t, key) > 0
    ensures r.OutOfBounds? ==> r.badIndex == -1
  {
    var hash := HashFunction(t, key);
    Probe(t, key, hash, 0, hash)
  }

  /**
   * `add`: refused without effect when `size >= capacity` or when `getIndex`
   * is `-1`; otherwise only the value cell of the found row is written and
   * `size` grows by one, whether or not the row already held a value.
   */
  function Add(t: Table, key: string, value: Option<string>): (r: Outcome<Table>)
    requires WellFormed(t)
    ensures r.Returned? ==> WellFormed(r.value) && r.value.capacity == t.capacity
    ensures r.Returned? ==> forall j :: 0 <= j < t.capacity ==> r.value.slots[j].key == t.slots[j].key
    ensures t.size >= t.capacity ==> r == Returned(t)
    ensures t.size < t.capacity && !HasUsable(t, key, HashFunction(t, key)) && HashFunction(t, key) == 0
            ==> r == Returned(t)
    ensures r.Threw? <==> t.size < t.capacity && !HasUsable(t, key, HashFunction(t, key)) && HashFunction(t, key) > 0
    ensures r.Threw? ==> r.exception == ArrayIndexOutOfBounds(-1)
    ensures t.size < t.capacity && GetIndex(t, key).Found? ==>
              && r.Returned?
              && r.value.size == t.size + 1
              && r.value.slots[GetIndex(t, key).index].value == value
              && forall j :: 0 <= j < t.capacity && j != GetIndex(t, key).index ==> r.value.slots[j] == t.slots[j]
  {
    if t.size >= t.capacity then
      Returned(t)
    else
      match GetIndex(t, key)
      case NotFound => Returned(t)
      case OutOfBounds(index) => Threw(ArrayIndexOutOfBounds(index))
      case Found(index) =>
        var row := t.slots[index].(value := value);
        Returned(t.(slots := t.slots[index := row], size := t.size + 1))
  }

  /**
   * `getValue`: the value cell of the row `getIndex` finds (possibly `null`),
   * or the empty string when `getIndex` is `-1`.
   */
  function GetValue(t: Table, key: string): (r: Outcome<Option<string>>)
    requires WellFormed(t)
    ensures Usable(t, HashFunction(t, key), key) ==> r == Returned(t.slots[HashFunction(t, key)].value)
    ensures r.Returned? && r.value == Some("") ==>
              || (!HasUsable(t, key, HashFunction(t, key)) && HashFunction(t, key) == 0)
              || exists j :: 0 <= j < t.capacity && t.slots[j].value == Some("")
    ensures !HasUsable(t, key, HashFunction(t, key)) && HashFunction(t, key) == 0 ==> r == Returned(Some(""))
    ensures r.Threw? <==> !HasUsable(t, key, HashFunction(t, key)) && HashFunction(t, key) > 0
    ensures r.Threw? ==> r.exception == ArrayIndexOutOfBounds(-1)
    ensures GetIndex(t, key).Found? ==> r == Returned(t.slots[GetIndex(t, key).index].value)
  {
    match GetIndex(t, key)
    case NotFound => Returned(Some(""))
    case OutOfBounds(index) => Threw(ArrayIndexOutOfBounds(index))
    case Found(index) => Returned(t.slots[index].value)
  }

  /** `delete`: its body is empty, so the table is left exactly as it was. */
  function Delete(t: Table, key: string): (r: Table)
    requires WellFormed(t)
    ensures WellFormed(r) && r.capacity == t.capacity && r.size == t.size
    ensures forall other :: GetValue(r, other) == GetValue(t, other)
  {
    t
  }
}
