# HashTable: a fixed-capacity string dictionary with linear probing

This project models the `HashTable` class of `src/App.java` in Dafny and proves
properties of the model. The class implements the `Dictionary` interface
(`add`, `getValue`, `delete`) on a `capacity`-by-2 array of Java strings:
column 0 is meant for keys and column 1 for values. The hash is the sum of the
key's character codes modulo the capacity. `getIndex` looks for a free or
matching row by linear probing from the hash position.

The model follows the code as written, which differs from a textbook
open-addressing table:

- `add` writes only the value cell. No key is ever stored, so every key cell
  stays `null` from construction onward.
- `size` grows on every accepted `add`, including one that overwrites a value.
- `delete` has an empty body.
- The wrap-around of the probe sets `index = capacity - 1 - index`. At the end
  of the array this gives `-1`, and the next array access would throw
  `ArrayIndexOutOfBoundsException`. Because key cells are always `null`, the
  probe stops at the hash position on its first iteration, and this branch is
  never reached.

The class stores no keys, never removes an entry, and reports no errors:
`add` on a full table, or when the probe gives `-1`, returns without a word.
The model keeps all of this as written.

Modules:

- `Wrappers` (`wrappers.dfy`): `Option`, where `None` stands for Java `null`.
- `Ascii` (`ascii.dfy`): `convertASCII`, the character sum. A Java `char` is a
  UTF-16 code unit. A character outside the Basic Multilingual Plane therefore
  contributes both halves of its surrogate pair.
- `HashTables` (`hash_table.dfy`): the object state and the operations, as pure
  functions. `getIndex` and the operations built on it are defined on every
  well-formed array, including arrays whose key column is not all `null`. This
  makes the probing loop and the wrap-around visible. A thrown exception is an
  `Outcome.Threw` result.
- `HashTableProofs` (`hash_table_proofs.dfy`): the class invariant, what each
  operation does in reachable states, and runs of any sequence of calls from
  the constructor.

## Model

| member | source | states |
|---|---|---|
| `Ascii.Utf16` | src/App.java:39-40 | A character becomes the code units `charAt` walks over: one unit for a BMP character, otherwise a high surrogate then a low surrogate. Every unit is below 0x10000, and decoding the units gives back the character. |
| `Ascii.ConvertAscii` | src/App.java:37-43 | The accumulating loop returns the sum of the string's code units, as given by the reference definition `CharSum`. |
| `Ascii.CharSumAppend` | src/App.java:37-43 | The sum of a concatenation is the sum of the sums of its parts. |
| `Ascii.PermutationSameSum` | src/App.java:37-43 | Two strings with the same multiset of characters have the same sum. |
| `HashTables.Create` | src/App.java:46-50 | The constructor yields a well-formed table with the requested capacity, `size` 0, and every key and value cell `null`. |
| `HashTables.HashFunction` | src/App.java:52-55 | The hash lies in `[0, capacity)`. It differs from the character sum by a multiple of the capacity, and equals the sum when the sum is below the capacity. |
| `HashTables.Probe` | src/App.java:62-76 | From iteration `i`, the loop returns the first row from `start + i` onward whose key cell is `null` or equals the key. It finds one exactly when one exists before the end of the array. Otherwise it returns `-1` exactly when it started at 0, and it throws at index `-1` exactly when it started elsewhere. |
| `HashTables.GetIndex` | src/App.java:58-77 | If the row at the hash is free or matching, the result is the hash. Any index returned is the first free-or-matching row from the hash on. `-1` means there is no such row and the hash is 0. An exception at index `-1` means there is no such row and the hash is positive. |
| `HashTables.Add` | src/App.java:79-94 | If `size >= capacity`, the table is unchanged. If a row is found, only that row's value cell is written and `size` grows by exactly 1. The key column is never changed. The call throws at index `-1` exactly when the probe does. |
| `HashTables.GetValue` | src/App.java:96-106 | The result is the value cell of whatever row the probe finds, which is the row at the hash when that row is free or matching. When the probe gives `-1`, the result is `""`. The call throws at index `-1` exactly when the probe does. A result of `""` comes only from `-1` or from a `""` stored in some row. |
| `HashTables.Delete` | src/App.java:108-110 | `delete` keeps the table well-formed with the same capacity and `size`, and afterwards `getValue` returns the same outcome as before for every key. |
| `HashTableProofs.Step` | src/App.java:3-9 | A single `Dictionary` call keeps the table well-formed and its capacity fixed. `getValue` and `delete` hand back the table unchanged. |
| `HashTableProofs.CreateEstablishesInvariant` | src/App.java:46-50 | A new table satisfies the invariant: `0 <= size <= capacity` and every key cell `null`. All value cells are `null`. |
| `HashTableProofs.GetIndexIsHash` | src/App.java:58-77 | In every table satisfying the invariant, `getIndex(key)` is `hashFunction(key)`, returned on the first loop iteration, so the wrap-around is never evaluated. |
| `HashTableProofs.WrapAroundWouldThrow` | src/App.java:64-74 | For a two-row array whose row 1 holds another key, looking up a key with hash 1 throws at index `-1`, although row 0 is free. Such an array breaks the invariant. |
| `HashTableProofs.AddInReachable` | src/App.java:79-94 | From the invariant, `add` never throws and keeps the invariant. A full table is unchanged. Otherwise exactly the value cell at the hash is set to `value` and `size` grows by 1. |
| `HashTableProofs.GetValueInReachable` | src/App.java:96-106 | From the invariant, `getValue(key)` returns the value cell at the hash position, which is `null` if never written. |
| `HashTableProofs.DeleteChangesNothing` | src/App.java:108-110 | `delete` keeps the invariant and `size`, changes no `getValue` result, and doing it twice is the same as doing it once. |
| `HashTableProofs.AddThenGet` | src/App.java:79-106 | After an accepted `add(k, v)`, `getValue(k)` returns `v`. |
| `HashTableProofs.CollidingKeysShareValue` | src/App.java:79-106 | If two keys have the same hash, `add` under one sets what `getValue` returns for the other. |
| `HashTableProofs.AddLeavesOtherKeys` | src/App.java:79-106 | `add(k1, v)` leaves `getValue(k2)` unchanged for every `k2` with a different hash. |
| `HashTableProofs.AnagramsCollide` | src/App.java:37-55 | Keys that are rearrangements of the same characters get the same hash, whatever the capacity. |
| `HashTableProofs.OverwriteCountsTwice` | src/App.java:86-93 | Adding the same key twice raises `size` by 2, and `getValue` returns the later value. |
| `HashTableProofs.StepPreservesInvariant` | src/App.java:79-110 | From the invariant, any single call keeps the invariant and never throws. It raises `size` by 1 for an `add` into a table that is not full, and otherwise leaves it unchanged. |
| `HashTableProofs.RunPreservesInvariant` | src/App.java:79-110 | From the invariant, any sequence of calls keeps the invariant and the capacity and never throws. Afterwards `size` is the number of `add` calls added to the starting size, capped at the capacity. |
| `HashTableProofs.ReachableFromCreate` | src/App.java:46-110 | Every table built by the constructor and then any sequence of calls satisfies the invariant. Its `size` is the number of `add` calls, capped at the capacity. In it, `getIndex` is the hash, and neither `add` nor `getValue` throws. |
| `HashTableProofs.DemoScenario` | src/App.java:116-119 | For a table of 31 rows after `add("key1", "value1")`, `getValue("key1")` is `"value1"`. `getValue("key2")` lands in another row and is `null`. |

## Left out

- `App.main` prints with `System.out.println`. Console output is not modelled; `DemoScenario` states the values it would print.
- The commented-out `Bucket<T>` class and the `getSize` / `rehash` declarations are comments, not code.
- `HashTables.HashFunction`: the character sum is an unbounded natural number. Java's `int` sum wraps once the key's code units add up to more than 2^31 - 1, which takes at least 32769 code units. The remainder could then be negative. That overflow is not modelled.
- `HashTables.Create`: requires `capacity > 0`. A capacity of 0 makes every `%` throw `ArithmeticException`, and a negative capacity makes the array allocation throw. Those exceptions are not modelled.
- A `null` key makes `convertASCII` throw `NullPointerException`. Keys are non-null strings in the model. Values may be `null` (`Option.None`).
- The table is used by one thread at a time. Concurrent access is not modelled.
- Storing keys, removing entries and resizing are not modelled, because the class does none of them.
- Java strings holding an unpaired surrogate code unit have no counterpart in the model: a Dafny `string` holds Unicode scalar values, which exclude the surrogate range, so `charAt` sums over such strings are not represented.
