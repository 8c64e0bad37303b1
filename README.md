# Contact hash table

A Dafny model of a separate-chaining hash table that maps a contact's name
to a `Contact` record (a name and a phone number).

The table has a fixed number of buckets, `size >= 1`. A key's bucket is the
sum of the code points of its characters, modulo `size`. Each bucket holds a
chain of nodes. `Insert` walks the key's chain. If it finds the key, it
overwrites that node's value. If not, it puts a new node at the head of an
empty bucket or links it after the last node. `Search` walks the same chain
and returns the first matching value, or nothing.

How the model is built (`hash_table.dfy`, module `HashTables`):

- `Contact` is an immutable datatype. `Contact.ToString` gives its display
  form `"<name>: <number>"`.
- A chain is a `seq<Node>`. The head is element 0, and a node's `next` is
  the element after it. An empty sequence is an empty (`None`) bucket.
- `HashTable` is a class. It has a `const size` and a `const data:
  array<seq<Node>>`. The source assigns both once and only ever writes
  `data[index]`.
- Two ghost fields give the abstract view. `contents` is the
  `map<string, Contact>` the table represents. `order` lists the stored
  keys in the order they were first inserted.
- `Valid()` is `TableInv` applied to `data[..]`. `TableInv` says four
  things. Every node in bucket `i` hashes to `i`. No chain repeats a key.
  Each chain lists its keys in insertion order (`order` restricted to that
  bucket). Walking a key's chain (`ChainFind`) finds exactly what
  `contents` holds for that key.
- `HashFunction`, `Insert` and `Search` are methods with loops, like the
  source. `HashIndex`, `SumCodes` and `ChainFind` are the functions that
  specify them.
- `scenarios.dfy` (module `Scenarios`) holds callers that use only these
  contracts. They cover write-then-read, last write wins, and colliding
  keys. They also run the concrete cases: John/Rebecca/Chris, Rebecca
  updated, and Amy/May. "Amy" and "May" are not anagrams, because `A`/`a`
  and `M`/`m` differ in case. They still share a bucket, because
  65 + 109 = 77 + 97.

Python's `%` matches Dafny's `%` here, because the sum is never negative and
`size` is positive. Python's `ord` is modelled as `c as int` on Dafny's
Unicode `char`.

## Model

| member | source | states |
|---|---|---|
| `HashTables.Contact.ToString` | hash_table.py:13-14 | The display form is the name, then `": "`, then the number (lengths and each part pinned down) |
| `HashTables.ToStringInjective` | hash_table.py:13-14 | For names without a colon, two contacts with the same display form are equal |
| `HashTables.HashIndex` | hash_table.py:47-51 | A key's bucket index is in `[0, size)`, and the empty key maps to bucket 0 |
| `HashTables.SumCodesConcat` | hash_table.py:48-50 | The code sum of a concatenation is the sum of the parts' code sums |
| `HashTables.SumCodesPermutation` | hash_table.py:48-50 | Strings with the same multiset of characters have the same code sum |
| `HashTables.AnagramsCollide` | hash_table.py:47-51 | Keys that are permutations of each other land in the same bucket |
| `HashTables.HashTable.HashFunction` | hash_table.py:47-51 | The accumulating loop returns the code sum of the key mod `size`, which is below `size`; it changes nothing |
| `HashTables.ChainFindSpec` | hash_table.py:78-83 | A chain walk finds nothing exactly when no node has the key; when it finds a value, some node holds the key with that value |
| `HashTables.ChainFindFirst` | hash_table.py:78-80 | A chain walk returns the value of the first node whose key matches |
| `HashTables.ChainFindAppend` | hash_table.py:67-72 | Linking a node after the tail changes what a walk finds only for a key that was not found before; that key now finds the new node's value |
| `HashTables.ChainFindReplace` | hash_table.py:62-65 | Overwriting one node's value, with its key kept, leaves every other key's walk result unchanged |
| `HashTables.InBucketAppend` | hash_table.py:67-72 | Recording a new key last in the insertion order extends only its own bucket's key list, at the end |
| `HashTables.InBucketSubset` | hash_table.py:53-72 | Every key listed for a bucket is a recorded key |
| `HashTables.EmptyTableInv` | hash_table.py:43-45 | `size` empty buckets form a consistent table that represents the empty map |
| `HashTables.AppendKeepsHashed` | hash_table.py:58-60 | Adding a node for a key to the key's own bucket keeps every node in the bucket its key hashes to |
| `HashTables.AppendKeepsOrder` | hash_table.py:67-72 | Appending a new key at the tail keeps chains free of repeated keys and in insertion order |
| `HashTables.AppendKeepsRepresents` | hash_table.py:67-72 | Appending a new key at the tail makes the chains represent the map updated with that key |
| `HashTables.AppendKeepsInv` | hash_table.py:56-72 | When the key is absent from its chain, the key is new, and appending it keeps the whole table invariant for the updated map and insertion order |
| `HashTables.ReplaceKeepsShape` | hash_table.py:62-65 | Overwriting a node's value keeps bucket placement, key uniqueness and chain order |
| `HashTables.ReplaceKeepsRepresents` | hash_table.py:62-65 | When a node in its chain holds the key, the key is stored, and overwriting that node makes the chains represent the updated map |
| `HashTables.ReplaceKeepsInv` | hash_table.py:62-65 | Overwriting an existing key's node keeps the whole table invariant, with the insertion order unchanged |
| `HashTables.HashTable.constructor` | hash_table.py:43-45 | A new table has `size` empty buckets, a fresh array, the empty map and no recorded keys |
| `HashTables.HashTable.Insert` | hash_table.py:53-72 | The invariant is kept and the map becomes `old[key := value]`. Every other bucket is unchanged. For an existing key, the chain keeps its length and only that key's node gets the new value. For a new key, one node is appended at the tail, or becomes the head of an empty bucket, and the key is recorded last in the insertion order |
| `HashTables.HashTable.Search` | hash_table.py:74-83 | The result is the map's value for the key. It is `None` exactly when no node in the key's bucket has the key, and otherwise a node there holds the key and the result. Nothing is modified |
| `Scenarios.WriteThenRead` | hash_table.py:53-83 | After inserting `(key, value)` into any valid table, a search for `key` yields `value` |
| `Scenarios.LastWriteWins` | hash_table.py:62-65 | After inserting a key twice, a search yields the second value and the key's chain holds exactly one node for it |
| `Scenarios.OccursOnce` | hash_table.py:62-65 | A chain without repeated keys holds each of its keys at exactly one position |
| `Scenarios.CollidingKeysBothFound` | hash_table.py:47-83 | Two distinct keys in the same bucket each stay searchable after both are inserted |

## Left out

- `print_table` (hash_table.py:85-86) is an unimplemented stub. It does not even take `self`, so there is no behaviour to model.
- The module-level demo lines (hash_table.py:88-95) only build objects and print them. The concrete cases in `scenarios.dfy` play the role of a caller instead.
- Object identity and aliasing of `Node` and `Contact` references are not modelled. Overwriting a node's value is modelled as replacing that element of the chain sequence, and `next` pointers are modelled as sequence order.
- `HashTables.HashTable.constructor` requires `size >= 1`. The source does not check this: with `size == 0` the hash function divides by zero, and a negative size yields an empty bucket list.
- Python strings may contain lone surrogate code points, which Dafny's `char` cannot represent. Keys are modelled as sequences of Unicode scalar values.
- Deletion, resizing and concurrent access do not exist in the source.
