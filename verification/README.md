# Contact hash table with separate chaining

This project models a small hash table that maps contact names to phone
numbers. The table has a fixed number of buckets. The bucket of a name is
the sum of its characters' code points modulo the bucket count. Each bucket
holds a singly linked chain of nodes, and each node holds a contact (a name
and a number).

- `insert(name, number)` walks the chain of the name's bucket. If a node
  with that name is there, it overwrites that contact's number in place.
  Otherwise it links a new node on at the tail, or makes it the head of an
  empty bucket.
- `search(name)` walks the same chain and returns the contact stored under
  the name, or nothing.

The model has two modules.

- `Chaining` (chaining.dfy) is the table as a value. A table is a sequence
  of buckets, and each bucket is the sequence of contacts of its chain,
  head first. Here are the hash function, the chain walk (`Position`,
  `Find`), find-or-append (`ChainInsert`, `TableInsert`), search
  (`TableSearch`) and the table invariant (`WellFormed`). Its lemmas prove
  the table's properties and relate the table to the map from names to
  numbers that it represents (`AsMap`, defined from the stored records
  alone).
- `HashTables` (hash_table.dfy) is the table as the program builds it: a
  `HashTable` class with an `array` of chain heads and `Node` objects linked
  through their `next` fields. `Insert` and `Search` follow the program's
  loops node by node. They are proved against `TableInsert` and
  `TableSearch` through the ghost field `buckets`. The object invariant
  `Valid()` ties the linked nodes to `buckets` and keeps `WellFormed`.
  `Search` has no `modifies` clause, so it changes nothing.

## Model

| member | source | states |
|---|---|---|
| Chaining.Hash | hash_table.py:47-49 | the bucket index of a key is below the bucket count |
| Chaining.CodeSumAppend | hash_table.py:47-49 | the code-point sum of a concatenation is the sum of the two sums |
| Chaining.CodeSumPermutation | hash_table.py:47-49 | the code-point sum depends only on the multiset of characters |
| Chaining.AnagramsCollide | hash_table.py:47-49 | two keys with the same characters in any order land in the same bucket |
| Chaining.Position | hash_table.py:59-66 | the walk stops at the first node named key; it finds nothing exactly when no node has that name |
| Chaining.Find | hash_table.py:73-77 | the walk gives nothing exactly when no contact of the chain has the name; otherwise it gives a contact of the chain with that name |
| Chaining.ChainInsert | hash_table.py:56-67 | find-or-append grows a chain by at most one entry |
| Chaining.PositionAt | hash_table.py:59-63 | a node named key with no earlier node of that name is the one the walk stops at |
| Chaining.FindUnique | hash_table.py:73-75 | in a chain of distinct names, the walk for a stored name gives that contact |
| Chaining.InsertExisting | hash_table.py:60-63 | inserting a name already in the chain keeps its length and order, and overwrites only that entry's number |
| Chaining.InsertMissing | hash_table.py:64-67 | inserting a name not in the chain appends exactly one entry at the tail and keeps the earlier entries |
| Chaining.InsertNames | hash_table.py:56-67 | an insert keeps the names of the chain in order, and a new entry carries the inserted name |
| Chaining.FindAfterInsert | hash_table.py:51-67 | after an insert, the walk for the inserted name gives the new number |
| Chaining.FindOtherAfterInsert | hash_table.py:51-67 | an insert does not change what the walk gives for any other name |
| Chaining.InsertKeepsUnique | hash_table.py:56-67 | an insert keeps the names of a chain distinct |
| Chaining.InsertIdempotent | hash_table.py:51-67 | inserting the same name and number twice equals inserting it once |
| Chaining.EmptyTable | hash_table.py:43-45 | a new table has exactly size buckets, all empty, and is well formed |
| Chaining.TableSearch | hash_table.py:69-77 | search gives nothing exactly when no entry of the key's bucket has the key; a result is a record stored in that bucket and carries the key as its name |
| Chaining.TableInsert | hash_table.py:51-67 | insert keeps the bucket count and changes no bucket but the key's |
| Chaining.SearchEmpty | hash_table.py:43-45 | search in a new table gives nothing for every key |
| Chaining.SearchFindsStored | hash_table.py:69-77 | in a well-formed table, search finds every stored contact |
| Chaining.SearchAfterInsert | hash_table.py:51-67 | after insert(k, n), search(k) gives the contact named k with number n |
| Chaining.SearchOtherAfterInsert | hash_table.py:52-67 | insert(k, n) does not change search(k') for any k' other than k |
| Chaining.InsertPreservesWellFormed | hash_table.py:56-67 | insert keeps names unique in each chain and keeps every entry in the bucket its name hashes to |
| Chaining.TableInsertIdempotent | hash_table.py:51-67 | repeating an insert leaves the table as the first insert left it |
| Chaining.SearchAsMap | hash_table.py:69-77 | in a well-formed table, search finds a name exactly when it is stored, and gives the number stored with it |
| Chaining.AsMapAfterInsert | hash_table.py:51-67 | insert(k, n) updates the represented map at k to n and leaves it otherwise unchanged |
| Chaining.ScenarioCollision | hash_table.py:103-104 | Amy and May both hash to bucket 5 of 10 |
| Chaining.ScenarioHashes | hash_table.py:95-96 | John hashes to bucket 9 and Rebecca to bucket 7 of 10 |
| Chaining.ScenarioFirstTwo | hash_table.py:92-100 | after the inserts of John and Rebecca, each is alone in bucket 9 and 7, every other bucket is empty, and search finds John's contact |
| Chaining.ScenarioInsertsBuckets | hash_table.py:92-105 | after the first four inserts, bucket 5 holds Amy then May, buckets 7 and 9 hold Rebecca and John alone, and the rest are empty |
| Chaining.ScenarioBuckets | hash_table.py:108-109 | the update of Rebecca keeps her bucket at one entry with the new number and changes no other bucket |
| Chaining.ScenarioSearches | hash_table.py:95-112 | in the scenario's table John, Amy and May are found with their numbers, Rebecca with her updated number, and Chris is not found |
| HashTables.Node.constructor | hash_table.py:25-28 | a new node holds its key and contact and links to nothing |
| HashTables.HashTable.constructor | hash_table.py:43-45 | a new table is valid, has size buckets and represents the empty table |
| HashTables.HashTable.Insert | hash_table.py:51-67 | the linked table stays valid and now represents TableInsert of the old table |
| HashTables.HashTable.LinkHead | hash_table.py:56-57 | a new node in an empty bucket becomes its head; the table represents TableInsert of the old table |
| HashTables.HashTable.UpdateNumber | hash_table.py:60-63 | overwriting the number of the first node with the key, in place, makes the table represent TableInsert of the old table |
| HashTables.HashTable.LinkAfter | hash_table.py:64-67 | linking a new node after the tail of a chain without the key makes the table represent TableInsert of the old table |
| HashTables.HashTable.Search | hash_table.py:69-77 | the chain walk returns exactly TableSearch of the represented table, and changes nothing |

## Left out

- `printTable` (hash_table.py:79-89) and `Contact.__str__` (hash_table.py:13-14) only format text for standard output.
- The module-level demo prints its results; the model states the tables and searches it prints instead. The all-empty table printed at hash_table.py:93 is `EmptyTable` (every bucket empty). The table printed at hash_table.py:97 and the search for John at hash_table.py:99-100 are `ScenarioFirstTwo`. The table printed at hash_table.py:105 is `ScenarioInsertsBuckets`, the one at hash_table.py:109 is `ScenarioBuckets`, and the searches of the final table, including Chris at hash_table.py:112, are `ScenarioSearches`. The design memo at the end of the file is prose.
- A positive bucket count is a precondition of the constructor. The program does not check it. A size of 0 fails at the first `% size` (hash_table.py:49). A negative size builds an empty list at hash_table.py:45, and the first insert or search then fails indexing it (hash_table.py:56, hash_table.py:71). The model has neither failure.
- A contact is a value (`Record`) held in a node's mutable `value` field. The program's `Contact` is a shared object: the update `current.value.number = number` changes it in place, and a contact returned by `search` would show later updates. The model updates the node's field and returns a copy, so that aliasing is not captured.
- Keys are sequences of characters. The model sums `char` values; Unicode encoding details are not modelled.
- `HashTable.Insert` loops with `while true` where the program writes `while current`. In that branch `current` starts at a non-empty bucket's head and is never empty when tested: the walk ends by returning on a match or by breaking at the last node.
- `ChainInsert`: its own contract states only the length bound. What it does to the entries is stated by `InsertExisting`, `InsertMissing` and `InsertNames`.
- An executable version of the closing scenario on the `HashTable` class is not part of the model. The scenario is stated on values only.
