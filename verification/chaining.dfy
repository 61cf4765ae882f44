/**
  The value-level specification of a fixed-size hash table with separate
  chaining that maps contact names to phone numbers.

  A table is modelled as a sequence of buckets; each bucket is the chain of
  records that hash to it, in chain order (head first).  The imperative
  table in module HashTables is proved to behave like TableInsert and
  TableSearch below.
 */
module Chaining {

  datatype Option<T> = None | Some(value: T)

  /** A contact: the name is the key, the number is the payload. */
  datatype Record = Record(name: string, number: string)

  // ---------------------------------------------------------------------
  // Hashing
  // ---------------------------------------------------------------------

  /** The sum of the code points of the characters of key. */
  function CodeSum(key: string): nat
  {
    if key == [] then 0 else key[0] as int + CodeSum(key[1..])
  }

  /** The bucket index of key in a table of size buckets: the code-point
      sum reduced modulo size. */
  function Hash(key: string, size: nat): (index: nat)
    requires size > 0
    ensures index < size
  {
    CodeSum(key) % size
  }

  lemma {:induction false} CodeSumAppend(a: string, b: string)
    ensures CodeSum(a + b) == CodeSum(a) + CodeSum(b)
  {
    if a == [] {
      assert a + b == b;
    } else {
      assert (a + b)[1..] == a[1..] + b;
      CodeSumAppend(a[1..], b);
    }
  }

  /** The code-point sum depends only on the multiset of characters. */
  lemma {:induction false} CodeSumPermutation(a: string, b: string)
    requires multiset(a) == multiset(b)
    ensures CodeSum(a) == CodeSum(b)
  {
    if a == [] {
      assert |b| == |multiset(b)| == 0;
    } else {
      var c := a[0];
      assert a == [c] + a[1..];
      assert c in multiset(b);
      var i :| 0 <= i < |b| && b[i] == c;
      var rest := b[..i] + b[i + 1..];
      assert b == b[..i] + [c] + b[i + 1..];
      assert multiset(b) == multiset(b[..i]) + multiset([c]) + multiset(b[i + 1..]);
      assert multiset(a) == multiset([c]) + multiset(a[1..]);
      assert multiset(rest) == multiset(b[..i]) + multiset(b[i + 1..]);
      assert multiset(a[1..]) == multiset(a) - multiset([c]);
      assert multiset(rest) == multiset(b) - multiset([c]);
      CodeSumPermutation(a[1..], rest);
      CodeSumAppend(b[..i] + [c], b[i + 1..]);
      CodeSumAppend(b[..i], [c]);
      CodeSumAppend(b[..i], b[i + 1..]);
      assert CodeSum([c]) == c as int;
    }
  }

  /** Anagrams (keys with the same multiset of characters) always land in
      the same bucket. */
  lemma AnagramsCollide(a: string, b: string, size: nat)
    requires size > 0
    requires multiset(a) == multiset(b)
    ensures Hash(a, size) == Hash(b, size)
  {
    CodeSumPermutation(a, b);
  }

  // ---------------------------------------------------------------------
  // One chain
  // ---------------------------------------------------------------------

  /** No two records of a chain share a name. */
  predicate UniqueNames(chain: seq<Record>)
  {
    forall i, j :: 0 <= i < j < |chain| ==> chain[i].name != chain[j].name
  }

  /** The index of the first record named key, walking from the head,
      or None when the walk reaches the end of the chain. */
  function Position(chain: seq<Record>, key: string): (p: Option<nat>)
    ensures p.Some? ==> p.value < |chain| && chain[p.value].name == key
    ensures p.Some? ==> forall i :: 0 <= i < p.value ==> chain[i].name != key
    ensures p.None? <==> forall i :: 0 <= i < |chain| ==> chain[i].name != key
  {
    if chain == [] then None
    else if chain[0].name == key then Some(0)
    else match Position(chain[1..], key)
      case None => None
      case Some(i) => Some(i + 1)
  }

  /** The record a walk of the chain finds for key. */
  function Find(chain: seq<Record>, key: string): (r: Option<Record>)
    ensures r.None? <==> forall i :: 0 <= i < |chain| ==> chain[i].name != key
    ensures r.Some? ==> r.value in chain && r.value.name == key
  {
    match Position(chain, key)
    case None => None
    case Some(i) => Some(chain[i])
  }

  /** Find-or-append: overwrite the number of the first record named name,
      or link a new record on at the tail. */
  function ChainInsert(chain: seq<Record>, name: string, number: string): (r: seq<Record>)
    ensures |chain| <= |r| <= |chain| + 1
  {
    match Position(chain, name)
    case Some(i) => chain[i := Record(name, number)]
    case None => chain + [Record(name, number)]
  }

  lemma PositionAt(chain: seq<Record>, key: string, p: nat)
    requires p < |chain| && chain[p].name == key
    requires forall i :: 0 <= i < p ==> chain[i].name != key
    ensures Position(chain, key) == Some(p)
  {
  }

  /** In a chain with unique names, the record named key is the one found. */
  lemma FindUnique(chain: seq<Record>, j: nat)
    requires UniqueNames(chain)
    requires j < |chain|
    ensures Find(chain, chain[j].name) == Some(chain[j])
  {
    PositionAt(chain, chain[j].name, j);
  }

  /** Inserting a name already in the chain overwrites that record's number
      in place: the length and the order of the chain are unchanged. */
  lemma InsertExisting(chain: seq<Record>, j: nat, number: string)
    requires UniqueNames(chain)
    requires j < |chain|
    ensures |ChainInsert(chain, chain[j].name, number)| == |chain|
    ensures ChainInsert(chain, chain[j].name, number)[j] == Record(chain[j].name, number)
    ensures forall i :: 0 <= i < |chain| && i != j ==>
              ChainInsert(chain, chain[j].name, number)[i] == chain[i]
  {
    PositionAt(chain, chain[j].name, j);
  }

  /** Inserting a name not in the chain appends exactly one record at the
      tail; the earlier records keep their order and values. */
  lemma InsertMissing(chain: seq<Record>, name: string, number: string)
    requires forall i :: 0 <= i < |chain| ==> chain[i].name != name
    ensures ChainInsert(chain, name, number) == chain + [Record(name, number)]
  {
  }

  /** The names of a chain, in order, are kept by an insert, apart from a
      new name appended at the tail. */
  lemma InsertNames(chain: seq<Record>, name: string, number: string)
    ensures var r := ChainInsert(chain, name, number);
            (forall i :: 0 <= i < |chain| ==> r[i].name == chain[i].name)
            && (|r| == |chain| + 1 ==> r[|chain|].name == name)
  {
  }

  /** After an insert, a walk for the inserted name finds the new number.
      The proof is a case split, not an induction; automatic induction is
      switched off so that the split is what proves it. */
  lemma {:induction false} FindAfterInsert(chain: seq<Record>, name: string, number: string)
    ensures Find(ChainInsert(chain, name, number), name) == Some(Record(name, number))
  {
    var r := ChainInsert(chain, name, number);
    match Position(chain, name)
    case Some(p) =>
      PositionAt(r, name, p);
    case None =>
      PositionAt(r, name, |chain|);
  }

  /** An insert does not change what a walk finds for any other name. */
  lemma FindOtherAfterInsert(chain: seq<Record>, name: string, number: string, key: string)
    requires key != name
    ensures Find(ChainInsert(chain, name, number), key) == Find(chain, key)
  {
    var r := ChainInsert(chain, name, number);
    InsertNames(chain, name, number);
    match Position(chain, key)
    case Some(p) =>
      PositionAt(r, key, p);
    case None =>
      assert forall i :: 0 <= i < |r| ==> r[i].name != key;
  }

  /** An insert keeps the names of a chain unique. */
  lemma InsertKeepsUnique(chain: seq<Record>, name: string, number: string)
    requires UniqueNames(chain)
    ensures UniqueNames(ChainInsert(chain, name, number))
  {
    InsertNames(chain, name, number);
  }

  /** Repeating an insert with the same name and number changes nothing. */
  lemma InsertIdempotent(chain: seq<Record>, name: string, number: string)
    ensures ChainInsert(ChainInsert(chain, name, number), name, number)
            == ChainInsert(chain, name, number)
  {
    var r := ChainInsert(chain, name, number);
    match Position(chain, name)
    case Some(p) =>
      InsertNames(chain, name, number);
      PositionAt(r, name, p);
    case None =>
      InsertNames(chain, name, number);
      PositionAt(r, name, |chain|);
  }

  // ---------------------------------------------------------------------
  // The whole table
  // ---------------------------------------------------------------------

  /** The table invariant: at least one bucket, names unique within each
      chain, and every record sits in the bucket its name hashes to. */
  predicate WellFormed(t: seq<seq<Record>>)
  {
    && |t| > 0
    && (forall b :: 0 <= b < |t| ==> UniqueNames(t[b]))
    && (forall b, j :: 0 <= b < |t| && 0 <= j < |t[b]| ==> Hash(t[b][j].name, |t|) == b)
  }

  /** A freshly constructed table of size buckets, all of them empty. */
  function EmptyTable(size: nat): (t: seq<seq<Record>>)
    requires size > 0
    ensures |t| == size && WellFormed(t)
    ensures forall b :: 0 <= b < size ==> t[b] == []
  {
    seq(size, _ => [])
  }

  /** Search walks the chain of the key's bucket. */
  function TableSearch(t: seq<seq<Record>>, key: string): (r: Option<Record>)
    requires |t| > 0
    ensures r.None? <==> forall j :: 0 <= j < |t[Hash(key, |t|)]| ==> t[Hash(key, |t|)][j].name != key
    ensures r.Some? ==> r.value.name == key && r.value in t[Hash(key, |t|)]
  {
    Find(t[Hash(key, |t|)], key)
  }

  /** Insert is find-or-append on the chain of the key's bucket. */
  function TableInsert(t: seq<seq<Record>>, key: string, number: string): (r: seq<seq<Record>>)
    requires |t| > 0
    ensures |r| == |t|
    ensures forall b :: 0 <= b < |t| && b != Hash(key, |t|) ==> r[b] == t[b]
  {
    var i := Hash(key, |t|);
    t[i := ChainInsert(t[i], key, number)]
  }

  /** Search on an empty table finds nothing. */
  lemma SearchEmpty(size: nat, key: string)
    requires size > 0
    ensures TableSearch(EmptyTable(size), key) == None
  {
  }

  /** Every record stored in a well-formed table is what search finds for
      its name. */
  lemma SearchFindsStored(t: seq<seq<Record>>, b: nat, j: nat)
    requires WellFormed(t)
    requires b < |t| && j < |t[b]|
    ensures TableSearch(t, t[b][j].name) == Some(t[b][j])
  {
    FindUnique(t[b], j);
  }

  /** After insert(k, n), search(k) returns the record (k, n). */
  lemma SearchAfterInsert(t: seq<seq<Record>>, key: string, number: string)
    requires |t| > 0
    ensures TableSearch(TableInsert(t, key, number), key) == Some(Record(key, number))
  {
    FindAfterInsert(t[Hash(key, |t|)], key, number);
  }

  /** insert(k, n) does not change what search gives for any other key. */
  lemma SearchOtherAfterInsert(t: seq<seq<Record>>, key: string, number: string, other: string)
    requires |t| > 0
    requires other != key
    ensures TableSearch(TableInsert(t, key, number), other) == TableSearch(t, other)
  {
    var i := Hash(key, |t|);
    if Hash(other, |t|) == i {
      FindOtherAfterInsert(t[i], key, number, other);
    }
  }

  /** insert keeps the table invariant. */
  lemma InsertPreservesWellFormed(t: seq<seq<Record>>, key: string, number: string)
    requires WellFormed(t)
    ensures WellFormed(TableInsert(t, key, number))
  {
    var i := Hash(key, |t|);
    var r: seq<seq<Record>> := TableInsert(t, key, number);
    InsertKeepsUnique(t[i], key, number);
    InsertNames(t[i], key, number);
    forall b: int, j: int | 0 <= b < |r| && 0 <= j < |r[b]|
      ensures Hash(r[b][j].name, |r|) == b
    {
      if b == i && j < |t[i]| {
        assert r[b][j].name == t[i][j].name;
      }
    }
  }

  /** Inserting the same key and number twice leaves the table as one
      insert did. */
  lemma TableInsertIdempotent(t: seq<seq<Record>>, key: string, number: string)
    requires |t| > 0
    ensures TableInsert(TableInsert(t, key, number), key, number) == TableInsert(t, key, number)
  {
    InsertIdempotent(t[Hash(key, |t|)], key, number);
  }

  // ---------------------------------------------------------------------
  // The table as a map from names to numbers
  // ---------------------------------------------------------------------

  /** The names stored anywhere in the table. */
  function Names(t: seq<seq<Record>>): set<string>
  {
    set b, j | 0 <= b < |t| && 0 <= j < |t[b]| :: t[b][j].name
  }

  /** The map a table represents: each stored name to the number of a
      record stored under it, wherever in the table that record is. */
  ghost function AsMap(t: seq<seq<Record>>): map<string, string>
  {
    map k | k in Names(t) :: StoredNumber(t, k)
  }

  /** The number of some record named k stored in t. */
  ghost function StoredNumber(t: seq<seq<Record>>, k: string): string
    requires k in Names(t)
  {
    var b, j :| 0 <= b < |t| && 0 <= j < |t[b]| && t[b][j].name == k;
    t[b][j].number
  }

  /** In a well-formed table, search agrees with the map abstraction. */
  lemma SearchAsMap(t: seq<seq<Record>>, key: string)
    requires WellFormed(t)
    ensures TableSearch(t, key) ==
            if key in AsMap(t) then Some(Record(key, AsMap(t)[key])) else None
  {
    if key in Names(t) {
      var b, j :| 0 <= b < |t| && 0 <= j < |t[b]| && t[b][j].name == key;
      SearchFindsStored(t, b, j);
    } else {
      var i := Hash(key, |t|);
      forall j | 0 <= j < |t[i]| ensures t[i][j].name != key {
        assert t[i][j].name in Names(t);
      }
    }
  }

  /** insert(k, n) updates the represented map at k to n and nothing else. */
  lemma AsMapAfterInsert(t: seq<seq<Record>>, key: string, number: string)
    requires WellFormed(t)
    ensures AsMap(TableInsert(t, key, number)) == AsMap(t)[key := number]
  {
    var r := TableInsert(t, key, number);
    InsertPreservesWellFormed(t, key, number);
    forall k
      ensures k in AsMap(r) <==> k in AsMap(t)[key := number]
      ensures k in AsMap(r) ==> AsMap(r)[k] == AsMap(t)[key := number][k]
    {
      SearchAsMap(r, k);
      SearchAsMap(t, k);
      if k == key {
        SearchAfterInsert(t, key, number);
      } else {
        SearchOtherAfterInsert(t, key, number, k);
      }
    }
  }

  /** The table of the program's closing scenario after its first four
      inserts into ten empty buckets: John, Rebecca, then the colliding pair
      Amy and May. */
  function ScenarioInserts(): seq<seq<Record>>
  {
    var t0 := EmptyTable(10);
    var t1 := TableInsert(t0, "John", "909-876-1234");
    var t2 := TableInsert(t1, "Rebecca", "111-555-0002");
    var t3 := TableInsert(t2, "Amy", "111-222-3333");
    TableInsert(t3, "May", "222-333-1111")
  }

  /** The scenario's final table: the fifth insert updates Rebecca's
      number. */
  function ScenarioTable(): seq<seq<Record>>
  {
    TableInsert(ScenarioInserts(), "Rebecca", "999-444-9999")
  }

  /** The collision of the scenario: Amy and May are anagrams only up to
      case, yet their code-point sums agree ('A' + 'm' == 'M' + 'a'), so
      they share bucket 5 of 10. */
  lemma ScenarioCollision()
    ensures Hash("Amy", 10) == Hash("May", 10) == 5
  {
    assert CodeSum("y") == 121;
    assert CodeSum("my") == 230 && CodeSum("ay") == 218;
    assert CodeSum("Amy") == 295 == CodeSum("May");
  }

  /** What searching that table gives: Amy and May are both found although
      they share a bucket, Rebecca has her second number, and a name never inserted
      finds nothing. */
  lemma ScenarioSearches()
    ensures TableSearch(ScenarioTable(), "John") == Some(Record("John", "909-876-1234"))
    ensures TableSearch(ScenarioTable(), "Amy") == Some(Record("Amy", "111-222-3333"))
    ensures TableSearch(ScenarioTable(), "May") == Some(Record("May", "222-333-1111"))
    ensures TableSearch(ScenarioTable(), "Rebecca") == Some(Record("Rebecca", "999-444-9999"))
    ensures TableSearch(ScenarioTable(), "Chris") == None
  {
    var t0 := EmptyTable(10);
    var t1 := TableInsert(t0, "John", "909-876-1234");
    var t2 := TableInsert(t1, "Rebecca", "111-555-0002");
    var t3 := TableInsert(t2, "Amy", "111-222-3333");
    var t4 := ScenarioInserts();
    SearchAfterInsert(t0, "John", "909-876-1234");
    SearchOtherAfterInsert(t1, "Rebecca", "111-555-0002", "John");
    SearchOtherAfterInsert(t2, "Amy", "111-222-3333", "John");
    SearchOtherAfterInsert(t3, "May", "222-333-1111", "John");
    SearchOtherAfterInsert(t4, "Rebecca", "999-444-9999", "John");
    SearchAfterInsert(t2, "Amy", "111-222-3333");
    SearchOtherAfterInsert(t3, "May", "222-333-1111", "Amy");
    SearchOtherAfterInsert(t4, "Rebecca", "999-444-9999", "Amy");
    SearchAfterInsert(t3, "May", "222-333-1111");
    SearchOtherAfterInsert(t4, "Rebecca", "999-444-9999", "May");
    SearchAfterInsert(t4, "Rebecca", "999-444-9999");
    SearchEmpty(10, "Chris");
    SearchOtherAfterInsert(t0, "John", "909-876-1234", "Chris");
    SearchOtherAfterInsert(t1, "Rebecca", "111-555-0002", "Chris");
    SearchOtherAfterInsert(t2, "Amy", "111-222-3333", "Chris");
    SearchOtherAfterInsert(t3, "May", "222-333-1111", "Chris");
    SearchOtherAfterInsert(t4, "Rebecca", "999-444-9999", "Chris");
  }

  /** The buckets of the scenario's other two names: John hashes to 9 and
      Rebecca to 7 of 10. */
  lemma ScenarioHashes()
    ensures Hash("John", 10) == 9 && Hash("Rebecca", 10) == 7
  {
    assert CodeSum("n") == 110 && CodeSum("hn") == 214 && CodeSum("ohn") == 325;
    assert CodeSum("John") == 399;
    assert CodeSum("a") == 97 && CodeSum("ca") == 196 && CodeSum("cca") == 295;
    assert CodeSum("ecca") == 396 && CodeSum("becca") == 494 && CodeSum("ebecca") == 595;
    assert CodeSum("Rebecca") == 677;
  }

  /** The table the scenario prints first and searches for John: after the
      inserts of John and Rebecca, each is alone in their bucket, every
      other bucket is empty, and search finds John's contact. */
  lemma ScenarioFirstTwo()
    ensures var t := TableInsert(TableInsert(EmptyTable(10), "John", "909-876-1234"),
                                 "Rebecca", "111-555-0002");
            && |t| == 10
            && t[9] == [Record("John", "909-876-1234")]
            && t[7] == [Record("Rebecca", "111-555-0002")]
            && (forall b :: 0 <= b < 10 && b != 7 && b != 9 ==> t[b] == [])
            && TableSearch(t, "John") == Some(Record("John", "909-876-1234"))
  {
    ScenarioHashes();
    var t0 := EmptyTable(10);
    var t1 := TableInsert(t0, "John", "909-876-1234");
    InsertMissing(t0[9], "John", "909-876-1234");
    InsertMissing(t1[7], "Rebecca", "111-555-0002");
    SearchAfterInsert(t0, "John", "909-876-1234");
    SearchOtherAfterInsert(t1, "Rebecca", "111-555-0002", "John");
  }

  /** The chains after the first four inserts: Amy and May share bucket 5
      in insertion order, Rebecca and John are alone in theirs, and every
      other bucket is empty. */
  lemma ScenarioInsertsBuckets()
    ensures |ScenarioInserts()| == 10
    ensures ScenarioInserts()[5] == [Record("Amy", "111-222-3333"), Record("May", "222-333-1111")]
    ensures ScenarioInserts()[7] == [Record("Rebecca", "111-555-0002")]
    ensures ScenarioInserts()[9] == [Record("John", "909-876-1234")]
    ensures forall b :: 0 <= b < 10 && b != 5 && b != 7 && b != 9 ==> ScenarioInserts()[b] == []
  {
    ScenarioCollision();
    ScenarioHashes();
    var t0 := EmptyTable(10);
    var t1 := TableInsert(t0, "John", "909-876-1234");
    var t2 := TableInsert(t1, "Rebecca", "111-555-0002");
    var t3 := TableInsert(t2, "Amy", "111-222-3333");
    InsertMissing(t0[9], "John", "909-876-1234");
    assert t1[9] == [Record("John", "909-876-1234")];
    InsertMissing(t1[7], "Rebecca", "111-555-0002");
    assert t2[7] == [Record("Rebecca", "111-555-0002")];
    InsertMissing(t2[5], "Amy", "111-222-3333");
    assert t3[5] == [Record("Amy", "111-222-3333")];
    InsertMissing(t3[5], "May", "222-333-1111");
  }

  /** The final chains: the update leaves Rebecca's bucket with one entry,
      holding her second number, and changes no other bucket. */
  lemma ScenarioBuckets()
    ensures |ScenarioTable()| == 10
    ensures ScenarioTable()[5] == [Record("Amy", "111-222-3333"), Record("May", "222-333-1111")]
    ensures ScenarioTable()[7] == [Record("Rebecca", "999-444-9999")]
    ensures ScenarioTable()[9] == [Record("John", "909-876-1234")]
    ensures forall b :: 0 <= b < 10 && b != 5 && b != 7 && b != 9 ==> ScenarioTable()[b] == []
  {
    ScenarioInsertsBuckets();
    ScenarioHashes();
    InsertExisting(ScenarioInserts()[7], 0, "999-444-9999");
  }
}
