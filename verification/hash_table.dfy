/**
  The hash table of contacts as the program builds it: a fixed array of
  chain heads, each chain a singly linked list of nodes, each node holding
  the contact stored under its key.

  The ghost field buckets is the table's value (see module Chaining); the
  ghost field chains lists the nodes of each chain in order, so that the
  links never have to be followed in a specification.
 */
module HashTables {
  import opened Chaining

  /** One entry of a chain: the key, the contact stored under it, and the
      link to the next node of the same bucket. */
  class Node {
    const key: string
    var value: Record
    var next: Node?

    constructor (key: string, value: Record)
      ensures this.key == key && this.value == value && next == null
    {
      this.key := key;
      this.value := value;
      next := null;
    }
  }

  class HashTable {
    const size: nat
    const data: array<Node?>

    ghost var chains: seq<seq<Node>>
    ghost var buckets: seq<seq<Record>>
    ghost var owner: map<Node, (nat, nat)>  // the bucket and position of each linked node
    ghost var Repr: set<object>

    /** The object invariant: data holds the head of each chain; each node
        links to its successor in chains, and the last to nothing; owner
        gives each linked node its place (so no node is linked twice); each
        node's key is the name of its contact; buckets holds the contacts of
        the nodes; and buckets satisfies the table invariant. */
    ghost predicate Valid()
      reads this, Repr
    {
      && this in Repr && data in Repr
      && size > 0 && data.Length == size
      && |chains| == size && |buckets| == size
      && (forall b :: 0 <= b < size ==> |chains[b]| == |buckets[b]|)
      && (forall b :: 0 <= b < size ==> data[b] == if chains[b] == [] then null else chains[b][0])
      && (forall b, j {:trigger chains[b][j]} :: 0 <= b < size && 0 <= j < |chains[b]| ==>
            && chains[b][j] in Repr
            && chains[b][j] in owner && owner[chains[b][j]] == (b, j)
            && chains[b][j].key == chains[b][j].value.name
            && buckets[b][j] == chains[b][j].value)
      && (forall b, j {:trigger chains[b][j].next} :: 0 <= b < size && 0 <= j < |chains[b]| ==>
            chains[b][j].next == if j + 1 < |chains[b]| then chains[b][j + 1] else null)
      && WellFormed(buckets)
    }

    /** A table of size empty buckets. */
    constructor (size: nat)
      requires size > 0
      ensures Valid() && fresh(Repr)
      ensures this.size == size && buckets == EmptyTable(size)
    {
      this.size := size;
      data := new Node?[size](_ => null);
      chains := seq(size, _ => []);
      buckets := EmptyTable(size);
      owner := map[];
      new;
      Repr := {this, data};
    }

    /** Find-or-append: overwrite the number of the contact stored under
        key, or link a new node for it on at the tail of its chain. */
    method Insert(key: string, number: string)
      requires Valid()
      modifies Repr
      ensures Valid() && fresh(Repr - old(Repr))
      ensures buckets == TableInsert(old(buckets), key, number)
    {
      var index := Hash(key, size);
      var newNode := new Node(key, Record(key, number));

      if data[index] == null {
        LinkHead(index, newNode);
        return;
      }
      var current := data[index];
      ghost var j := 0;
      // The program loops on `current`, which is never None here: the walk
      // ends by returning on a match or by breaking at the last node.
      while true
        invariant Valid() && Repr == old(Repr) && buckets == old(buckets)
        invariant newNode !in Repr && newNode.next == null
        invariant newNode.value == Record(key, number)
        invariant 0 <= j < |chains[index]| && current == chains[index][j]
        invariant current.next == if j + 1 < |chains[index]| then chains[index][j + 1] else null
        invariant forall i :: 0 <= i < j ==> buckets[index][i].name != key
        decreases |chains[index]| - j
      {
        if current.key == key {
          UpdateNumber(current, index, j, number);
          return;
        }
        if current.next == null {
          break;
        }
        current := current.next;
        j := j + 1;
      }
      LinkAfter(current, index, newNode);
    }

    /** The empty-bucket branch of insert: node becomes the head of chain
        index. */
    method LinkHead(index: nat, node: Node)
      requires Valid()
      requires index == Hash(node.key, size) && data[index] == null
      requires node !in Repr && node.next == null && node.value.name == node.key
      modifies this, data
      ensures Valid() && Repr == old(Repr) + {node}
      ensures buckets == TableInsert(old(buckets), node.key, node.value.number)
    {
      var key, number := node.key, node.value.number;
      InsertPreservesWellFormed(buckets, key, number);
      InsertMissing(buckets[index], key, number);
      data[index] := node;
      owner, chains, buckets, Repr :=
        owner[node := (index, 0)], chains[index := [node]], TableInsert(buckets, key, number), Repr + {node};
    }

    /** The update branch of insert: overwrite, in place, the number of the
        contact held by current, the first node of chain index whose key is
        current.key. */
    method UpdateNumber(current: Node, index: nat, ghost j: nat, number: string)
      requires Valid()
      requires index == Hash(current.key, size)
      requires j < |chains[index]| && current == chains[index][j]
      requires forall i :: 0 <= i < j ==> buckets[index][i].name != current.key
      modifies this, current
      ensures Valid() && Repr == old(Repr)
      ensures buckets == TableInsert(old(buckets), current.key, number)
    {
      InsertPreservesWellFormed(buckets, current.key, number);
      InsertExisting(buckets[index], j, number);
      current.value := current.value.(number := number);
      buckets := TableInsert(buckets, current.key, number);
      forall b, i | 0 <= b < size && 0 <= i < |chains[b]|
        ensures buckets[b][i] == chains[b][i].value
      {
        if b != index || i != j {
          assert chains[b][i] != current by {
            assert owner[chains[b][i]] == (b, i);
          }
        }
      }
    }

    /** The append branch of insert: node is linked on after last, the tail
        of chain index, which holds no node with node's key. */
    method LinkAfter(last: Node, index: nat, node: Node)
      requires Valid()
      requires index == Hash(node.key, size)
      requires chains[index] != [] && last == chains[index][|chains[index]| - 1]
      requires forall i :: 0 <= i < |buckets[index]| ==> buckets[index][i].name != node.key
      requires node !in Repr && node.next == null && node.value.name == node.key
      modifies this, last
      ensures Valid() && Repr == old(Repr) + {node}
      ensures buckets == TableInsert(old(buckets), node.key, node.value.number)
    {
      var key, number := node.key, node.value.number;
      InsertPreservesWellFormed(buckets, key, number);
      InsertMissing(buckets[index], key, number);
      ghost var tail := |chains[index]| - 1;
      forall b, j | 0 <= b < size && 0 <= j < |chains[b]| && (b != index || j != tail)
        ensures chains[b][j] != last
      {
        assert owner[chains[b][j]] == (b, j);
      }
      last.next := node;
      owner, chains, buckets, Repr :=
        owner[node := (index, |chains[index]|)], chains[index := chains[index] + [node]],
        TableInsert(buckets, key, number), Repr + {node};
      forall b, j | 0 <= b < size && 0 <= j < |chains[b]|
        ensures chains[b][j] in Repr
        ensures chains[b][j] in owner && owner[chains[b][j]] == (b, j)
        ensures chains[b][j].key == chains[b][j].value.name
        ensures buckets[b][j] == chains[b][j].value
      {
        if b != index || j <= tail {
          assert chains[b][j] == old(chains)[b][j];
          assert buckets[b][j] == old(buckets)[b][j];
        }
      }
      forall b, j | 0 <= b < size && 0 <= j < |chains[b]|
        ensures chains[b][j].next == if j + 1 < |chains[b]| then chains[b][j + 1] else null
      {
        if b != index || j < tail {
          assert chains[b][j] == old(chains)[b][j];
        }
      }
    }

    /** Walk the chain of key's bucket: the contact stored under key, or
        None. */
    method Search(key: string) returns (r: Option<Record>)
      requires Valid()
      ensures r == TableSearch(buckets, key)
    {
      var index := Hash(key, size);
      var current := data[index];
      ghost var j := 0;
      while current != null
        invariant 0 <= j <= |chains[index]|
        invariant current == if j < |chains[index]| then chains[index][j] else null
        invariant forall i :: 0 <= i < j ==> buckets[index][i].name != key
        decreases |chains[index]| - j
      {
        if current.key == key {
          PositionAt(buckets[index], key, j);
          return Some(current.value);
        }
        current := current.next;
        j := j + 1;
      }
      return None;
    }
  }
}
