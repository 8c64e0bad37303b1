/**
 A separate-chaining hash table from contact names to contacts.

 The table owns a fixed number of buckets; each bucket is a chain of nodes.
 A chain is modelled as a sequence: the head of the chain is its first
 element, and the `next` link of a node is the element that follows it.
 An empty sequence is an empty bucket.
 */
module HashTables {

  datatype Option<T> = None | Some(value: T)

  /** A contact: a name and a phone number, never changed once built. */
  datatype Contact = Contact(name: string, number: string) {

    /** The display form "<name>: <number>". */
    function ToString(): (s: string)
      ensures |s| == |name| + 2 + |number|
      ensures s[..|name|] == name
      ensures s[|name|..|name| + 2] == ": "
      ensures s[|name| + 2..] == number
    {
      name + ": " + number
    }
  }

  /** When names hold no colon, the display form determines the contact. */
  lemma ToStringInjective(c: Contact, d: Contact)
    requires ':' !in c.name && ':' !in d.name
    requires c.ToString() == d.ToString()
    ensures c == d
  {
    if |c.name| < |d.name| {
      ColonAfterName(c);
      assert false;
    } else if |d.name| < |c.name| {
      ColonAfterName(d);
      assert false;
    }
  }

  lemma ColonAfterName(c: Contact)
    ensures c.ToString()[|c.name|] == ':'
  {
  }

  /** One entry of a chain. Its successor is the next element of the chain. */
  datatype Node = Node(key: string, value: Contact)

  // ---------------------------------------------------------------------
  // Hashing

  /** The sum of the code points of the characters of `s`. */
  function SumCodes(s: string): nat
  {
    if s == [] then 0 else SumCodes(s[..|s| - 1]) + s[|s| - 1] as int
  }

  /** The bucket index of `key` in a table of `size` buckets. */
  function HashIndex(key: string, size: nat): (r: nat)
    requires size >= 1
    ensures r < size
    ensures key == [] ==> r == 0
  {
    SumCodes(key) % size
  }

  lemma {:induction false} SumCodesConcat(x: string, y: string)
    ensures SumCodes(x + y) == SumCodes(x) + SumCodes(y)
    decreases |y|
  {
    if y == [] {
      assert x + y == x;
    } else {
      var y' := y[..|y| - 1];
      assert (x + y)[..|x + y| - 1] == x + y';
      SumCodesConcat(x, y');
    }
  }

  /** The sum of codes depends only on the multiset of characters. */
  lemma {:induction false} SumCodesPermutation(a: string, b: string)
    requires multiset(a) == multiset(b)
    ensures SumCodes(a) == SumCodes(b)
    decreases |a|
  {
    if a == [] {
      assert |b| == |multiset(b)| == 0;
    } else {
      var c := a[|a| - 1];
      var a' := a[..|a| - 1];
      assert a == a' + [c];
      assert c in multiset(b);
      assert c in b;
      var p :| 0 <= p < |b| && b[p] == c;
      var b' := b[..p] + b[p + 1..];
      assert b == b[..p] + [c] + b[p + 1..];
      assert multiset(a) == multiset(a') + multiset{c};
      assert multiset(b) == multiset(b') + multiset{c};
      assert multiset(a') == multiset(a) - multiset{c} == multiset(b) - multiset{c} == multiset(b');
      SumCodesPermutation(a', b');
      SumCodesConcat(b[..p], [c]);
      SumCodesConcat(b[..p] + [c], b[p + 1..]);
      SumCodesConcat(b[..p], b[p + 1..]);
      assert SumCodes([c]) == c as int by {
        assert [c][..0] == [];
      }
    }
  }

  /** Keys made of the same characters (anagrams) fall into the same bucket. */
  lemma AnagramsCollide(a: string, b: string, size: nat)
    requires size >= 1
    requires multiset(a) == multiset(b)
    ensures HashIndex(a, size) == HashIndex(b, size)
  {
    SumCodesPermutation(a, b);
  }

  // ---------------------------------------------------------------------
  // Chains

  /** Walks a chain from its head and yields the value of the first node holding `key`. */
  function ChainFind(chain: seq<Node>, key: string): Option<Contact>
  {
    if chain == [] then None
    else if chain[0].key == key then Some(chain[0].value)
    else ChainFind(chain[1..], key)
  }

  /** The keys of a chain, head first. */
  function ChainKeys(chain: seq<Node>): (ks: seq<string>)
    ensures |ks| == |chain|
  {
    seq(|chain|, j requires 0 <= j < |chain| => chain[j].key)
  }

  predicate KeysUnique(chain: seq<Node>)
  {
    forall j, k :: 0 <= j < k < |chain| ==> chain[j].key != chain[k].key
  }

  predicate NoDuplicates(keys: seq<string>)
  {
    forall j, k :: 0 <= j < k < |keys| ==> keys[j] != keys[k]
  }

  /** The keys of `order` that hash to bucket `i`, in the order of `order`. */
  function InBucket(order: seq<string>, i: nat, size: nat): seq<string>
    requires size >= 1
  {
    if order == [] then []
    else
      var last := order[|order| - 1];
      InBucket(order[..|order| - 1], i, size) + (if HashIndex(last, size) == i then [last] else [])
  }

  function Get(m: map<string, Contact>, key: string): Option<Contact>
  {
    if key in m then Some(m[key]) else None
  }

  /** Search yields the first node for the key, and nothing when no node has it. */
  lemma {:induction false} ChainFindSpec(chain: seq<Node>, key: string)
    ensures ChainFind(chain, key).None? <==> forall j :: 0 <= j < |chain| ==> chain[j].key != key
    ensures ChainFind(chain, key).Some? ==>
              exists j :: 0 <= j < |chain| && chain[j] == Node(key, ChainFind(chain, key).value)
  {
    if chain != [] && chain[0].key != key {
      ChainFindSpec(chain[1..], key);
      if ChainFind(chain, key).Some? {
        var j :| 0 <= j < |chain[1..]| && chain[1..][j] == Node(key, ChainFind(chain, key).value);
        assert chain[j + 1] == chain[1..][j];
      } else {
        forall j | 0 <= j < |chain| ensures chain[j].key != key {
          if j > 0 { assert chain[j] == chain[1..][j - 1]; }
        }
      }
    }
  }

  /** The first node holding `key` decides what a walk of the chain finds. */
  lemma {:induction false} ChainFindFirst(chain: seq<Node>, key: string, j: nat)
    requires j < |chain| && chain[j].key == key
    requires forall i :: 0 <= i < j ==> chain[i].key != key
    ensures ChainFind(chain, key) == Some(chain[j].value)
  {
    if j > 0 {
      forall i | 0 <= i < j - 1 ensures chain[1..][i].key != key {
        assert chain[1..][i] == chain[i + 1];
      }
      ChainFindFirst(chain[1..], key, j - 1);
    }
  }

  /** Appending a node at the tail changes what is found only for a key not found before. */
  lemma {:induction false} ChainFindAppend(chain: seq<Node>, n: Node, key: string)
    ensures ChainFind(chain + [n], key) ==
              if ChainFind(chain, key).Some? then ChainFind(chain, key)
              else if n.key == key then Some(n.value)
              else None
  {
    if chain == [] {
      assert chain + [n] == [n];
      assert [n][1..] == [];
    } else {
      assert (chain + [n])[1..] == chain[1..] + [n];
      ChainFindAppend(chain[1..], n, key);
    }
  }

  /** Overwriting a node's value, keeping its key, leaves every other key's search unchanged. */
  lemma {:induction false} ChainFindReplace(chain: seq<Node>, j: nat, n: Node, key: string)
    requires j < |chain| && chain[j].key == n.key && key != n.key
    ensures ChainFind(chain[j := n], key) == ChainFind(chain, key)
  {
    if j > 0 {
      assert chain[j := n][1..] == chain[1..][j - 1 := n];
      ChainFindReplace(chain[1..], j - 1, n, key);
    }
  }

  lemma InBucketAppend(order: seq<string>, key: string, i: nat, size: nat)
    requires size >= 1
    ensures InBucket(order + [key], i, size) ==
              InBucket(order, i, size) + (if HashIndex(key, size) == i then [key] else [])
  {
    assert (order + [key])[..|order|] == order;
  }

  // ---------------------------------------------------------------------
  // The table invariant, stated over the bucket contents as values

  /** Every node of bucket i has a key that hashes to i. */
  ghost predicate BucketsHashed(buckets: seq<seq<Node>>, size: nat)
    requires size >= 1
  {
    forall i, j :: 0 <= i < |buckets| && 0 <= j < |buckets[i]| ==> HashIndex(buckets[i][j].key, size) == i
  }

  /** No chain holds a key twice, and each chain lists its keys in the order they were first inserted. */
  ghost predicate ChainsFollowOrder(buckets: seq<seq<Node>>, size: nat, order: seq<string>)
    requires size >= 1
  {
    && NoDuplicates(order)
    && forall i :: 0 <= i < |buckets| ==> KeysUnique(buckets[i]) && ChainKeys(buckets[i]) == InBucket(order, i, size)
  }

  /** Walking the chain of a key's bucket finds exactly the contact `contents` holds for it. */
  ghost predicate Represents(buckets: seq<seq<Node>>, size: nat, contents: map<string, Contact>)
    requires size >= 1 && |buckets| == size
  {
    forall k :: ChainFind(buckets[HashIndex(k, size)], k) == Get(contents, k)
  }

  /**
   `buckets` is a consistent table of `size` buckets representing `contents`,
   whose keys were first inserted in the sequence `order`.
   */
  ghost predicate TableInv(buckets: seq<seq<Node>>, size: nat, contents: map<string, Contact>, order: seq<string>)
  {
    && size >= 1
    && |buckets| == size
    && BucketsHashed(buckets, size)
    && ChainsFollowOrder(buckets, size, order)
    && (forall k :: k in contents <==> k in order)
    && Represents(buckets, size, contents)
  }

  /** The empty table: every bucket empty, nothing stored. */
  lemma EmptyTableInv(size: nat)
    requires size >= 1
    ensures TableInv(seq(size, _ => []), size, map[], [])
  {
    var b: seq<seq<Node>> := seq(size, _ => []);
    forall i | 0 <= i < size ensures ChainKeys(b[i]) == InBucket([], i, size) {
      assert ChainKeys(b[i]) == [];
    }
  }

  lemma AppendKeepsHashed(buckets: seq<seq<Node>>, size: nat, key: string, value: Contact)
    requires size >= 1 && |buckets| == size
    requires BucketsHashed(buckets, size)
    ensures var h := HashIndex(key, size);
            BucketsHashed(buckets[h := buckets[h] + [Node(key, value)]], size)
  {
    var h := HashIndex(key, size);
    var b: seq<seq<Node>> := buckets[h := buckets[h] + [Node(key, value)]];
    forall i, j | 0 <= i < |b| && 0 <= j < |b[i]| ensures HashIndex(b[i][j].key, size) == i {
      if i == h && j == |buckets[h]| { assert b[i][j] == Node(key, value); }
    }
  }

  lemma {:induction false} AppendKeepsOrder(buckets: seq<seq<Node>>, size: nat, order: seq<string>,
                                            key: string, value: Contact)
    requires size >= 1 && |buckets| == size
    requires ChainsFollowOrder(buckets, size, order)
    requires key !in order
    ensures var h := HashIndex(key, size);
            ChainsFollowOrder(buckets[h := buckets[h] + [Node(key, value)]], size, order + [key])
  {
    var h := HashIndex(key, size);
    var chain := buckets[h];
    var b: seq<seq<Node>> := buckets[h := chain + [Node(key, value)]];
    var o := order + [key];
    forall i | 0 <= i < |b| ensures KeysUnique(b[i]) && ChainKeys(b[i]) == InBucket(o, i, size) {
      InBucketAppend(order, key, i, size);
      if i == h {
        assert ChainKeys(b[i]) == ChainKeys(chain) + [key];
        forall j | 0 <= j < |chain| ensures chain[j].key != key {
          assert chain[j].key == ChainKeys(chain)[j];
          InBucketSubset(order, i, size, j);
        }
      }
    }
    assert NoDuplicates(o);
  }

  /** Every key listed for a bucket comes from `order`. */
  lemma {:induction false} InBucketSubset(order: seq<string>, i: nat, size: nat, j: nat)
    requires size >= 1 && j < |InBucket(order, i, size)|
    ensures InBucket(order, i, size)[j] in order
  {
    if order != [] {
      var init := order[..|order| - 1];
      if j < |InBucket(init, i, size)| {
        InBucketSubset(init, i, size, j);
        assert InBucket(init, i, size)[j] in init;
      }
    }
  }

  lemma AppendKeepsRepresents(buckets: seq<seq<Node>>, size: nat, contents: map<string, Contact>,
                              key: string, value: Contact)
    requires size >= 1 && |buckets| == size
    requires Represents(buckets, size, contents)
    requires ChainFind(buckets[HashIndex(key, size)], key) == None
    ensures var h := HashIndex(key, size);
            Represents(buckets[h := buckets[h] + [Node(key, value)]], size, contents[key := value])
  {
    var h := HashIndex(key, size);
    var b: seq<seq<Node>> := buckets[h := buckets[h] + [Node(key, value)]];
    forall k ensures ChainFind(b[HashIndex(k, size)], k) == Get(contents[key := value], k) {
      if HashIndex(k, size) == h {
        ChainFindAppend(buckets[h], Node(key, value), k);
      }
    }
  }

  /** Appending a new key at the tail of its bucket's chain keeps the invariant. */
  lemma AppendKeepsInv(buckets: seq<seq<Node>>, size: nat, contents: map<string, Contact>,
                       order: seq<string>, key: string, value: Contact)
    requires TableInv(buckets, size, contents, order)
    requires ChainFind(buckets[HashIndex(key, size)], key) == None
    ensures key !in contents
    ensures var h := HashIndex(key, size);
            TableInv(buckets[h := buckets[h] + [Node(key, value)]], size, contents[key := value], order + [key])
  {
    assert Get(contents, key) == None;
    AppendKeepsHashed(buckets, size, key, value);
    AppendKeepsOrder(buckets, size, order, key, value);
    AppendKeepsRepresents(buckets, size, contents, key, value);
  }

  lemma ReplaceKeepsShape(buckets: seq<seq<Node>>, size: nat, order: seq<string>, h: nat, j: nat, n: Node)
    requires size >= 1 && |buckets| == size && h < size
    requires j < |buckets[h]| && buckets[h][j].key == n.key
    requires BucketsHashed(buckets, size) && ChainsFollowOrder(buckets, size, order)
    ensures var b := buckets[h := buckets[h][j := n]];
            BucketsHashed(b, size) && ChainsFollowOrder(b, size, order)
  {
    var chain := buckets[h];
    var b: seq<seq<Node>> := buckets[h := chain[j := n]];
    assert ChainKeys(b[h]) == ChainKeys(chain);
    forall i, m | 0 <= i < |b| && 0 <= m < |b[i]| ensures HashIndex(b[i][m].key, size) == i {
      if i == h { assert b[i][m].key == chain[m].key; }
    }
    forall i | 0 <= i < |b| ensures KeysUnique(b[i]) {
      if i == h {
        forall p, q | 0 <= p < q < |b[i]| ensures b[i][p].key != b[i][q].key {
          assert b[i][p].key == chain[p].key && b[i][q].key == chain[q].key;
        }
      }
    }
  }

  lemma ReplaceKeepsRepresents(buckets: seq<seq<Node>>, size: nat, contents: map<string, Contact>,
                               key: string, value: Contact, j: nat)
    requires size >= 1 && |buckets| == size
    requires Represents(buckets, size, contents)
    requires KeysUnique(buckets[HashIndex(key, size)])
    requires j < |buckets[HashIndex(key, size)]| && buckets[HashIndex(key, size)][j].key == key
    ensures key in contents
    ensures var h := HashIndex(key, size);
            Represents(buckets[h := buckets[h][j := Node(key, value)]], size, contents[key := value])
  {
    var h := HashIndex(key, size);
    var chain := buckets[h];
    var n := Node(key, value);
    var b: seq<seq<Node>> := buckets[h := chain[j := n]];
    ChainFindFirst(chain, key, j);
    assert Get(contents, key).Some?;
    forall k ensures ChainFind(b[HashIndex(k, size)], k) == Get(contents[key := value], k) {
      if HashIndex(k, size) == h {
        if k == key {
          ChainFindFirst(b[h], key, j);
        } else {
          ChainFindReplace(chain, j, n, k);
        }
      }
    }
  }

  /** Overwriting the value of the node at position j of the key's chain keeps the invariant. */
  lemma ReplaceKeepsInv(buckets: seq<seq<Node>>, size: nat, contents: map<string, Contact>,
                        order: seq<string>, key: string, value: Contact, j: nat)
    requires TableInv(buckets, size, contents, order)
    requires j < |buckets[HashIndex(key, size)]| && buckets[HashIndex(key, size)][j].key == key
    ensures key in contents
    ensures var h := HashIndex(key, size);
            TableInv(buckets[h := buckets[h][j := Node(key, value)]], size, contents[key := value], order)
  {
    ReplaceKeepsShape(buckets, size, order, HashIndex(key, size), j, Node(key, value));
    ReplaceKeepsRepresents(buckets, size, contents, key, value, j);
  }

  // ---------------------------------------------------------------------
  // The table

  class HashTable {
    /** Number of buckets, fixed at construction. */
    const size: nat
    /** The buckets; each holds the chain of nodes whose keys hash to it. */
    const data: array<seq<Node>>

    /** The key-to-contact map the table represents. */
    ghost var contents: map<string, Contact>
    /** Every stored key, in the order it was first inserted. */
    ghost var order: seq<string>

    ghost predicate Valid()
      reads this, data
    {
      data.Length == size && TableInv(data[..], size, contents, order)
    }

    /** A table of `size` empty buckets. */
    constructor (size: nat)
      requires size >= 1
      ensures Valid() && fresh(data)
      ensures this.size == size
      ensures contents == map[] && order == []
      ensures forall i :: 0 <= i < size ==> data[i] == []
    {
      this.size := size;
      data := new seq<Node>[size](_ => []);
      contents := map[];
      order := [];
      new;
      assert data[..] == seq(size, _ => []);
      EmptyTableInv(size);
    }

    /** Sums the code points of `key` and reduces the sum modulo the table size. */
    method HashFunction(key: string) returns (h: nat)
      requires Valid()
      ensures h == SumCodes(key) % size
      ensures h < size
    {
      var total := 0;
      for i := 0 to |key|
        invariant total == SumCodes(key[..i])
      {
        assert key[..i + 1][..i] == key[..i];
        total := total + key[i] as int;
      }
      assert key[..|key|] == key;
      h := total % size;
    }

    /**
     Stores `value` under `key`. Walks the key's chain: a node already holding
     the key gets the new value; otherwise a new node becomes the head of an
     empty bucket or is linked after the last node.
     */
    method Insert(key: string, value: Contact)
      requires Valid()
      modifies this, data
      ensures Valid()
      ensures contents == old(contents)[key := value]
      ensures order == if key in old(contents) then old(order) else old(order) + [key]
      ensures var h := HashIndex(key, size);
              && (forall i :: 0 <= i < size && i != h ==> data[i] == old(data[i]))
              && (key in old(contents) ==>
                    && |data[h]| == |old(data[h])|
                    && forall j :: 0 <= j < |data[h]| ==>
                         data[h][j] == if old(data[h][j]).key == key then Node(key, value) else old(data[h][j]))
              && (key !in old(contents) ==> data[h] == old(data[h]) + [Node(key, value)])
    {
      var index := HashFunction(key);
      var current := data[index];
      ghost var buckets := data[..];

      if current == [] {
        data[index] := [Node(key, value)];
        AppendKeepsInv(buckets, size, contents, order, key, value);
        assert [] + [Node(key, value)] == [Node(key, value)];
        assert data[..] == buckets[index := current + [Node(key, value)]];
        contents := contents[key := value];
        order := order + [key];
        return;
      }

      var i := 0;
      while i < |current|
        invariant i < |current|
        invariant forall j :: 0 <= j < i ==> current[j].key != key
        decreases |current| - i
      {
        if current[i].key == key {
          data[index] := current[i := Node(key, value)];
          ReplaceKeepsInv(buckets, size, contents, order, key, value, i);
          assert data[..] == buckets[index := current[i := Node(key, value)]];
          contents := contents[key := value];
          return;
        }
        if i + 1 == |current| {
          break;
        }
        i := i + 1;
      }

      data[index] := current + [Node(key, value)];
      ChainFindSpec(current, key);
      AppendKeepsInv(buckets, size, contents, order, key, value);
      assert data[..] == buckets[index := current + [Node(key, value)]];
      contents := contents[key := value];
      order := order + [key];
    }

    /** Walks the key's chain and yields the value of the first node holding the key, if any. */
    method Search(key: string) returns (r: Option<Contact>)
      requires Valid()
      ensures r == Get(contents, key)
      ensures var h := HashIndex(key, size);
              && (r.None? <==> forall j :: 0 <= j < |data[h]| ==> data[h][j].key != key)
              && (r.Some? ==> exists j :: 0 <= j < |data[h]| && data[h][j] == Node(key, r.value))
    {
      var index := HashFunction(key);
      var current := data[index];
      assert current == data[..][HashIndex(key, size)];

      var i := 0;
      while i < |current|
        invariant i <= |current|
        invariant forall j :: 0 <= j < i ==> current[j].key != key
        invariant ChainFind(current[i..], key) == ChainFind(current, key)
      {
        if current[i].key == key {
          r := Some(current[i].value);
          return;
        }
        assert current[i..][1..] == current[i + 1..];
        i := i + 1;
      }
      r := None;
    }
  }
}
