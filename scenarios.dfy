/**
 Callers of the contact table that use only the contracts of its operations.
 */
module Scenarios {
  import opened HashTables

  /** Whatever the table held before, a search right after an insert yields the inserted contact. */
  method WriteThenRead(t: HashTable, key: string, value: Contact) returns (r: Option<Contact>)
    requires t.Valid()
    modifies t, t.data
    ensures t.Valid()
    ensures r == Some(value)
  {
    t.Insert(key, value);
    r := t.Search(key);
  }

  /**
   Inserting one key twice leaves exactly one node for it in its chain, and
   a search yields the value written last.
   */
  method LastWriteWins(t: HashTable, key: string, first: Contact, second: Contact) returns (r: Option<Contact>)
    requires t.Valid()
    modifies t, t.data
    ensures t.Valid()
    ensures r == Some(second)
    ensures var h := HashIndex(key, t.size);
            |set j | 0 <= j < |t.data[h]| && t.data[h][j].key == key| == 1
  {
    t.Insert(key, first);
    t.Insert(key, second);
    r := t.Search(key);
    var h := HashIndex(key, t.size);
    var j :| 0 <= j < |t.data[h]| && t.data[h][j] == Node(key, second);
    assert KeysUnique(t.data[..][h]);
    OccursOnce(t.data[h], key, j);
  }

  /** Two keys in one bucket stay independently searchable. */
  method CollidingKeysBothFound(t: HashTable, a: string, b: string, ca: Contact, cb: Contact)
    returns (ra: Option<Contact>, rb: Option<Contact>)
    requires t.Valid()
    requires a != b && HashIndex(a, t.size) == HashIndex(b, t.size)
    modifies t, t.data
    ensures t.Valid()
    ensures ra == Some(ca) && rb == Some(cb)
  {
    t.Insert(a, ca);
    t.Insert(b, cb);
    ra := t.Search(a);
    rb := t.Search(b);
  }

  /** A chain without repeated keys holds a key it contains exactly once. */
  lemma OccursOnce(chain: seq<Node>, key: string, j: nat)
    requires KeysUnique(chain) && j < |chain| && chain[j].key == key
    ensures |set i | 0 <= i < |chain| && chain[i].key == key| == 1
  {
    assert (set i | 0 <= i < |chain| && chain[i].key == key) == {j};
  }

  method JohnAndRebecca()
  {
    var john := Contact("John", "909-876-1234");
    assert john.ToString() == "John: 909-876-1234";
    var t := new HashTable(10);
    t.Insert("John", john);
    t.Insert("Rebecca", Contact("Rebecca", "111-555-0002"));
    var r := t.Search("John");
    assert r.value.ToString() == "John: 909-876-1234";
    var q := t.Search("Chris");
    assert q == None;
  }

  method RebeccaUpdated()
  {
    var rebecca := Contact("Rebecca", "999-444-9999");
    assert rebecca.ToString() == "Rebecca: 999-444-9999";
    var t := new HashTable(10);
    t.Insert("Rebecca", Contact("Rebecca", "111-555-0002"));
    t.Insert("Rebecca", rebecca);
    var r := t.Search("Rebecca");
    assert r.value.ToString() == "Rebecca: 999-444-9999";
    var h := HashIndex("Rebecca", 10);
    assert ChainKeys(t.data[h]) == InBucket(["Rebecca"], h, 10) == ["Rebecca"];
    assert |t.data[h]| == 1;
  }

  /** "Amy" and "May" differ as character multisets (the case of A and M), but their code sums agree. */
  method AmyAndMay()
  {
    var amy, may := Contact("Amy", "111-222-3333"), Contact("May", "222-333-1111");
    assert amy.ToString() == "Amy: 111-222-3333";
    assert may.ToString() == "May: 222-333-1111";
    assert "Amy"[..2] == "Am" && "Am"[..1] == "A" && "A"[..0] == "";
    assert "May"[..2] == "Ma" && "Ma"[..1] == "M" && "M"[..0] == "";
    assert SumCodes("Amy") == 295 == SumCodes("May");
    var t := new HashTable(10);
    assert HashIndex("Amy", 10) == HashIndex("May", 10);
    var ra, rm := CollidingKeysBothFound(t, "Amy", "May", amy, may);
    assert ra.value.ToString() == "Amy: 111-222-3333";
    assert rm.value.ToString() == "May: 222-333-1111";
  }
}
