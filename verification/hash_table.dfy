/** `CustomHashTable` (NavigateX.cpp:842-990): separate chaining over a
    vector of singly linked chains, new nodes pushed at the head of their
    chain, capacity doubled once the load factor reaches 0.75.

    The string hash is a parameter `h`.  A key lives in bucket
    `h(key) % capacity`, which is all the table relies on. */
module HashTable {
  import opened Common

  datatype Entry = Entry(key: string, value: int)

  /** `buckets[i]` is chain `i`, head first; `|buckets|` is `capacity`. */
  datatype Table = Table(buckets: seq<seq<Entry>>, size: nat)

  /** `hashFunction(key)`: the hash reduced modulo the capacity. */
  function Index(h: string -> nat, key: string, capacity: nat): (b: nat)
    requires capacity > 0
    ensures b < capacity
  {
    h(key) % capacity
  }

  /** `getAllEntries` (NavigateX.cpp:962-972): the chains one after another,
      each from head to tail. */
  function Flatten(bs: seq<seq<Entry>>): seq<Entry>
  {
    if |bs| == 0 then [] else Flatten(bs[..|bs| - 1]) + bs[|bs| - 1]
  }

  /** Every node of chain `c` hashes to bucket `i`. */
  ghost predicate ChainPlaced(c: seq<Entry>, h: string -> nat, capacity: nat, i: nat)
    requires capacity > 0
  {
    forall j :: 0 <= j < |c| ==> Index(h, c[j].key, capacity) == i
  }

  /** Every entry sits in the bucket its key hashes to. */
  ghost predicate Placed(bs: seq<seq<Entry>>, h: string -> nat)
  {
    |bs| > 0 && forall i :: 0 <= i < |bs| ==> ChainPlaced(bs[i], h, |bs|, i)
  }

  /** No key occurs twice in `c`. */
  ghost predicate KeysDistinct(c: seq<Entry>)
  {
    forall j, k :: 0 <= j < k < |c| ==> c[j].key != c[k].key
  }

  ghost predicate ChainsDistinct(bs: seq<seq<Entry>>)
  {
    forall i :: 0 <= i < |bs| ==> KeysDistinct(bs[i])
  }

  /** The class invariant: placement, unique keys, and `size` counting the
      nodes. */
  ghost predicate Valid(t: Table, h: string -> nat)
  {
    Placed(t.buckets, h) && ChainsDistinct(t.buckets) && t.size == |Flatten(t.buckets)|
  }

  /** `n` empty chains. */
  function EmptyChains(n: nat): (r: seq<seq<Entry>>)
    ensures |r| == n && forall i :: 0 <= i < n ==> r[i] == []
  {
    if n == 0 then [] else EmptyChains(n - 1) + [[]]
  }

  lemma {:induction false} FlattenEmpty(n: nat)
    ensures Flatten(EmptyChains(n)) == []
  {
    if n > 0 {
      assert EmptyChains(n)[..n - 1] == EmptyChains(n - 1);
      FlattenEmpty(n - 1);
    }
  }

  /** The constructor (NavigateX.cpp:885-887); the default capacity is 16. */
  function New(capacity: nat): (t: Table)
    requires capacity > 0
    ensures |t.buckets| == capacity && t.size == 0
    ensures forall h: string -> nat :: Valid(t, h)
  {
    FlattenEmpty(capacity);
    Table(EmptyChains(capacity), 0)
  }

  // ---------------------------------------------------------------------
  // Facts about Flatten
  // ---------------------------------------------------------------------

  /** An entry is listed iff some chain holds it. */
  lemma {:induction false} FlattenMember(bs: seq<seq<Entry>>, e: Entry)
    ensures e in Flatten(bs) <==> exists i :: 0 <= i < |bs| && e in bs[i]
  {
    if |bs| > 0 {
      var n := |bs| - 1;
      FlattenMember(bs[..n], e);
      if e in Flatten(bs[..n]) {
        var i :| 0 <= i < n && e in bs[..n][i];
        assert e in bs[i];
      }
      if exists i :: 0 <= i < |bs| && e in bs[i] {
        var i :| 0 <= i < |bs| && e in bs[i];
        if i < n {
          assert e in bs[..n][i];
        }
      }
    }
  }

  /** Replacing chain `b` by `c` changes the listing exactly as the chain
      changed: what `c` gains (`y`) and loses (`x`) against the old chain. */
  lemma {:induction false} FlattenReplace(bs: seq<seq<Entry>>, b: nat, c: seq<Entry>,
                                          x: multiset<Entry>, y: multiset<Entry>)
    requires b < |bs| && multiset(c) + x == multiset(bs[b]) + y
    ensures multiset(Flatten(bs[b := c])) + x == multiset(Flatten(bs)) + y
  {
    var n := |bs| - 1;
    assert Flatten(bs[b := c]) == Flatten(bs[b := c][..n]) + bs[b := c][n];
    assert Flatten(bs) == Flatten(bs[..n]) + bs[n];
    if b < n {
      assert bs[b := c][..n] == bs[..n][b := c];
      FlattenReplace(bs[..n], b, c, x, y);
      AddBoth(multiset(Flatten(bs[..n][b := c])), multiset(Flatten(bs[..n])), multiset(bs[n]), x, y);
    } else {
      assert bs[b := c][..n] == bs[..n];
      AddBoth(multiset(c), multiset(bs[n]), multiset(Flatten(bs[..n])), x, y);
    }
  }

  /** Adding the same entries to both sides of a balance keeps it. */
  lemma AddBoth(a: multiset<Entry>, o: multiset<Entry>, n: multiset<Entry>, x: multiset<Entry>, y: multiset<Entry>)
    requires a + x == o + y
    ensures (a + n) + x == (o + n) + y
    ensures (n + a) + x == (n + o) + y
  {
    forall z
      ensures ((a + n) + x)[z] == ((o + n) + y)[z]
      ensures ((n + a) + x)[z] == ((n + o) + y)[z]
    {
      assert (a + x)[z] == (o + y)[z];
    }
  }

  lemma FlattenPrefix(bs: seq<seq<Entry>>, i: nat)
    requires i < |bs|
    ensures Flatten(bs[..i + 1]) == Flatten(bs[..i]) + bs[i]
  {
    assert bs[..i + 1][..i] == bs[..i];
  }

  // ---------------------------------------------------------------------
  // search (NavigateX.cpp:920-932)
  // ---------------------------------------------------------------------

  /** The chain walk: the position of the first node holding `key`. */
  function Lookup(chain: seq<Entry>, key: string): (r: Option<nat>)
    ensures r.Some? ==> r.value < |chain| && chain[r.value].key == key
    ensures r.Some? ==> forall j :: 0 <= j < r.value ==> chain[j].key != key
    ensures r.None? ==> forall j :: 0 <= j < |chain| ==> chain[j].key != key
  {
    if |chain| == 0 then None
    else if chain[0].key == key then Some(0)
    else
      match Lookup(chain[1..], key)
      case Some(j) => Some(j + 1)
      case None => None
  }

  /** `search(key)`: the value in the first node of the key's chain that
      holds `key`; `None` is the null pointer. */
  function Search(t: Table, h: string -> nat, key: string): Option<int>
    requires |t.buckets| > 0
  {
    var c := t.buckets[Index(h, key, |t.buckets|)];
    match Lookup(c, key)
    case Some(j) => Some(c[j].value)
    case None => None
  }

  /** In a valid table `search` answers exactly what the stored entries say. */
  lemma SearchIff(t: Table, h: string -> nat, key: string, v: int)
    requires Valid(t, h)
    ensures Search(t, h, key) == Some(v) <==> Entry(key, v) in Flatten(t.buckets)
  {
    var bs := t.buckets;
    var b := Index(h, key, |bs|);
    FlattenMember(bs, Entry(key, v));
    if Entry(key, v) in Flatten(bs) {
      var i :| 0 <= i < |bs| && Entry(key, v) in bs[i];
      var j :| 0 <= j < |bs[i]| && bs[i][j] == Entry(key, v);
      assert i == b;
      var r := Lookup(bs[b], key);
      assert r.Some? && r.value == j;
    }
  }

  /** Two valid tables holding the same entries for `key` answer alike. */
  lemma SameEntriesSameSearch(t: Table, u: Table, h: string -> nat, key: string)
    requires Valid(t, h) && Valid(u, h)
    requires forall v :: Entry(key, v) in Flatten(t.buckets) <==> Entry(key, v) in Flatten(u.buckets)
    ensures Search(t, h, key) == Search(u, h, key)
  {
    if Search(t, h, key).Some? {
      SearchIff(t, h, key, Search(t, h, key).value);
      SearchIff(u, h, key, Search(t, h, key).value);
    } else if Search(u, h, key).Some? {
      SearchIff(u, h, key, Search(u, h, key).value);
      SearchIff(t, h, key, Search(u, h, key).value);
    }
  }

  /** Two valid tables listing the same entries answer every search alike,
      whatever their capacities. */
  lemma SameListingSameSearch(t: Table, u: Table, h: string -> nat)
    requires Valid(t, h) && Valid(u, h)
    requires multiset(Flatten(t.buckets)) == multiset(Flatten(u.buckets))
    ensures forall k :: Search(t, h, k) == Search(u, h, k)
  {
    forall k
      ensures Search(t, h, k) == Search(u, h, k)
    {
      forall v
        ensures Entry(k, v) in Flatten(t.buckets) <==> Entry(k, v) in Flatten(u.buckets)
      {
        assert Entry(k, v) in Flatten(t.buckets) <==> Entry(k, v) in multiset(Flatten(t.buckets));
        assert Entry(k, v) in Flatten(u.buckets) <==> Entry(k, v) in multiset(Flatten(u.buckets));
      }
      SameEntriesSameSearch(t, u, h, k);
    }
  }

  /** `getAllEntries` lists exactly what `search` finds, one pair per stored
      key, `size` of them. */
  lemma EntriesSpec(t: Table, h: string -> nat)
    requires Valid(t, h)
    ensures forall e :: e in Flatten(t.buckets) <==> Search(t, h, e.key) == Some(e.value)
    ensures |Flatten(t.buckets)| == t.size
  {
    forall e
      ensures e in Flatten(t.buckets) <==> Search(t, h, e.key) == Some(e.value)
    {
      SearchIff(t, h, e.key, e.value);
    }
  }

  // ---------------------------------------------------------------------
  // rehash (NavigateX.cpp:865-882)
  // ---------------------------------------------------------------------

  /** Keys are unique across the whole table: chains are distinct inside and
      placement keeps different chains apart. */
  lemma KeyFresh(bs: seq<seq<Entry>>, h: string -> nat, i: nat, j: nat, x: Entry)
    requires Placed(bs, h) && ChainsDistinct(bs)
    requires i < |bs| && j < |bs[i]|
    requires x in multiset(Flatten(bs[..i])) + multiset(bs[i][..j])
    ensures x.key != bs[i][j].key
  {
    if x in Flatten(bs[..i]) {
      FlattenMember(bs[..i], x);
      var i' :| 0 <= i' < i && x in bs[..i][i'];
      var j' :| 0 <= j' < |bs[i']| && bs[i'][j'] == x;
      assert Index(h, x.key, |bs|) == i';
    } else {
      assert x in bs[i][..j];
      var j' :| 0 <= j' < j && bs[i][j'] == x;
    }
  }

  /** Replacing one chain by a chain that belongs there keeps the
      placement and uniqueness of the others. */
  lemma ChainReplaced(bs: seq<seq<Entry>>, h: string -> nat, b: nat, c: seq<Entry>)
    requires Placed(bs, h) && ChainsDistinct(bs)
    requires b < |bs| && ChainPlaced(c, h, |bs|, b) && KeysDistinct(c)
    ensures Placed(bs[b := c], h) && ChainsDistinct(bs[b := c])
  {
  }

  /** The table with `e` pushed on the head of its chain, as `insert` and
      `rehash` link a node in. */
  function Push(bs: seq<seq<Entry>>, h: string -> nat, e: Entry): (r: seq<seq<Entry>>)
    requires |bs| > 0
    ensures |r| == |bs|
  {
    var b := Index(h, e.key, |bs|);
    bs[b := [e] + bs[b]]
  }

  /** Pushing an entry whose key is nowhere in the table keeps placement
      and uniqueness, and adds exactly that entry. */
  lemma PushKeeps(bs: seq<seq<Entry>>, h: string -> nat, e: Entry)
    requires Placed(bs, h) && ChainsDistinct(bs)
    requires forall x :: x in Flatten(bs) ==> x.key != e.key
    ensures Placed(Push(bs, h, e), h) && ChainsDistinct(Push(bs, h, e))
    ensures multiset(Flatten(Push(bs, h, e))) == multiset(Flatten(bs)) + multiset{e}
  {
    var b := Index(h, e.key, |bs|);
    var c := [e] + bs[b];
    forall k | 0 < k < |c|
      ensures c[k].key != e.key
    {
      assert c[k] == bs[b][k - 1];
      FlattenMember(bs, c[k]);
    }
    assert KeysDistinct(c) by {
      assert KeysDistinct(bs[b]);
      forall j, k | 0 <= j < k < |c|
        ensures c[j].key != c[k].key
      {
        if j > 0 {
          assert c[j] == bs[b][j - 1] && c[k] == bs[b][k - 1];
        }
      }
    }
    assert ChainPlaced(c, h, |bs|, b) by {
      assert ChainPlaced(bs[b], h, |bs|, b);
      forall k | 0 < k < |c|
        ensures Index(h, c[k].key, |bs|) == b
      {
        assert c[k] == bs[b][k - 1];
      }
    }
    ChainReplaced(bs, h, b, c);
    assert multiset(c) + multiset{} == multiset(bs[b]) + multiset{e};
    FlattenReplace(bs, b, c, multiset{}, multiset{e});
  }

  /** One step of the inner loop of `rehash`: move node `j` of old chain `i`
      onto the head of its new chain. */
  lemma MoveStep(bs: seq<seq<Entry>>, into: seq<seq<Entry>>, h: string -> nat, i: nat, j: nat)
    requires Placed(bs, h) && ChainsDistinct(bs)
    requires i < |bs| && j < |bs[i]|
    requires Placed(into, h) && ChainsDistinct(into)
    requires multiset(Flatten(into)) == multiset(Flatten(bs[..i])) + multiset(bs[i][..j])
    ensures Placed(Push(into, h, bs[i][j]), h) && ChainsDistinct(Push(into, h, bs[i][j]))
    ensures multiset(Flatten(Push(into, h, bs[i][j]))) == multiset(Flatten(bs[..i])) + multiset(bs[i][..j + 1])
  {
    var e := bs[i][j];
    forall x | x in Flatten(into)
      ensures x.key != e.key
    {
      assert x in multiset(Flatten(into));
      KeyFresh(bs, h, i, j, x);
    }
    PushKeeps(into, h, e);
    assert bs[i][..j + 1] == bs[i][..j] + [e];
    var p := multiset(Flatten(bs[..i]));
    var q := multiset(bs[i][..j]);
    forall z
      ensures (p + q + multiset{e})[z] == (p + (q + multiset{e}))[z]
    {
    }
  }

  /** The inner loop of `rehash`: walk old chain `i` from head to tail,
      moving each node onto the head of its chain in `into`. */
  method MoveChain(bs: seq<seq<Entry>>, into: seq<seq<Entry>>, h: string -> nat, i: nat)
    returns (out: seq<seq<Entry>>)
    requires Placed(bs, h) && ChainsDistinct(bs) && i < |bs|
    requires Placed(into, h) && ChainsDistinct(into)
    requires multiset(Flatten(into)) == multiset(Flatten(bs[..i]))
    ensures |out| == |into| && Placed(out, h) && ChainsDistinct(out)
    ensures multiset(Flatten(out)) == multiset(Flatten(bs[..i + 1]))
  {
    out := into;
    var node := 0;
    assert multiset(bs[i][..0]) == multiset{};
    while node < |bs[i]|
      invariant 0 <= node <= |bs[i]|
      invariant |out| == |into| && Placed(out, h) && ChainsDistinct(out)
      invariant multiset(Flatten(out)) == multiset(Flatten(bs[..i])) + multiset(bs[i][..node])
    {
      MoveStep(bs, out, h, i, node);
      out := Push(out, h, bs[i][node]);
      node := node + 1;
    }
    assert bs[i][..node] == bs[i];
    FlattenPrefix(bs, i);
  }

  /** `rehash`: double the capacity and move every node, chain by chain and
      head to tail, onto the head of its chain in the new vector. */
  method Rehash(t: Table, h: string -> nat) returns (r: Table)
    requires Valid(t, h)
    ensures Valid(r, h)
    ensures |r.buckets| == 2 * |t.buckets| && r.size == t.size
    ensures multiset(Flatten(r.buckets)) == multiset(Flatten(t.buckets))
    ensures forall k :: Search(r, h, k) == Search(t, h, k)
  {
    var bs := t.buckets;
    var into := EmptyChains(2 * |bs|);
    FlattenEmpty(2 * |bs|);
    var i := 0;
    while i < |bs|
      invariant 0 <= i <= |bs|
      invariant |into| == 2 * |bs| && Placed(into, h) && ChainsDistinct(into)
      invariant multiset(Flatten(into)) == multiset(Flatten(bs[..i]))
    {
      into := MoveChain(bs, into, h, i);
      i := i + 1;
    }
    assert bs[..i] == bs;
    r := Table(into, t.size);
    assert |Flatten(into)| == |multiset(Flatten(into))| == |multiset(Flatten(bs))| == t.size;
    SameListingSameSearch(r, t, h);
  }

  // ---------------------------------------------------------------------
  // insert (NavigateX.cpp:900-918)
  // ---------------------------------------------------------------------

  /** The load-factor test `size / capacity >= 0.75`, in integers. */
  predicate AtThreshold(t: Table)
  {
    4 * t.size >= 3 * |t.buckets|
  }

  /** The size never runs more than one entry past three quarters of the
      capacity. */
  predicate LoadBounded(t: Table)
  {
    4 * t.size < 3 * |t.buckets| + 4
  }

  /** The overwrite branch: `*existing = value` on the node `search` found. */
  function Overwrite(t: Table, h: string -> nat, key: string, value: int): Table
    requires |t.buckets| > 0
    requires Lookup(t.buckets[Index(h, key, |t.buckets|)], key).Some?
  {
    var b := Index(h, key, |t.buckets|);
    var c := t.buckets[b];
    Table(t.buckets[b := c[Lookup(c, key).value := Entry(key, value)]], t.size)
  }

  /** The new-key branch after any rehash: a node pushed on its chain's head. */
  function Add(t: Table, h: string -> nat, key: string, value: int): Table
    requires |t.buckets| > 0
  {
    Table(Push(t.buckets, h, Entry(key, value)), t.size + 1)
  }

  /** Overwriting keeps the table valid, stores `value` for `key` and
      leaves every other key alone. */
  lemma OverwriteSpec(t: Table, h: string -> nat, key: string, value: int)
    requires Valid(t, h) && Search(t, h, key).Some?
    ensures Valid(Overwrite(t, h, key, value), h)
    ensures Search(Overwrite(t, h, key, value), h, key) == Some(value)
    ensures forall k :: k != key ==> Search(Overwrite(t, h, key, value), h, k) == Search(t, h, k)
    ensures |Overwrite(t, h, key, value).buckets| == |t.buckets|
  {
    var r := Overwrite(t, h, key, value);
    var b := Index(h, key, |t.buckets|);
    var c := t.buckets[b];
    var j := Lookup(c, key).value;
    var e := Entry(key, value);
    OverwriteKeeps(t.buckets, h, b, j, e);
    OverwriteListing(t.buckets, b, j, e);
    assert |Flatten(r.buckets)| + 1 == |Flatten(t.buckets)| + 1 by {
      assert |multiset(Flatten(r.buckets)) + multiset{c[j]}| == |multiset(Flatten(t.buckets)) + multiset{e}|;
    }
    LookupAt(c[j := e], key, j);
    forall k | k != key
      ensures Search(r, h, k) == Search(t, h, k)
    {
      forall v
        ensures Entry(k, v) in Flatten(r.buckets) <==> Entry(k, v) in Flatten(t.buckets)
      {
        SameMembers(Flatten(r.buckets), Flatten(t.buckets), multiset{c[j]}, multiset{e}, Entry(k, v));
      }
      SameEntriesSameSearch(r, t, h, k);
    }
  }

  /** Adding an absent key keeps the table valid, stores `value` for it and
      leaves every other key alone. */
  lemma AddSpec(t: Table, h: string -> nat, key: string, value: int)
    requires Valid(t, h) && Search(t, h, key).None?
    ensures Valid(Add(t, h, key, value), h)
    ensures Search(Add(t, h, key, value), h, key) == Some(value)
    ensures forall k :: k != key ==> Search(Add(t, h, key, value), h, k) == Search(t, h, k)
  {
    var r := Add(t, h, key, value);
    var e := Entry(key, value);
    forall x | x in Flatten(t.buckets)
      ensures x.key != key
    {
      SearchIff(t, h, x.key, x.value);
    }
    PushKeeps(t.buckets, h, e);
    assert |Flatten(r.buckets)| == |multiset(Flatten(r.buckets))|;
    assert Lookup(r.buckets[Index(h, key, |t.buckets|)], key) == Some(0);
    forall k | k != key
      ensures Search(r, h, k) == Search(t, h, k)
    {
      forall v
        ensures Entry(k, v) in Flatten(r.buckets) <==> Entry(k, v) in Flatten(t.buckets)
      {
        SameMembers(Flatten(r.buckets), Flatten(t.buckets), multiset{}, multiset{e}, Entry(k, v));
      }
      SameEntriesSameSearch(r, t, h, k);
    }
  }

  /** `insert`: an existing key has its value overwritten in place (no
      rehash, no new node, `false`); a new key first triggers a rehash when
      the load factor has reached 0.75 and is then pushed on the head of its
      chain (`true`). */
  method Insert(t: Table, h: string -> nat, key: string, value: int) returns (r: Table, added: bool)
    requires Valid(t, h)
    ensures Valid(r, h)
    ensures added <==> Search(t, h, key).None?
    ensures Search(r, h, key) == Some(value)
    ensures forall k :: k != key ==> Search(r, h, k) == Search(t, h, k)
    ensures r.size == if added then t.size + 1 else t.size
    ensures |r.buckets| == if added && AtThreshold(t) then 2 * |t.buckets| else |t.buckets|
    ensures LoadBounded(t) ==> LoadBounded(r)
  {
    var existing := Search(t, h, key);
    if existing.Some? {
      r := Overwrite(t, h, key, value);
      added := false;
      OverwriteSpec(t, h, key, value);
    } else {
      var t1 := t;
      if AtThreshold(t) {
        t1 := Rehash(t, h);
      }
      r := Add(t1, h, key, value);
      added := true;
      AddSpec(t1, h, key, value);
    }
  }

  /** Listings that differ only by `d1` and `d2` agree on everything else. */
  lemma SameMembers(a: seq<Entry>, b: seq<Entry>, d1: multiset<Entry>, d2: multiset<Entry>, x: Entry)
    requires multiset(a) + d1 == multiset(b) + d2
    requires x !in d1 && x !in d2
    ensures x in a <==> x in b
  {
    assert multiset(a)[x] == (multiset(a) + d1)[x] == (multiset(b) + d2)[x] == multiset(b)[x];
  }

  /** Chain `c` without its node `j`. */
  function Without(c: seq<Entry>, j: nat): (r: seq<Entry>)
    requires j < |c|
    ensures |r| == |c| - 1
    ensures forall m :: 0 <= m < |r| ==> r[m] == if m < j then c[m] else c[m + 1]
  {
    c[..j] + c[j + 1..]
  }

  /** Unlinking node `j` of chain `b` keeps placement and uniqueness and
      takes exactly that node out of the listing. */
  lemma UnlinkKeeps(bs: seq<seq<Entry>>, h: string -> nat, b: nat, j: nat)
    requires Placed(bs, h) && ChainsDistinct(bs)
    requires b < |bs| && j < |bs[b]|
    ensures Placed(bs[b := Without(bs[b], j)], h) && ChainsDistinct(bs[b := Without(bs[b], j)])
    ensures multiset(Flatten(bs[b := Without(bs[b], j)])) + multiset{bs[b][j]} == multiset(Flatten(bs))
    ensures forall m :: 0 <= m < |Without(bs[b], j)| ==> Without(bs[b], j)[m].key != bs[b][j].key
  {
    var c := bs[b];
    var c' := Without(c, j);
    assert KeysDistinct(c) && ChainPlaced(c, h, |bs|, b);
    assert KeysDistinct(c') by {
      forall m, n | 0 <= m < n < |c'|
        ensures c'[m].key != c'[n].key
      {
        var m0 := if m < j then m else m + 1;
        var n0 := if n < j then n else n + 1;
        assert c'[m] == c[m0] && c'[n] == c[n0];
      }
    }
    assert ChainPlaced(c', h, |bs|, b) by {
      forall m | 0 <= m < |c'|
        ensures Index(h, c'[m].key, |bs|) == b
      {
        var m0 := if m < j then m else m + 1;
        assert c'[m] == c[m0];
      }
    }
    forall m | 0 <= m < |c'|
      ensures c'[m].key != c[j].key
    {
      var m0 := if m < j then m else m + 1;
      assert c'[m] == c[m0];
    }
    ChainReplaced(bs, h, b, c');
    assert c == c[..j] + [c[j]] + c[j + 1..];
    assert multiset(c') + multiset{c[j]} == multiset(c) + multiset{};
    FlattenReplace(bs, b, c', multiset{c[j]}, multiset{});
  }

  /** Overwriting the value of a node keeps placement and uniqueness. */
  lemma OverwriteKeeps(bs: seq<seq<Entry>>, h: string -> nat, b: nat, j: nat, e: Entry)
    requires Placed(bs, h) && ChainsDistinct(bs)
    requires b < |bs| && j < |bs[b]| && bs[b][j].key == e.key
    ensures Placed(bs[b := bs[b][j := e]], h) && ChainsDistinct(bs[b := bs[b][j := e]])
  {
    var c := bs[b];
    assert KeysDistinct(c) && ChainPlaced(c, h, |bs|, b);
    ChainReplaced(bs, h, b, c[j := e]);
  }

  /** Overwriting the value of a node swaps exactly that one entry in the
      listing. */
  lemma OverwriteListing(bs: seq<seq<Entry>>, b: nat, j: nat, e: Entry)
    requires b < |bs| && j < |bs[b]|
    ensures multiset(Flatten(bs[b := bs[b][j := e]])) + multiset{bs[b][j]}
      == multiset(Flatten(bs)) + multiset{e}
  {
    var c := bs[b];
    assert multiset(c[j := e]) + multiset{c[j]} == multiset(c) + multiset{e} by {
      assert c == c[..j] + [c[j]] + c[j + 1..];
      assert c[j := e] == c[..j] + [e] + c[j + 1..];
    }
    FlattenReplace(bs, b, c[j := e], multiset{c[j]}, multiset{e});
  }

  /** A key at `j` with no earlier match is what the chain walk finds. */
  lemma LookupAt(chain: seq<Entry>, key: string, j: nat)
    requires j < |chain| && chain[j].key == key
    requires forall m :: 0 <= m < j ==> chain[m].key != key
    ensures Lookup(chain, key) == Some(j)
  {
  }

  // ---------------------------------------------------------------------
  // remove (NavigateX.cpp:934-955)
  // ---------------------------------------------------------------------

  /** Unlink the first node of the key's chain holding `key`. */
  function Remove(t: Table, h: string -> nat, key: string): (res: (Table, bool))
    requires Valid(t, h)
  {
    var b := Index(h, key, |t.buckets|);
    var c := t.buckets[b];
    match Lookup(c, key)
    case None => (t, false)
    case Some(j) =>
      assert c[j] in Flatten(t.buckets) by { FlattenMember(t.buckets, c[j]); }
      (Table(t.buckets[b := Without(c, j)], t.size - 1), true)
  }

  /** `remove` returns false and changes nothing for an absent key; otherwise
      it drops exactly that key and one from the size. */
  lemma RemoveSpec(t: Table, h: string -> nat, key: string)
    requires Valid(t, h)
    ensures Remove(t, h, key).1 <==> Search(t, h, key).Some?
    ensures !Remove(t, h, key).1 ==> Remove(t, h, key).0 == t
    ensures Valid(Remove(t, h, key).0, h)
    ensures Search(Remove(t, h, key).0, h, key).None?
    ensures forall k :: k != key ==> Search(Remove(t, h, key).0, h, k) == Search(t, h, k)
    ensures Remove(t, h, key).0.size == if Remove(t, h, key).1 then t.size - 1 else t.size
  {
    var (r, removed) := Remove(t, h, key);
    var b := Index(h, key, |t.buckets|);
    var c := t.buckets[b];
    if removed {
      var j := Lookup(c, key).value;
      UnlinkKeeps(t.buckets, h, b, j);
      assert |Flatten(r.buckets)| + 1 == |multiset(Flatten(t.buckets))|;
      forall k | k != key
        ensures Search(r, h, k) == Search(t, h, k)
      {
        forall v
          ensures Entry(k, v) in Flatten(r.buckets) <==> Entry(k, v) in Flatten(t.buckets)
        {
          SameMembers(Flatten(r.buckets), Flatten(t.buckets), multiset{c[j]}, multiset{}, Entry(k, v));
        }
        SameEntriesSameSearch(r, t, h, k);
      }
    }
  }
}
