/** The open hash table (drm_hashtab.c:45-236). */
module HashTab {
  import opened Basics

  class Item {
    var key: nat
    constructor (key: nat)
      ensures this.key == key
    {
      this.key := key;
    }
  }

  predicate SortedKeys(xs: seq<Item>)
    reads xs
  {
    forall i, j :: 0 <= i < j < |xs| ==> xs[i].key < xs[j].key
  }

  /** `key` belongs behind the first `p` items. */
  predicate Splits(xs: seq<Item>, p: nat, key: nat)
    requires p <= |xs|
    reads xs
  {
    (forall j :: 0 <= j < p ==> xs[j].key < key) && (forall j :: p <= j < |xs| ==> xs[j].key > key)
  }

  /** Bucket b holds the items that hash to it and no others, strictly sorted by key. */
  ghost predicate Bucket(hash: nat -> nat, xs: seq<Item>, b: nat, items: set<Item>)
    reads items
  {
    && (forall x :: x in xs ==> x in items && hash(x.key) == b)
    && (forall x :: x in items && hash(x.key) == b ==> x in xs)
    && SortedKeys(xs)
  }

  lemma BucketInsert(hash: nat -> nat, xs: seq<Item>, b: nat, items: set<Item>, p: nat, item: Item)
    requires Bucket(hash, xs, b, items) && item !in items && p <= |xs|
    requires hash(item.key) == b ==> Splits(xs, p, item.key)
    ensures Bucket(hash, if hash(item.key) == b then xs[..p] + [item] + xs[p..] else xs, b, items + {item})
  {
    if hash(item.key) == b {
      var ys := xs[..p] + [item] + xs[p..];
      InsertMembers(xs, p, item);
      InsertSorted(xs, p, item);
      BucketWith(hash, xs, ys, b, items, item);
    }
  }

  lemma BucketWith(hash: nat -> nat, xs: seq<Item>, ys: seq<Item>, b: nat, items: set<Item>, item: Item)
    requires Bucket(hash, xs, b, items) && hash(item.key) == b && SortedKeys(ys)
    requires forall x :: x in ys <==> x == item || x in xs
    ensures Bucket(hash, ys, b, items + {item})
  {
  }

  lemma InsertMembers(xs: seq<Item>, p: nat, item: Item)
    requires p <= |xs|
    ensures forall x :: x in xs[..p] + [item] + xs[p..] <==> x == item || x in xs
  {
    assert xs == xs[..p] + xs[p..];
  }

  lemma InsertSorted(xs: seq<Item>, p: nat, item: Item)
    requires p <= |xs| && SortedKeys(xs) && Splits(xs, p, item.key)
    ensures SortedKeys(xs[..p] + [item] + xs[p..])
  {
  }

  lemma BucketRemove(hash: nat -> nat, xs: seq<Item>, b: nat, items: set<Item>, p: nat, item: Item)
    requires Bucket(hash, xs, b, items) && item in items && (hash(item.key) == b ==> p < |xs| && xs[p] == item)
    ensures Bucket(hash, if hash(item.key) == b then xs[..p] + xs[p + 1..] else xs, b, items - {item})
  {
    if hash(item.key) == b {
      RemoveMembers(xs, p);
    }
  }

  lemma RemoveMembers(xs: seq<Item>, p: nat)
    requires p < |xs| && SortedKeys(xs)
    ensures forall x :: x in xs[..p] + xs[p + 1..] <==> x in xs && x != xs[p]
    ensures SortedKeys(xs[..p] + xs[p + 1..])
  {
    assert xs == xs[..p] + [xs[p]] + xs[p + 1..];
  }

  /** struct drm_open_hash. Only the range of hash_long matters here. */
  class OpenHash {
    const hash: nat -> nat
    const table: array<seq<Item>>
    var fill: int
    ghost var items: set<Item>

    ghost predicate Valid()
      reads this, table, items
    {
      && (forall k :: hash(k) < table.Length)
      && (forall b: nat :: b < table.Length ==> Bucket(hash, table[b], b, items))
      && fill == |items|
    }

    ghost function Keys(): set<nat>
      reads this, items
    {
      set x | x in items :: x.key
    }

    /** No two items have the same key: the table stands for a finite map. */
    lemma KeysAreUnique(x: Item, y: Item)
      requires Valid() && x in items && y in items && x.key == y.key
      ensures x == y
    {
      var bucket := table[hash(x.key)];
      assert Bucket(hash, bucket, hash(x.key), items);
      var i :| 0 <= i < |bucket| && bucket[i] == x;
      var j :| 0 <= j < |bucket| && bucket[j] == y;
    }

    /** drm_ht_create with 2^order buckets, given that memory is found. */
    constructor (size: nat, hash: nat -> nat)
      requires forall k :: hash(k) < size
      ensures Valid() && items == {} && this.hash == hash && fresh(table) && table.Length == size
    {
      this.hash := hash;
      table := new seq<Item>[size](_ => []);
      fill := 0;
      items := {};
    }

    /** The walk along a bucket, up to the first key not below `key`. */
    method Walk(key: nat) returns (p: nat, found: bool)
      requires Valid()
      ensures p <= |table[hash(key)]| && (found <==> key in Keys())
      ensures found ==> p < |table[hash(key)]| && table[hash(key)][p].key == key
      ensures !found ==> Splits(table[hash(key)], p, key)
    {
      var bucket := table[hash(key)];
      p := 0;
      while p < |bucket| && bucket[p].key < key
        invariant p <= |bucket| && forall j :: 0 <= j < p ==> bucket[j].key < key
      {
        p := p + 1;
      }
      assert Bucket(hash, bucket, hash(key), items);
      if key in Keys() {
        var x :| x in items && x.key == key;
        var j :| 0 <= j < |bucket| && bucket[j] == x;
      } else if p < |bucket| {
        assert bucket[p] in bucket;
      }
      found := p < |bucket| && bucket[p].key == key;
      if found { assert bucket[p] in items; }
    }

    /** drm_ht_find_key and its RCU twin, when nothing runs beside them. */
    method FindKey(key: nat) returns (item: Item?)
      requires Valid()
      ensures item == null <==> key !in Keys()
      ensures item != null ==> item in items && item.key == key
    {
      var bucket := table[hash(key)];
      var p, found := Walk(key);
      item := null;
      if found {
        assert Bucket(hash, bucket, hash(key), items) && bucket[p] in bucket;
        item := bucket[p];
      }
    }

    /** drm_ht_insert_item: false, and no change, if the key is taken. */
    method InsertItem(item: Item) returns (ok: bool)
      requires Valid() && item !in items
      modifies this`fill, this`items, table
      ensures Valid() && ok == (old(item.key) !in old(Keys()))
      ensures items == old(items) + if ok then {item} else {}
    {
      var parent, found := Walk(item.key);
      ok := !found;
      if ok {
        Link(item, parent);
      }
    }

    /** hlist_add_after_rcu behind the item before `parent`, or hlist_add_head_rcu. */
    method Link(item: Item, parent: nat)
      requires Valid() && item !in items && parent <= |table[hash(item.key)]|
      requires Splits(table[hash(item.key)], parent, item.key)
      modifies this`fill, this`items, table
      ensures Valid() && items == old(items) + {item}
    {
      var h := hash(item.key);
      forall b: nat | b < table.Length
        ensures Bucket(hash, if b == h then table[h][..parent] + [item] + table[h][parent..] else table[b], b, items + {item})
      {
        BucketInsert(hash, table[b], b, items, if b == h then parent else 0, item);
      }
      table[h] := table[h][..parent] + [item] + table[h][parent..];
      fill := fill + 1;
      items := items + {item};
    }

    /** drm_ht_remove_key: false, and no change, if there is no such key. */
    method RemoveKey(key: nat) returns (ok: bool)
      requires Valid()
      modifies this`fill, this`items, table
      ensures Valid() && ok == (key in old(Keys()))
      ensures items == set x | x in old(items) && x.key != key
    {
      var item := FindKey(key);
      ok := item != null;
      if ok {
        forall x | x in items && x.key == key ensures x == item {
          KeysAreUnique(x, item);
        }
        RemoveItem(item);
      }
    }

    /** drm_ht_remove_item on an item of the table. */
    method RemoveItem(item: Item)
      requires Valid() && item in items
      modifies this`fill, this`items, table
      ensures Valid() && items == old(items) - {item}
    {
      var h := hash(item.key);
      assert Bucket(hash, table[h], h, items);
      var p :| 0 <= p < |table[h]| && table[h][p] == item;
      forall b: nat | b < table.Length
        ensures Bucket(hash, if b == h then table[h][..p] + table[h][p + 1..] else table[b], b, items - {item})
      {
        BucketRemove(hash, table[b], b, items, p, item);
      }
      table[h] := table[h][..p] + table[h][p + 1..];
      fill := fill - 1;
      items := items - {item};
    }

    /** One attempt of drm_ht_just_insert_please. */
    method TryKey(item: Item, key: nat) returns (ok: bool)
      requires Valid() && item !in items
      modifies this`fill, this`items, table, item
      ensures Valid() && item.key == key && ok == (key !in old(Keys()))
      ensures items == old(items) + if ok then {item} else {}
      ensures !ok ==> Keys() == old(Keys())
    {
      item.key := key;
      assert Valid() == old(Valid()) && Keys() == old(Keys());
      ok := InsertItem(item);
    }

    /** The loop of drm_ht_just_insert_please over `n` candidate keys, counting on
        from `first`; `d` counts the collisions. */
    method Probing(item: Item, first: nat, n: nat, shift: nat, add: nat) returns (ok: bool, ghost d: nat)
      requires Valid() && item !in items && first < n
      modifies this`fill, this`items, table, item
      ensures Valid() && items == old(items) + if ok then {item} else {}
      ensures AllTaken(first, d, n, shift, add, old(Keys()))
      ensures if ok then d < n && item.key == Nth(first, d, n, shift, add) && Nth(first, d, n, shift, add) !in old(Keys()) else d == n
    {
      var unshifted := first;
      d := 0;
      while true
        invariant 0 <= d < n && unshifted == Wrap(first + d, n)
        invariant Valid() && items == old(items) && Keys() == old(Keys())
        invariant AllTaken(first, d, n, shift, add, old(Keys()))
        decreases n - d
      {
        var key := Candidate(unshifted, shift, add);
        assert key == Nth(first, d, n, shift, add);
        ok := TryKey(item, key);
        if ok { return; }
        OneMore(first, d, n, shift, add, old(Keys()));
        unshifted := Wrap(unshifted + 1, n);
        d := d + 1;
        if unshifted == first { return; }
      }
    }

    /** drm_ht_just_insert_please: insert under the first candidate key that is not
        taken. It fails exactly when all 2^bits candidates are. `hashed` is
        hash_long(seed, bits). */
    method JustInsertPlease(item: Item, hashed: nat, bits: nat, shift: nat, add: nat) returns (ok: bool, ghost d: nat)
      requires Valid() && item !in items && hashed < Pow2(bits)
      modifies this`fill, this`items, table, item
      ensures Valid() && items == old(items) + if ok then {item} else {}
      ensures ok ==> d < Pow2(bits) && item.key == Nth(hashed, d, Pow2(bits), shift, add)
      ensures ok ==> Nth(hashed, d, Pow2(bits), shift, add) !in old(Keys()) && AllTaken(hashed, d, Pow2(bits), shift, add, old(Keys()))
      ensures !ok ==> forall u :: 0 <= u < Pow2(bits) ==> Candidate(u, shift, add) in old(Keys())
    {
      ok, d := Probing(item, hashed, Pow2(bits), shift, add);
      if !ok { AllRound(hashed, Pow2(bits), shift, add, old(Keys())); }
    }
  }

  /** The first `d` candidates, counting on from `first`, are taken. */
  ghost predicate AllTaken(first: nat, d: nat, n: nat, shift: nat, add: nat, taken: set<nat>) {
    forall e :: 0 <= e < d ==> Nth(first, e, n, shift, add) in taken
  }

  lemma OneMore(first: nat, d: nat, n: nat, shift: nat, add: nat, taken: set<nat>)
    requires AllTaken(first, d, n, shift, add, taken) && Nth(first, d, n, shift, add) in taken
    ensures AllTaken(first, d + 1, n, shift, add, taken)
  {
  }

  /** `n` candidates on, all have been tried. */
  lemma AllRound(first: nat, n: nat, shift: nat, add: nat, taken: set<nat>)
    requires first < n && AllTaken(first, n, n, shift, add, taken)
    ensures forall u :: 0 <= u < n ==> Candidate(u, shift, add) in taken
  {
    forall u | 0 <= u < n ensures Candidate(u, shift, add) in taken {
      var e := if u >= first then u - first else u + n - first;
      assert Nth(first, e, n, shift, add) == Candidate(u, shift, add);
    }
  }

  const ULONG: nat := 0x1_0000_0000_0000_0000

  /** (u << shift) + add on an unsigned long. */
  function Candidate(u: nat, shift: nat, add: nat): nat {
    (u * Pow2(shift) + add) % ULONG
  }

  /** x & (n - 1) for a power of two n and an x below 2n. */
  function Wrap(x: nat, n: nat): nat {
    if x < n then x else x - n
  }

  /** The key tried after `d` collisions, among `n` candidates. */
  function Nth(first: nat, d: nat, n: nat, shift: nat, add: nat): nat {
    Candidate(Wrap(first + d, n), shift, add)
  }
}
