/** drm_map_handle (drm_bufs.c:87-133): the user handle of a map, found in the map hash. */
module MapHandle {
  import opened Arith
  import opened Basics
  import opened HashTab

  /** DRM_MAP_HASH_OFFSET >> PAGE_SHIFT */
  const OFFSET: nat := 0x10000
  const PAGE: nat := 4096
  /** 32 - PAGE_SHIFT - 3 */
  const KEY_BITS: nat := 17

  /** The low `bits` bits of the page number of the token. */
  function Color(token: nat, bits: nat): nat {
    (token / PAGE) % Pow2(bits)
  }

  /** The hashed handles there are for a token. */
  function MapKey(u: nat, token: nat, lba: nat): nat {
    Candidate(u, lba, OFFSET + Color(token, lba))
  }

  /** The page number itself is tried first. */
  predicate Plain(token: nat, hashedHandle: bool) {
    token < 0x1_0000_0000 && !hashedHandle
  }

  /** The hashed handle that comes d after the one `hashed` gives. */
  function After(hashed: nat, d: nat, token: nat, lba: nat): nat {
    MapKey((hashed + d) % Pow2(KEY_BITS), token, lba)
  }

  /** The first hashed handle that is not taken, counting on from `hashed`. */
  ghost predicate FirstFree(key: nat, hashed: nat, token: nat, lba: nat, taken: set<nat>) {
    exists d: nat :: d < Pow2(KEY_BITS) && key == After(hashed, d, token, lba) && key !in taken
      && forall e: nat :: e < d ==> After(hashed, e, token, lba) in taken
  }

  /** All hashed handles for this token are taken. */
  ghost predicate NoneLeft(token: nat, lba: nat, taken: set<nat>) {
    forall u: nat :: u < Pow2(KEY_BITS) ==> MapKey(u, token, lba) in taken
  }

  /** `hashed` is hash_long(token, 17). `lba` is 0, or, for shared memory where
      SHMLBA exceeds a page, the number of page-number bits SHMLBA covers, plus
      one; 16 allows for an SHMLBA of up to 2^27 bytes. False when no key is left. */
  method Handle(ht: OpenHash, item: Item, token: nat, hashedHandle: bool, lba: nat, hashed: nat) returns (ok: bool)
    requires ht.Valid() && item !in ht.items && hashed < Pow2(KEY_BITS) && lba <= 16
    modifies ht`fill, ht`items, ht.table, item
    ensures ht.Valid() && ht.items == old(ht.items) + if ok then {item} else {}
    ensures !ok <==> !(Plain(token, hashedHandle) && token / PAGE !in old(ht.Keys())) && NoneLeft(token, lba, old(ht.Keys()))
    ensures Plain(token, hashedHandle) && token / PAGE !in old(ht.Keys()) ==> item.key == token / PAGE
    ensures ok && !(Plain(token, hashedHandle) && token / PAGE !in old(ht.Keys())) ==>
      FirstFree(item.key, hashed, token, lba, old(ht.Keys()))
    ensures ok ==> item.key % Pow2(lba) == Color(token, lba)
  {
    if !(token >= 0x1_0000_0000 || hashedHandle) {
      ok := ht.TryKey(item, token / PAGE);
      if ok { return; }
    }
    ghost var d;
    ok, d := ht.JustInsertPlease(item, hashed, KEY_BITS, lba, OFFSET + Color(token, lba));
    ghost var taken := old(ht.Keys());
    if ok {
      IsFirstFree(hashed, d, token, lba, taken);
      ColorKept((hashed + d) % Pow2(KEY_BITS), token, lba);
    } else {
      assert forall u: nat :: MapKey(u, token, lba) == Candidate(u, lba, OFFSET + Color(token, lba));
    }
  }

  lemma IsAfter(hashed: nat, d: nat, token: nat, lba: nat)
    requires hashed < Pow2(KEY_BITS) && d < Pow2(KEY_BITS)
    ensures Nth(hashed, d, Pow2(KEY_BITS), lba, OFFSET + Color(token, lba)) == After(hashed, d, token, lba)
  {
    var n := Pow2(KEY_BITS);
    assert (hashed + d) % n == Wrap(hashed + d, n) by {
      if hashed + d >= n { DivModUnique(hashed + d, 1, n, hashed + d - n); } else { DivModUnique(hashed + d, 0, n, hashed + d); }
    }
  }

  lemma IsFirstFree(hashed: nat, d: nat, token: nat, lba: nat, taken: set<nat>)
    requires hashed < Pow2(KEY_BITS) && d < Pow2(KEY_BITS)
    requires AllTaken(hashed, d, Pow2(KEY_BITS), lba, OFFSET + Color(token, lba), taken)
    requires Nth(hashed, d, Pow2(KEY_BITS), lba, OFFSET + Color(token, lba)) !in taken
    ensures Nth(hashed, d, Pow2(KEY_BITS), lba, OFFSET + Color(token, lba)) == After(hashed, d, token, lba)
    ensures FirstFree(After(hashed, d, token, lba), hashed, token, lba, taken)
  {
    IsAfter(hashed, d, token, lba);
    forall e: nat | e < d ensures After(hashed, e, token, lba) in taken { IsAfter(hashed, e, token, lba); }
  }

  lemma PowSplit(a: nat, b: nat)
    ensures Pow2(a + b) == Pow2(a) * Pow2(b)
  {
    if a > 0 {
      PowSplit(a - 1, b);
      assert Pow2(a + b) == 2 * Pow2(a - 1 + b);
      assert 2 * (Pow2(a - 1) * Pow2(b)) == (2 * Pow2(a - 1)) * Pow2(b);
    }
  }

  /** A candidate key keeps the bits that matter for cache aliasing. */
  lemma ColorKept(u: nat, token: nat, lba: nat)
    requires lba <= 16 && u < Pow2(KEY_BITS)
    ensures MapKey(u, token, lba) % Pow2(lba) == Color(token, lba)
  {
    PowSplit(16 - lba, lba);
    Powers();
    ColorSum(u, Pow2(lba), Pow2(16 - lba), Color(token, lba));
  }

  lemma ColorSum(u: nat, p: nat, q: nat, x: nat)
    requires q > 0 && q * p == OFFSET && u < 0x20000 && x < p
    ensures ((u * p + OFFSET + x) % ULONG) % p == x
  {
    assert p <= OFFSET by { MulOrder(0, q, p); assert q * p == (q - 1) * p + p; assert (q - 1) * p >= 0; }
    assert u * p <= 0x20000 * 0x10000 by { Bound(u, 0x20000, p, OFFSET); }
    assert (u + q) * p == u * p + q * p;
    DivModUnique(u * p + OFFSET + x, u + q, p, x);
  }

  lemma Bound(a: nat, a': nat, b: nat, b': nat)
    requires a <= a' && b <= b'
    ensures a * b <= a' * b'
  {
    assert a' * b' == a * b + a * (b' - b) + (a' - a) * b';
  }

  lemma Powers()
    ensures Pow2(16) == 0x10000 && Pow2(17) == 0x20000
  {
    PowSplit(8, 8);
    PowSplit(4, 4);
    PowSplit(2, 2);
    PowSplit(1, 16);
    assert Pow2(2) == 4 && Pow2(1) == 2;
  }
}
