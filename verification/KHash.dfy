/** khash's open-addressing table (inc/khash.h, __KHASH_IMPL): flags, keys and vals are arrays that
    probe and kick-out loops change in place. */
module KHash {
  import opened Context
  import opened Probe
  import opened Bits
  import opened RoundUp
  import opened TableModel
  import opened TableState

  const MAX_BUCKETS := 0x8000_0000

  /** Which of kh_resize's allocations succeed. */
  datatype Alloc = Alloc(flags: bool, keys: bool, vals: bool) {
    predicate AllSucceed() {
      flags && keys && vals
    }
  }

  const NO_FAILURE := Alloc(true, true, true)

  /** krealloc of an array that must hold n elements: the common prefix is kept. */
  method Realloc<T(0)>(a: array<T>, n: nat) returns (b: array<T>)
    ensures fresh(b) && b.Length == n
    ensures forall i :: 0 <= i < n && i < a.Length ==> b[i] == a[i]
  {
    b := new T[n];
    var common := if n < a.Length then n else a.Length;
    for i := 0 to common
      invariant forall j :: 0 <= j < i ==> b[j] == a[j]
    {
      b[i] := a[i];
    }
  }

  /** What kh_put asks kh_resize for; size << 1 is a 32-bit shift. */
  function PutRequest(n: nat, size: nat): nat {
    if n > 2 * size % TWO_TO_THE_32 then n - 1 else n + 1
  }

  lemma RequestCases(n: nat, size: nat)
    requires 4 <= n <= MAX_BUCKETS && size <= n
    ensures 2 * size < n || size == MAX_BUCKETS ==> PutRequest(n, size) == n - 1
    ensures n <= 2 * size && size < MAX_BUCKETS ==> PutRequest(n, size) == n + 1
  {
    if size == MAX_BUCKETS {
      DivModUnique(2 * size, 1, 0, TWO_TO_THE_32);
    } else {
      DivModUnique(2 * size, 0, 2 * size, TWO_TO_THE_32);
    }
  }

  /** The size of a table of n buckets after kh_put has rebuilt it. */
  function RebuiltSize(n: nat, size: nat): nat {
    if n > 2 * size then n else if n == 0 then 4 else 2 * n
  }

  /** A rebuild pays off: the table never shrinks, doubles only when it then has at most 4 buckets for a
      key, and afterwards takes new keys for a quarter of its buckets before the next one. */
  lemma RebuildPaysOff(n: nat, size: nat)
    requires n == 0 || (IsPow2(n) && n >= 4)
    requires size <= n
    ensures var r := RebuiltSize(n, size);
            n <= r && (0 < n < r ==> r <= 4 * size) && 4 * (UpperBound(r) - size) >= r
  {
    UpperBoundIsNearest(RebuiltSize(n, size));
    if n > 0 {
      assert n % 2 == 0 && IsPow2(n / 2) && (n / 2) % 2 == 0 && IsPow2(n / 4);
      assert n < 16 ==> n == 4 || n == 8;
    }
  }

  /** The size r that the request is rounded to leaves room for another key except in a table of 2 to the
      31 buckets at least half of which are keys: there kh_resize is asked for 4 buckets, or for the same
      number when size << 1 has wrapped to 0, and finds either too small to act on. */
  lemma RequestRounds(n: nat, size: nat, r: nat)
    requires n == 0 || (IsPow2(n) && 4 <= n <= MAX_BUCKETS)
    requires size <= n && RoundsTo(PutRequest(n, size), r)
    ensures size < UpperBound(r) <==> n > 2 * size || n < MAX_BUCKETS
    ensures size < UpperBound(r) ==> r == RebuiltSize(n, size)
  {
    if n > 0 {
      RequestCases(n, size);
      ResizeLeavesRoom(n, size);
      if PutRequest(n, size) == n - 1 {
        ShrinkRounds(n, r);
      } else {
        GrowRounds(n, r);
      }
    }
  }

  lemma StoredTwice<K, V>(m: map<K, V>, key: K, v: V, w: V)
    ensures m[key := v][key := w] == m[key := w]
  {
  }

  /** The one case in which kh_put goes wrong: the key is new and there are as many keys as khash can have
      buckets. */
  ghost predicate Overfull<K, V>(m: map<K, V>, key: K) {
    |m| == MAX_BUCKETS && key !in m
  }

  /** What kh_put makes of the map m when no allocation fails: its code, the key its bucket holds and the
      new map, in which a new key has whatever value its bucket held. In the overfull case it reports the
      bucket of another key. */
  ghost predicate PutResult<K, V>(m: map<K, V>, key: K, ret: int, held: K, val: V, m': map<K, V>) {
    if Overfull(m, key) then ret == 0 && held != key && m' == m
    else held == key && if key in m then ret == 0 && m' == m else (ret == 1 || ret == 2) && m' == m[key := val]
  }

  /** A new key goes into the bucket IsSlot describes, in the table as it was unless that was rebuilt; the
      code is 2 exactly for a deleted bucket, and a rebuilt table has none. */
  ghost predicate SlotUsed(before: seq<Lane>, kept: bool, h: nat, x: nat, ret: int) {
    if ret > 0 && kept then IsSlot(before, h, x) && (ret == 2 <==> before[x] == Deleted) else ret != 2
  }

  /** And with the store of the value that callers follow it with, when an allocation may have failed: the
      map gets the key, except that in the overfull case another key loses its value. */
  ghost predicate StoreResult<K, V>(m: map<K, V>, key: K, val: V, ret: int, mayFail: bool, m': map<K, V>) {
    if Overfull(m, key) then ret == 0 && exists k :: k in m && k != key && m' == m[k := val]
    else if ret == -1 then mayFail && m' == m
    else m' == m[key := val] && if key in m then ret == 0 else ret == 1 || ret == 2
  }

  class Table<K(==,0,!new), V(0)> {
    const hash: K -> nat

    var nBuckets: nat
    var size: nat
    var nOccupied: nat
    var upperBound: nat
    var flags: array<bv32>
    var keys: array<K>
    var vals: array<V>

    /** What the flags say, one lane per bucket, and the bucket of every key in the table. */
    ghost var layout: Layout<K>

    /** The finite map the table stands for. */
    ghost var contents: map<K, V>

    ghost predicate Shape()
      reads `keys, `vals, `flags, `layout, `nBuckets
    {
      && keys as object != vals as object && keys as object != flags as object && vals as object != flags as object
      && |layout.lanes| == nBuckets <= keys.Length && nBuckets <= vals.Length
      && (nBuckets > 0 ==> IsPow2(nBuckets) && 4 <= nBuckets <= MAX_BUCKETS)
    }

    /** The flags pack the layout, and the layout stands for the contents, with nOccupied buckets live or
        deleted. */
    ghost predicate Valid()
      reads this, flags, keys, vals
    {
      && Shape() && Packs(flags[..], layout.lanes)
      && size == |contents| && upperBound == (if nBuckets == 0 then 0 else UpperBound(nBuckets))
      && Stands(hash, layout, keys[..], vals[..], contents, nOccupied)
    }

    /** The load bound holds. */
    ghost predicate WithinBound()
      reads `nOccupied, `upperBound
    {
      nOccupied <= upperBound
    }

    ghost function Arrays(): set<object>
      reads `flags, `keys, `vals
    {
      {flags as object, keys as object, vals as object}
    }

    /** Each array is the one it was or a new one. */
    twostate predicate ArraysRenewed()
      reads `flags, `keys, `vals
    {
      (fresh(flags) || flags == old(flags)) && (fresh(keys) || keys == old(keys)) && (fresh(vals) || vals == old(vals))
    }

    /** kh_init: calloc of the header; null pointers are empty arrays. */
    constructor (hash: K -> nat)
      ensures Valid() && WithinBound() && fresh(Arrays()) && this.hash == hash
      ensures contents == map[] && nBuckets == 0
    {
      this.hash := hash;
      nBuckets, size, nOccupied, upperBound := 0, 0, 0, 0;
      flags, keys, vals := new bv32[0], new K[0], new V[0];
      layout, contents := AllEmpty(0), map[];
      new;
      StandsEmpty(hash, 0, keys[..], vals[..]);
    }

    /** kh_clear */
    method Clear()
      requires Valid()
      modifies this, flags
      ensures Valid() && WithinBound() && Arrays() == old(Arrays()) && nBuckets == old(nBuckets)
      ensures contents == map[]
    {
      if nBuckets != 0 {
        MarkAllEmpty(flags, nBuckets);
        size, nOccupied := 0, 0;
      } else {
        StandsCounts(hash, layout, keys[..], vals[..], contents, nOccupied);
        assert layout.lanes == EmptyLanes(0);
      }
      StandsEmpty(hash, nBuckets, keys[..], vals[..]);
      layout, contents := AllEmpty(nBuckets), map[];
    }

    /** kh_get: the bucket of the key, or nBuckets when the key is absent. */
    method Get(key: K) returns (x: nat)
      requires Valid()
      ensures if key in contents then x < nBuckets && layout.lanes[x] == Live && keys[x] == key &&
              vals[x] == contents[key]
              else x == nBuckets
    {
      StandsKey(hash, layout, keys[..], vals[..], contents, nOccupied, key);
      if nBuckets == 0 {
        return 0;
      }
      var step := 0;
      var i := hash(key) % nBuckets;
      var last := i;
      while !IsEmpty(flags[..], i) && (IsDel(flags[..], i) || keys[i] != key)
        invariant step < Lap(nBuckets)
        invariant i == Bucket(hash(key), step, nBuckets)
        invariant Searched(layout.lanes, keys[..], hash(key), key, step)
        decreases Lap(nBuckets) - step
      {
        ReadersAgree(flags[..], layout.lanes, i);
        SearchedStep(layout.lanes, keys[..], hash(key), key, step);
        step := step + 1;
        i := Next(i, step, nBuckets);
        ProbeReturnsHome(hash(key), step, nBuckets);
        if i == last {
          StandsNotMissed(hash, layout, keys[..], vals[..], contents, nOccupied, key, step);
          return nBuckets;
        }
      }
      ReadersAgree(flags[..], layout.lanes, i);
      StandsBucket(hash, layout, keys[..], vals[..], contents, nOccupied, i);
      if IsEither(flags[..], i) {
        StandsNotMissed(hash, layout, keys[..], vals[..], contents, nOccupied, key, step);
        return nBuckets;
      }
      return i;
    }

    // ----- kh_resize -----

    ghost predicate Separate(newFlags: array<bv32>)
      reads `flags, `keys, `vals
    {
      newFlags != flags && newFlags as object != keys as object && newFlags as object != vals as object
    }

    /** What rehashing into newFlags, whose lanes are those of dst, relies on and keeps. */
    ghost predicate Moving(newFlags: array<bv32>, newN: nat, dst: Layout<K>, hand: map<K, V>)
      reads this, flags, newFlags, keys, vals
    {
      && Shape() && Separate(newFlags) && Packs(flags[..], layout.lanes) && Packs(newFlags[..], dst.lanes)
      && |dst.lanes| == newN && IsPow2(newN) && 4 <= newN <= MAX_BUCKETS && |contents| < UpperBound(newN)
      && Moves(hash, keys[..], vals[..], layout, dst, hand, contents)
    }

    /** Lines 277-292: place the pair in hand, kicking out a pair of the old layout whenever the
        bucket is still live there. Each kick takes one bucket out of the old layout. */
    method KickOut(newFlags: array<bv32>, newN: nat, key0: K, val0: V, ghost dst0: Layout<K>)
      returns (ghost dst: Layout<K>)
      requires Moving(newFlags, newN, dst0, map[key0 := val0])
      modifies this`layout, flags, newFlags, keys, vals
      ensures Moving(newFlags, newN, dst, map[])
      ensures StaysDead(old(layout.lanes), layout.lanes)
    {
      var key, val, done := key0, val0, false;
      dst := dst0;
      while !done
        invariant Moving(newFlags, newN, dst, if done then map[] else map[key := val])
        invariant StaysDead(old(layout.lanes), layout.lanes)
        decreases !done, |layout.loc|
      {
        key, val, done, dst := KickStep(newFlags, newN, key, val, dst);
      }
    }

    /** One round of the kick-out loop; done tells whether it left the loop. */
    method KickStep(newFlags: array<bv32>, newN: nat, key0: K, val0: V, ghost dst0: Layout<K>)
      returns (key: K, val: V, done: bool, ghost dst: Layout<K>)
      requires Moving(newFlags, newN, dst0, map[key0 := val0])
      modifies this`layout, flags, newFlags, keys, vals
      ensures Moving(newFlags, newN, dst, if done then map[] else map[key := val])
      ensures StaysDead(old(layout.lanes), layout.lanes)
      ensures !done ==> |layout.loc| < |old(layout.loc)|
    {
      ghost var s := MovesRoom(hash, keys[..], vals[..], layout, dst0, map[key0 := val0], contents, hash(key0));
      var i := FindEmpty(newFlags, newN, hash(key0), dst0.lanes, s);
      ghost var src, hand := MovesRound(hash, keys[..], vals[..], layout, dst0, key0, val0, contents, i);
      dst := dst0.With(i, key0);
      key, val, done := KickWrites(newFlags, i, key0, val0, dst0.lanes, src, hand);
    }

    /** Lines 282-291: claim bucket i in the new flags and write the pair there; when the bucket was
        still live in the old flags, mark it deleted there and hand out its pair. */
    method KickWrites(newFlags: array<bv32>, i: nat, key0: K, val0: V, ghost newLanes: seq<Lane>,
                      ghost src: Layout<K>, ghost hand: map<K, V>) returns (key: K, val: V, done: bool)
      requires Shape() && Separate(newFlags) && Packs(flags[..], layout.lanes) && Packs(newFlags[..], newLanes)
      requires i < keys.Length && i < vals.Length && i < |newLanes| && newLanes[i] == Empty
      requires Kicks(layout, i) ==> src == layout.Without(i, keys[i]) && hand == map[keys[i] := vals[i]]
      requires !Kicks(layout, i) ==> src == layout && hand == map[]
      modifies this`layout, flags, newFlags, keys, vals
      ensures Shape() && Packs(flags[..], layout.lanes) && Packs(newFlags[..], newLanes[i := Live])
      ensures keys[..] == old(keys[..])[i := key0] && vals[..] == old(vals[..])[i := val0]
      ensures layout == src && done == !old(Kicks(layout, i))
      ensures hand == if done then map[] else map[key := val]
    {
      SetIsEmptyFalse(newFlags, i, newLanes);
      key, val, done := key0, val0, true;
      if i < nBuckets {
        ReadersAgree(flags[..], layout.lanes, i);
        done := IsEither(flags[..], i);
      }
      if !done {
        key, val := keys[i], vals[i];
        keys[i] := key0;
        vals[i] := val0;
        SetIsDelTrue(flags, i, layout.lanes);
        layout := layout.Without(i, key);
      } else {
        keys[i] := key0;
        vals[i] := val0;
      }
    }

    /** Lines 278-281: the unguarded probe of the new layout. */
    method FindEmpty(newFlags: array<bv32>, newN: nat, h: nat, ghost newLanes: seq<Lane>, ghost s: nat) returns (i: nat)
      requires IsPow2(newN) && newN <= TWO_TO_THE_32 && Packs(newFlags[..], newLanes) && |newLanes| == newN
      requires forall j :: 0 <= j < newN ==> newLanes[j] == Live || newLanes[j] == Empty
      requires newLanes[Bucket(h, s, newN)] == Empty
      ensures i < newN && newLanes[i] == Empty && Reachable(newLanes, h, i)
    {
      var step := 0;
      i := h % newN;
      while !IsEmpty(newFlags[..], i)
        invariant step <= s && i == Bucket(h, step, newN)
        invariant forall t :: 0 <= t < step ==> newLanes[Bucket(h, t, newN)] != Empty
        decreases s - step
      {
        ReadersAgree(newFlags[..], newLanes, i);
        step := step + 1;
        i := Next(i, step, newN);
      }
      ReadersAgree(newFlags[..], newLanes, i);
      assert OnPath(newLanes, h, step, i);
    }

    /** Lines 271-292 for a live bucket j of the old layout. */
    method RehashBucket(newFlags: array<bv32>, newN: nat, j: nat, ghost dst0: Layout<K>) returns (ghost dst: Layout<K>)
      requires Moving(newFlags, newN, dst0, map[]) && j < nBuckets && layout.lanes[j] == Live
      modifies this`layout, flags, newFlags, keys, vals
      ensures Moving(newFlags, newN, dst, map[])
      ensures StaysDead(old(layout.lanes), layout.lanes) && layout.lanes[j] != Live
    {
      MovesPick(hash, keys[..], vals[..], layout, dst0, contents, j);
      var key, val := LiftWrites(newFlags, j);
      dst := KickOut(newFlags, newN, key, val, dst0);
    }

    /** Lines 271-276: take the pair of a live bucket into hand. */
    method LiftWrites(newFlags: array<bv32>, j: nat) returns (key: K, val: V)
      requires Shape() && Separate(newFlags) && j < nBuckets && Packs(flags[..], layout.lanes) &&
               layout.lanes[j] == Live
      modifies this`layout, flags
      ensures Shape() && Separate(newFlags) && Packs(flags[..], layout.lanes)
      ensures newFlags[..] == old(newFlags[..]) && keys[..] == old(keys[..]) && vals[..] == old(vals[..])
      ensures key == keys[j] && val == vals[j] && layout == old(layout).Without(j, key)
    {
      key, val := keys[j], vals[j];
      SetIsDelTrue(flags, j, layout.lanes);
      layout := layout.Without(j, key);
    }

    /** Lines 269-294: move every live bucket into the new layout, in place. */
    method Rehash(newFlags: array<bv32>, newN: nat) returns (ghost dst: Layout<K>)
      requires Moving(newFlags, newN, AllEmpty(newN), map[])
      modifies this`layout, flags, newFlags, keys, vals
      ensures Moving(newFlags, newN, dst, map[])
      ensures DeadBelow(layout.lanes, |layout.lanes|)
    {
      dst := AllEmpty(newN);
      var j := 0;
      while j != nBuckets
        invariant Moving(newFlags, newN, dst, map[])
        invariant DeadBelow(layout.lanes, j)
      {
        ghost var before := layout.lanes;
        ReadersAgree(flags[..], layout.lanes, j);
        if !IsEither(flags[..], j) {
          dst := RehashBucket(newFlags, newN, j, dst);
        }
        DeadBelowStep(before, layout.lanes, j);
        j := j + 1;
      }
    }

    /** Lines 256-265: make room for newN pairs. A failed allocation leaves the table as it was,
        even when the key array has already been replaced. */
    method Expand(newN: nat, alloc: Alloc) returns (ok: bool)
      requires Valid()
      modifies this`keys, this`vals
      ensures Valid()
      ensures fresh(keys) || keys == old(keys)
      ensures fresh(vals) || vals == old(vals)
      ensures ok <==> nBuckets >= newN || (alloc.keys && alloc.vals)
      ensures ok ==> newN <= keys.Length && newN <= vals.Length
    {
      ok := true;
      if nBuckets < newN {
        if !alloc.keys {
          return false;
        }
        ReplaceKeys(newN);
        if !alloc.vals {
          return false;
        }
        ReplaceVals(newN);
      }
    }

    method ReplaceKeys(n: nat)
      requires Valid() && nBuckets <= n
      modifies this`keys
      ensures Valid() && fresh(keys) && keys.Length == n
    {
      ghost var ks := keys[..];
      var newKeys := Realloc(keys, n);
      assert newKeys[..][..nBuckets] == ks[..nBuckets];
      StandsCopied(hash, layout, ks, vals[..], contents, nOccupied, newKeys[..], vals[..]);
      keys := newKeys;
    }

    method ReplaceVals(n: nat)
      requires Valid() && nBuckets <= n
      modifies this`vals
      ensures Valid() && fresh(vals) && vals.Length == n
    {
      ghost var vs := vals[..];
      var newVals := Realloc(vals, n);
      assert newVals[..][..nBuckets] == vs[..nBuckets];
      StandsCopied(hash, layout, keys[..], vs, contents, nOccupied, keys[..], newVals[..]);
      vals := newVals;
    }

    /** Lines 295-303: the new layout takes over; shrinking also trims the arrays. */
    method Adopt(newFlags: array<bv32>, newN: nat, ghost dst: Layout<K>)
      requires Moving(newFlags, newN, dst, map[]) && DeadBelow(layout.lanes, |layout.lanes|) && size == |contents|
      modifies this`nBuckets, this`nOccupied, this`upperBound, this`flags, this`keys, this`vals, this`layout
      ensures Valid() && flags == newFlags
      ensures fresh(keys) || keys == old(keys)
      ensures fresh(vals) || vals == old(vals)
      ensures nBuckets == newN && nOccupied == size
    {
      MovesEnd(hash, keys[..], vals[..], layout, dst, contents);
      var shrinks := nBuckets > newN;
      TakeOver(newFlags, newN, dst);
      if shrinks {
        ReplaceKeys(newN);
        ReplaceVals(newN);
      }
    }

    method TakeOver(newFlags: array<bv32>, newN: nat, ghost dst: Layout<K>)
      requires Separate(newFlags) && keys as object != vals as object
      requires |dst.lanes| == newN && IsPow2(newN) && 4 <= newN <= MAX_BUCKETS
      requires Packs(newFlags[..], dst.lanes) && size == |contents|
      requires Stands(hash, dst, keys[..], vals[..], contents, size)
      modifies this`flags, this`nBuckets, this`nOccupied, this`upperBound, this`layout
      ensures Valid() && flags == newFlags && nBuckets == newN && nOccupied == size
    {
      flags := newFlags;
      nBuckets := newN;
      nOccupied := size;
      upperBound := UpperBound(nBuckets);
      layout := dst;
    }

    /** Lines 268-304: rehash into newFlags and adopt the result. */
    method Relocate(newFlags: array<bv32>, newN: nat)
      requires Valid() && Separate(newFlags) && size < UpperBound(newN)
      requires newN <= keys.Length && newN <= vals.Length && IsPow2(newN) && 4 <= newN <= MAX_BUCKETS
      requires Packs(newFlags[..], EmptyLanes(newN))
      modifies this`nBuckets, this`nOccupied, this`upperBound, this`flags, this`keys, this`vals, this`layout,
        flags, newFlags, keys, vals
      ensures Valid() && flags == newFlags
      ensures fresh(keys) || keys == old(keys)
      ensures fresh(vals) || vals == old(vals)
      ensures nBuckets == newN && nOccupied == size
    {
      MovesStart(hash, keys[..], vals[..], layout, newN, contents, nOccupied);
      ghost var dst := Rehash(newFlags, newN);
      Adopt(newFlags, newN, dst);
    }

    /** kh_resize */
    method Resize(request: nat, alloc: Alloc) returns (ret: int)
      requires Valid() && request < TWO_TO_THE_32
      modifies this`nBuckets, this`nOccupied, this`upperBound, this`flags, this`keys, this`vals, this`layout, Arrays()
      ensures Valid() && ArraysRenewed()
      ensures ret == 0 || (ret == -1 && !alloc.AllSucceed())
      ensures ret == -1 || size >= UpperBound(SizeFor(request)) ==>
                nBuckets == old(nBuckets) && nOccupied == old(nOccupied) && upperBound == old(upperBound) &&
                layout == old(layout)
      ensures ret == -1 ==> size < UpperBound(SizeFor(request))
      ensures ret == 0 && size < UpperBound(SizeFor(request)) ==>
                nBuckets == SizeFor(request) && nOccupied == size < upperBound
    {
      SizeForCorrect(request);
      ret := ResizeTo(SizeFor(request), alloc);
    }

    /** Lines 251-305, once the size is settled. */
    method ResizeTo(newN: nat, alloc: Alloc) returns (ret: int)
      requires Valid() && IsPow2(newN) && 4 <= newN <= MAX_BUCKETS
      modifies this`nBuckets, this`nOccupied, this`upperBound, this`flags, this`keys, this`vals, this`layout, Arrays()
      ensures Valid() && ArraysRenewed()
      ensures ret == 0 || (ret == -1 && !alloc.AllSucceed())
      ensures ret == -1 || size >= UpperBound(newN) ==>
                nBuckets == old(nBuckets) && nOccupied == old(nOccupied) && upperBound == old(upperBound) &&
                layout == old(layout)
      ensures ret == -1 ==> size < UpperBound(newN)
      ensures ret == 0 && size < UpperBound(newN) ==> nBuckets == newN && nOccupied == size < upperBound
    {
      if size >= UpperBound(newN) {
        return 0;
      }
      if !alloc.flags {
        return -1;
      }
      var newFlags := NewFlags(newN);
      var ok := Expand(newN, alloc);
      if !ok {
        return -1;
      }
      Relocate(newFlags, newN);
      return 0;
    }

    method NewFlags(newN: nat) returns (newFlags: array<bv32>)
      requires IsPow2(newN)
      ensures fresh(newFlags) && Packs(newFlags[..], EmptyLanes(newN))
    {
      newFlags := new bv32[FlagWords(newN)];
      FlagWordsSuffice(newN);
      MarkAllEmpty(newFlags, newN);
    }

    // ----- kh_put -----

    /** Whether a put finds or makes the load less than its bound. The exception is a table of 2 to the 31
        buckets that is at its bound and at least half full of keys. */
    ghost predicate CanMakeRoom()
      reads `nOccupied, `upperBound, `nBuckets, `size
    {
      nOccupied < upperBound || nBuckets > 2 * size || nBuckets < MAX_BUCKETS
    }

    /** A table of fewer than 2 to the 30 keys is never that exception. */
    lemma FewKeysLeaveRoom()
      requires Valid() && |contents| < 0x4000_0000
      ensures CanMakeRoom()
    {
    }

    /** nOccupied counts the live and the deleted buckets, and the live ones are the keys. Within the load
        bound some bucket is empty, so no probe makes a whole lap. */
    lemma LoadInvariant(h: nat)
      requires Valid()
      ensures size == |LiveBuckets(layout.lanes)| && nOccupied == size + |DeletedBuckets(layout.lanes)| <= nBuckets
      ensures nBuckets > 0 && WithinBound() ==>
                nOccupied < nBuckets && !PathTaken(layout.lanes, h, Lap(nBuckets))
    {
      StandsCounts(hash, layout, keys[..], vals[..], contents, nOccupied);
      if nBuckets > 0 && WithinBound() {
        UpperBoundLeavesRoom(nBuckets);
        StandsMeans(hash, layout, keys[..], vals[..], contents, nOccupied);
        LapMeansFull(layout.lanes, h);
      }
    }

    /** Lines 310-318. Afterwards, unless an allocation failed, the load is less than its bound exactly
        when the table could make room; otherwise nothing has changed. */
    method MakeRoom(alloc: Alloc) returns (ok: bool)
      requires Valid()
      modifies this`nBuckets, this`nOccupied, this`upperBound, this`flags, this`keys, this`vals, this`layout, Arrays()
      ensures Valid() && ArraysRenewed()
      ensures !ok ==> !alloc.AllSucceed() && old(CanMakeRoom())
      ensures ok ==> (nOccupied < upperBound <==> old(CanMakeRoom()))
      ensures !ok || old(KeepsLayout()) ==>
                layout == old(layout) && nBuckets == old(nBuckets) && nOccupied == old(nOccupied) &&
                upperBound == old(upperBound)
      ensures ok && !old(KeepsLayout()) ==> nOccupied == size && nBuckets == RebuiltSize(old(nBuckets), size)
    {
      ok := true;
      if nOccupied >= upperBound {
        StandsCounts(hash, layout, keys[..], vals[..], contents, nOccupied);
        var newN := RequestedSize();
        var ret := ResizeTo(newN, alloc);
        ok := ret == 0;
      }
    }

    /** A put leaves the layout as it is before it places the key. */
    ghost predicate KeepsLayout()
      reads `nOccupied, `upperBound, `nBuckets, `size
    {
      nOccupied < upperBound || !CanMakeRoom()
    }

    /** The bucket count and the load with which a put places its key. */
    ghost function BucketsForPut(): nat
      reads `nOccupied, `upperBound, `nBuckets, `size
    {
      if KeepsLayout() then nBuckets else RebuiltSize(nBuckets, size)
    }

    ghost function OccupiedForPut(): nat
      reads `nOccupied, `upperBound, `nBuckets, `size
    {
      if KeepsLayout() then nOccupied else size
    }

    /** The size that comes out of the two calls of kh_resize in kh_put. */
    method RequestedSize() returns (newN: nat)
      requires Shape() && size <= nBuckets
      ensures IsPow2(newN) && 4 <= newN <= MAX_BUCKETS
      ensures size < UpperBound(newN) <==> nBuckets > 2 * size || nBuckets < MAX_BUCKETS
      ensures size < UpperBound(newN) ==> newN == RebuiltSize(nBuckets, size)
    {
      newN := Rounded(PutRequest(nBuckets, size));
      RequestRounds(nBuckets, size, newN);
    }

    method Rounded(request: nat) returns (newN: nat)
      requires request < TWO_TO_THE_32
      ensures RoundsTo(request, newN)
    {
      SizeForCorrect(request);
      newN := SizeFor(request);
    }

    /** Lines 320-335: the bucket that holds the key, or else the last deleted bucket the probe passes
        before its end, or else the empty bucket that ends it. In a table whose buckets are all live an
        absent key gets the first bucket of its probe. */
    method FindSlot(key: K) returns (x: nat)
      requires Valid() && nBuckets > 0
      ensures x < nBuckets && IsPlace(x, key)
    {
      OnlyThreeLanes();
      var i := hash(key) % nBuckets;
      ReadersAgree(flags[..], layout.lanes, i);
      if IsEmpty(flags[..], i) {
        PlaceFound(key, i, nBuckets, 0, i);
        return i;
      }
      ghost var step;
      var site;
      x, i, site, step := ProbeFor(key);
      ReadersAgree(flags[..], layout.lanes, i);
      if x == nBuckets {
        if IsEmpty(flags[..], i) && site != nBuckets {
          x := site;
        } else {
          x := i;
        }
      }
      PlaceFound(key, i, site, step, x);
    }

    lemma OnlyThreeLanes()
      requires Valid()
      ensures NoEmptyDeleted(layout.lanes)
    {
      StandsMeans(hash, layout, keys[..], vals[..], contents, nOccupied);
    }

    /** What FindSlot finds. */
    ghost predicate IsPlace(x: nat, key: K)
      requires nBuckets == |layout.lanes|
      reads `layout, `contents, `nBuckets
    {
      if key in contents then key in layout.loc && x == layout.loc[key]
      else if AllLive(layout.lanes) then nBuckets > 0 && x == hash(key) % nBuckets
      else IsSlot(layout.lanes, hash(key), x)
    }

    lemma PlaceFound(key: K, i: nat, site: nat, step: nat, x: nat)
      requires Valid() && nBuckets > 0 && i == Bucket(hash(key), step, nBuckets)
      requires Probed(layout.lanes, keys[..], hash(key), key, step, site)
      requires (layout.lanes[i] == Live && keys[i] == key) || layout.lanes[i] == Empty || step == Lap(nBuckets)
      requires x == if (layout.lanes[i] == Live && keys[i] == key) || site == nBuckets then i else site
      ensures x < nBuckets && IsPlace(x, key)
    {
      ghost var lanes, h := layout.lanes, hash(key);
      StandsMeans(hash, layout, keys[..], vals[..], contents, nOccupied);
      StandsBucket(hash, layout, keys[..], vals[..], contents, nOccupied, i);
      if lanes[i] == Live && keys[i] == key {
      } else if lanes[i] == Empty {
        StandsNotMissed(hash, layout, keys[..], vals[..], contents, nOccupied, key, step);
        assert SlotBefore(lanes, h, step, x);
      } else {
        StandsNotMissed(hash, layout, keys[..], vals[..], contents, nOccupied, key, step);
        ProbeReturnsHome(h, step, nBuckets);
        if site == nBuckets {
          LapSeesAll(lanes, h);
        } else {
          assert SlotOnLap(lanes, h, x);
        }
      }
    }

    /** Lines 324-329: the probe and the last deleted bucket it passed; line 328 ends it after a lap. */
    method ProbeFor(key: K) returns (x: nat, i: nat, site: nat, ghost step: nat)
      requires Shape() && nBuckets > 0 && Packs(flags[..], layout.lanes) && NoEmptyDeleted(layout.lanes)
      ensures i == Bucket(hash(key), step, nBuckets)
      ensures Probed(layout.lanes, keys[..], hash(key), key, step, site)
      ensures if x == nBuckets && step < Lap(nBuckets) then
                layout.lanes[i] == Empty || (layout.lanes[i] == Live && keys[i] == key)
              else step == Lap(nBuckets) && x == site && layout.lanes[i] != Empty &&
                   NoMatch(layout.lanes, keys[..], i, key)
    {
      ghost var lanes, h := layout.lanes, hash(key);
      var n := 0;
      x, site, i, step := nBuckets, nBuckets, hash(key) % nBuckets, 0;
      var last := i;
      while !IsEmpty(flags[..], i) && (IsDel(flags[..], i) || keys[i] != key)
        invariant n == step < Lap(nBuckets) && i == Bucket(h, step, nBuckets) && x == nBuckets
        invariant Probed(lanes, keys[..], h, key, step, site)
        decreases Lap(nBuckets) - step
      {
        ReadersAgree(flags[..], lanes, i);
        ProbedStep(lanes, keys[..], h, key, step, site);
        if IsDel(flags[..], i) {
          site := i;
        }
        n, step := n + 1, step + 1;
        i := Next(i, n, nBuckets);
        ProbeReturnsHome(h, step, nBuckets);
        if i == last {
          ProbedHome(lanes, keys[..], h, key, step, site);
          x := site;
          return;
        }
      }
      ReadersAgree(flags[..], lanes, i);
    }

    /** Lines 336-346: write the key unless the bucket is live. */
    method Claim(x: nat, key: K) returns (ret: int)
      requires Valid() && x < nBuckets && IsPlace(x, key)
      modifies this`size, this`nOccupied, this`layout, this`contents, flags, keys
      ensures Valid() && layout.lanes[x] == Live
      ensures ret == if old(layout.lanes)[x] == Empty then 1 else if old(layout.lanes)[x] == Deleted then 2 else 0
      ensures ret != 0 ==> key !in old(contents) && contents == old(contents)[key := vals[x]] && keys[x] == key
      ensures ret == 0 ==> contents == old(contents) && layout == old(layout) && keys[..] == old(keys[..])
      ensures nOccupied == old(nOccupied) + if ret == 1 then 1 else 0
    {
      ReadersAgree(flags[..], layout.lanes, x);
      StandsBucket(hash, layout, keys[..], vals[..], contents, nOccupied, x);
      var empty, deleted := IsEmpty(flags[..], x), IsDel(flags[..], x);
      ret := if empty then 1 else if deleted then 2 else 0;
      if ret != 0 {
        PlaceIsFree(x, key);
        Occupy(x, key, empty);
      }
    }

    lemma PlaceIsFree(x: nat, key: K)
      requires Valid() && x < nBuckets && IsPlace(x, key) && layout.lanes[x] != Live
      ensures key !in contents && Reachable(layout.lanes, hash(key), x)
    {
      StandsKey(hash, layout, keys[..], vals[..], contents, nOccupied, key);
      SlotIsFree(layout.lanes, hash(key), x);
    }

    /** Lines 337-339 and 342-344 */
    method Occupy(x: nat, key: K, empty: bool)
      requires Valid() && x < nBuckets && layout.lanes[x] != Live && (empty <==> layout.lanes[x] == Empty)
      requires key !in contents && Reachable(layout.lanes, hash(key), x)
      modifies this`size, this`nOccupied, this`layout, this`contents, flags, keys
      ensures Valid() && contents == old(contents)[key := vals[x]]
      ensures layout.lanes[x] == Live && keys[x] == key
      ensures nOccupied == old(nOccupied) + if empty then 1 else 0
    {
      StandsClaim(hash, layout, keys[..], vals[..], contents, nOccupied, x, key);
      ClaimWrites(x, key, empty);
    }

    method ClaimWrites(x: nat, key: K, empty: bool)
      requires Shape() && Packs(flags[..], layout.lanes) && x < nBuckets
      modifies this`size, this`nOccupied, this`layout, this`contents, flags, keys
      ensures Shape() && Packs(flags[..], layout.lanes)
      ensures keys[..] == old(keys[..])[x := key] && vals[..] == old(vals[..])
      ensures layout == old(layout).With(x, key) && contents == old(contents)[key := vals[x]]
      ensures size == old(size) + 1 && nOccupied == old(nOccupied) + if empty then 1 else 0
    {
      keys[x] := key;
      SetIsBothFalse(flags, x, layout.lanes);
      size := size + 1;
      nOccupied := nOccupied + if empty then 1 else 0;
      layout, contents := layout.With(x, key), contents[key := vals[x]];
    }

    /** Once room has been made the buckets are all live exactly with that many keys. */
    lemma FullMeansMax()
      requires Valid() && nBuckets > 0 && (nOccupied < upperBound || nBuckets == MAX_BUCKETS)
      ensures AllLive(layout.lanes) <==> |contents| == MAX_BUCKETS
    {
      StandsFull(hash, layout, keys[..], vals[..], contents, nOccupied);
      StandsCounts(hash, layout, keys[..], vals[..], contents, nOccupied);
      UpperBoundLeavesRoom(nBuckets);
    }

    /** Lines 319-347, once room has been made; m is the map, and before are the lanes the table had when
        kh_put was called, which it still has unless it was rebuilt. */
    method Place(key: K, ghost m: map<K, V>, ghost before: seq<Lane>, ghost kept: bool) returns (x: nat, ret: int)
      requires Valid() && contents == m && nBuckets > 0 && (nOccupied < upperBound || nBuckets == MAX_BUCKETS)
      requires if kept then layout.lanes == before else nOccupied == size
      modifies this`size, this`nOccupied, this`layout, this`contents, flags, keys
      ensures Valid() && x < nBuckets && layout.lanes[x] == Live
      ensures PutResult(m, key, ret, keys[x], vals[x], contents) && SlotUsed(before, kept, hash(key), x, ret)
      ensures nOccupied == old(nOccupied) + if ret == 1 then 1 else 0
    {
      NoTombstonesHere();
      x := FindSlot(key);
      PlaceCases(x, key);
      ret := Claim(x, key);
    }

    lemma PlaceCases(x: nat, key: K)
      requires Valid() && x < nBuckets && IsPlace(x, key)
      requires nOccupied < upperBound || nBuckets == MAX_BUCKETS
      ensures layout.lanes[x] == Live <==> key in contents || Overfull(contents, key)
      ensures layout.lanes[x] == Live ==> (keys[x] == key <==> key in contents)
      ensures layout.lanes[x] != Live ==> IsSlot(layout.lanes, hash(key), x) && layout.lanes[x] in {Empty, Deleted}
    {
      FullMeansMax();
      StandsKey(hash, layout, keys[..], vals[..], contents, nOccupied, key);
      StandsBucket(hash, layout, keys[..], vals[..], contents, nOccupied, x);
      if key !in contents && !AllLive(layout.lanes) {
        SlotIsFree(layout.lanes, hash(key), x);
      }
    }

    /** kh_put. A failed allocation gives -1 and leaves the map. */
    method Put(key: K, alloc: Alloc) returns (x: nat, ret: int)
      requires Valid()
      modifies this, Arrays()
      ensures Valid() && ArraysRenewed()
      ensures if ret == -1 then
                !alloc.AllSucceed() && !Overfull(contents, key) && x == nBuckets && contents == old(contents)
              else x < nBuckets && layout.lanes[x] == Live &&
                   PutResult(old(contents), key, ret, keys[x], vals[x], contents)
      ensures SlotUsed(old(layout.lanes), old(KeepsLayout()), hash(key), x, ret)
      ensures old(CanMakeRoom() && WithinBound()) ==> WithinBound()
      ensures ret != -1 ==>
                nBuckets == old(BucketsForPut()) && nOccupied == old(OccupiedForPut()) + if ret == 1 then 1 else 0
    {
      ghost var m, before, kept := contents, layout.lanes, KeepsLayout();
      FullNeedsNoRoom(key);
      var ok := MakeRoom(alloc);
      if ok {
        x, ret := Place(key, m, before, kept);
      } else {
        x, ret := nBuckets, -1;
      }
    }

    /** An overfull table keeps its layout, so no allocation can fail in it. */
    lemma FullNeedsNoRoom(key: K)
      requires Valid()
      ensures Overfull(contents, key) ==> !CanMakeRoom()
    {
      StandsCounts(hash, layout, keys[..], vals[..], contents, nOccupied);
    }

    /** A rebuilt table has no deleted bucket. */
    lemma NoTombstonesHere()
      requires Valid()
      ensures nOccupied == size ==> forall i :: 0 <= i < nBuckets ==> layout.lanes[i] != Deleted
    {
      StandsCounts(hash, layout, keys[..], vals[..], contents, nOccupied);
      StandsMeans(hash, layout, keys[..], vals[..], contents, nOccupied);
      if nOccupied == size {
        forall i | 0 <= i < nBuckets ensures layout.lanes[i] != Deleted {
          NoTombstones(layout.lanes, i);
        }
      }
    }

    /** kh_value(h, x) = val */
    method SetValue(x: nat, val: V)
      requires Valid() && x < nBuckets && layout.lanes[x] == Live
      modifies this`contents, vals
      ensures Valid() && contents == old(contents)[keys[x] := val]
    {
      StandsStore(hash, layout, keys[..], vals[..], contents, nOccupied, x, val);
      ghost var vs := vals[..];
      vals[x] := val;
      contents := contents[keys[x] := val];
      assert vals[..] == vs[x := val];
    }

    /** kh_put and the store of the value that callers follow it with. The map gets the key, except that in
        an overfull table some other key loses its value. */
    method PutValue(key: K, val: V, alloc: Alloc) returns (ret: int)
      requires Valid()
      modifies this, Arrays()
      ensures Valid() && ArraysRenewed()
      ensures StoreResult(old(contents), key, val, ret, !alloc.AllSucceed(), contents)
      ensures old(CanMakeRoom() && WithinBound()) ==> WithinBound()
      ensures ret != -1 ==> nBuckets == old(BucketsForPut()) && nOccupied <= old(OccupiedForPut()) + 1
    {
      var x;
      ghost var before := contents;
      x, ret := Put(key, alloc);
      if ret != -1 {
        StoreFor(x, key, val, ret, before);
      }
    }

    method StoreFor(x: nat, ghost key: K, val: V, ghost ret: int, ghost before: map<K, V>)
      requires Valid() && x < nBuckets && layout.lanes[x] == Live
      requires PutResult(before, key, ret, keys[x], vals[x], contents)
      modifies this`contents, vals
      ensures Valid() && StoreResult(before, key, val, ret, false, contents)
    {
      StandsBucket(hash, layout, keys[..], vals[..], contents, nOccupied, x);
      StoredTwice(before, key, vals[x], val);
      SetValue(x, val);
    }

    // ----- kh_del -----

    /** kh_del */
    method Delete(x: nat)
      requires Valid() && x <= nBuckets
      modifies this`size, this`layout, this`contents, flags
      ensures Valid()
      ensures contents ==
              if x < nBuckets && old(layout.lanes)[x] == Live then old(contents - {keys[x]}) else old(contents)
    {
      if x != nBuckets {
        ReadersAgree(flags[..], layout.lanes, x);
        if !IsEither(flags[..], x) {
          DeleteBucket(x, keys[x]);
        }
      }
    }

    method DeleteBucket(x: nat, ghost key: K)
      requires Valid() && x < nBuckets && layout.lanes[x] == Live && keys[x] == key
      modifies this`size, this`layout, this`contents, flags
      ensures Valid() && contents == old(contents) - {key}
    {
      StandsDelete(hash, layout, keys[..], vals[..], contents, nOccupied, x, key);
      StandsBucket(hash, layout, keys[..], vals[..], contents, nOccupied, x);
      MapShrinks(contents, key);
      DeleteWrites(x, key);
    }

    method DeleteWrites(x: nat, ghost key: K)
      requires Shape() && Packs(flags[..], layout.lanes) && x < nBuckets && layout.lanes[x] == Live && size > 0
      modifies this`size, this`layout, this`contents, flags
      ensures Shape() && Packs(flags[..], layout.lanes)
      ensures keys[..] == old(keys[..]) && vals[..] == old(vals[..])
      ensures layout == old(layout).Without(x, key) && contents == old(contents) - {key}
      ensures size == old(size) - 1
    {
      SetIsDelTrue(flags, x, layout.lanes);
      size := size - 1;
      layout, contents := layout.Without(x, key), contents - {key};
    }
  }
}
