/** The two states of a khash table as single facts about values: a layout that stands for a map, and a
    rehash in progress. Each goes through the buckets one by one, so that code which only passes a state
    on sees one fact instead of the quantifiers behind it. */
module TableState {
  import opened Context
  import opened Probe
  import opened Bits
  import opened TableModel

  // ----- a layout that stands for a map -----

  /** The layout over keys and vals stands for m, and `occupied` of its buckets are live or deleted. */
  ghost predicate Stands<K(!new), V>(hash: K -> nat, layout: Layout<K>, keys: seq<K>, vals: seq<V>,
                                     m: map<K, V>, occupied: nat) {
    && |layout.lanes| <= |keys| && |layout.lanes| <= |vals|
    && StandsFirst(hash, layout, keys, vals, m, occupied, |layout.lanes|)
  }

  ghost predicate StandsFirst<K(!new), V>(hash: K -> nat, layout: Layout<K>, keys: seq<K>, vals: seq<V>,
                                          m: map<K, V>, occupied: nat, n: nat)
    requires n <= |layout.lanes| <= |keys| && |layout.lanes| <= |vals|
  {
    if n == 0 then Directory(layout, keys, vals, m, occupied)
    else BucketStands(hash, layout, keys, n - 1) && StandsFirst(hash, layout, keys, vals, m, occupied, n - 1)
  }

  /** The directory names live buckets that hold their key and the value m has for it; the counts. */
  ghost predicate Directory<K(!new), V>(layout: Layout<K>, keys: seq<K>, vals: seq<V>, m: map<K, V>, occupied: nat)
    requires |layout.lanes| <= |keys| && |layout.lanes| <= |vals|
  {
    && (forall k :: k in layout.loc ==>
          layout.loc[k] < |layout.lanes| && layout.lanes[layout.loc[k]] == Live && keys[layout.loc[k]] == k)
    && Spells(layout.loc, vals, m)
    && |layout.loc| == |LiveBuckets(layout.lanes)| && occupied == |Taken(layout.lanes)|
  }

  /** A live bucket is in the directory and on the probe path of its key. */
  ghost predicate BucketStands<K>(hash: K -> nat, layout: Layout<K>, keys: seq<K>, i: nat)
    requires i < |layout.lanes| <= |keys|
  {
    && layout.lanes[i] != EmptyDeleted
    && (layout.lanes[i] == Live ==>
          keys[i] in layout.loc && layout.loc[keys[i]] == i && Reachable(layout.lanes, hash(keys[i]), i))
  }

  lemma {:induction false} StandsFirstAt<K(!new), V>(hash: K -> nat, layout: Layout<K>, keys: seq<K>, vals: seq<V>,
                                                     m: map<K, V>, occupied: nat, n: nat)
    requires n <= |layout.lanes| <= |keys| && |layout.lanes| <= |vals|
    requires StandsFirst(hash, layout, keys, vals, m, occupied, n)
    ensures Directory(layout, keys, vals, m, occupied)
    ensures forall i :: 0 <= i < n ==> BucketStands(hash, layout, keys, i)
  {
    if n == 0 {
    } else {
      StandsFirstAt(hash, layout, keys, vals, m, occupied, n - 1);
    }
  }

  lemma {:induction false} StandsFirstIntro<K(!new), V>(hash: K -> nat, layout: Layout<K>, keys: seq<K>, vals: seq<V>,
                                                        m: map<K, V>, occupied: nat, n: nat)
    requires n <= |layout.lanes| <= |keys| && |layout.lanes| <= |vals|
    requires Directory(layout, keys, vals, m, occupied)
    requires forall i :: 0 <= i < n ==> BucketStands(hash, layout, keys, i)
    ensures StandsFirst(hash, layout, keys, vals, m, occupied, n)
  {
    if n == 0 {
    } else {
      StandsFirstIntro(hash, layout, keys, vals, m, occupied, n - 1);
    }
  }

  /** What it means, bucket by bucket and key by key. */
  lemma StandsMeans<K(!new), V>(hash: K -> nat, layout: Layout<K>, keys: seq<K>, vals: seq<V>, m: map<K, V>,
                                occupied: nat)
    requires Stands(hash, layout, keys, vals, m, occupied)
    ensures NoEmptyDeleted(layout.lanes) && Placed(layout.lanes, keys, layout.loc)
    ensures AllReachable(hash, layout.lanes, keys) && Spells(layout.loc, vals, m)
    ensures |layout.loc| == |LiveBuckets(layout.lanes)| && occupied == |Taken(layout.lanes)|
  {
    StandsFirstAt(hash, layout, keys, vals, m, occupied, |layout.lanes|);
    forall i | 0 <= i < |layout.lanes|
      ensures layout.lanes[i] != EmptyDeleted
      ensures layout.lanes[i] == Live ==>
                keys[i] in layout.loc && layout.loc[keys[i]] == i && Reachable(layout.lanes, hash(keys[i]), i)
    {
      assert BucketStands(hash, layout, keys, i);
    }
  }

  lemma StandsBecause<K(!new), V>(hash: K -> nat, layout: Layout<K>, keys: seq<K>, vals: seq<V>, m: map<K, V>,
                                  occupied: nat)
    requires |layout.lanes| <= |keys| && |layout.lanes| <= |vals|
    requires NoEmptyDeleted(layout.lanes) && Placed(layout.lanes, keys, layout.loc)
    requires AllReachable(hash, layout.lanes, keys) && Spells(layout.loc, vals, m)
    requires |layout.loc| == |LiveBuckets(layout.lanes)| && occupied == |Taken(layout.lanes)|
    ensures Stands(hash, layout, keys, vals, m, occupied)
  {
    StandsFirstIntro(hash, layout, keys, vals, m, occupied, |layout.lanes|);
  }

  lemma StandsEmpty<K(!new), V>(hash: K -> nat, n: nat, keys: seq<K>, vals: seq<V>)
    requires n <= |keys| && n <= |vals|
    ensures Stands(hash, AllEmpty(n), keys, vals, map[], 0)
  {
    NothingTaken(n);
    StandsBecause(hash, AllEmpty(n), keys, vals, map[], 0);
  }

  lemma StandsBucket<K(!new), V>(hash: K -> nat, layout: Layout<K>, keys: seq<K>, vals: seq<V>, m: map<K, V>,
                                 occupied: nat, i: nat)
    requires Stands(hash, layout, keys, vals, m, occupied) && i < |layout.lanes|
    ensures layout.lanes[i] != EmptyDeleted
    ensures layout.lanes[i] == Live ==>
              keys[i] in layout.loc && layout.loc[keys[i]] == i && keys[i] in m && m[keys[i]] == vals[i]
  {
    StandsMeans(hash, layout, keys, vals, m, occupied);
  }

  lemma StandsKey<K(!new), V>(hash: K -> nat, layout: Layout<K>, keys: seq<K>, vals: seq<V>, m: map<K, V>,
                              occupied: nat, key: K)
    requires Stands(hash, layout, keys, vals, m, occupied)
    ensures key in m <==> key in layout.loc
    ensures key in m ==> layout.loc[key] < |layout.lanes| && layout.lanes[layout.loc[key]] == Live &&
                         keys[layout.loc[key]] == key && m[key] == vals[layout.loc[key]]
  {
    StandsMeans(hash, layout, keys, vals, m, occupied);
  }

  lemma StandsCounts<K(!new), V>(hash: K -> nat, layout: Layout<K>, keys: seq<K>, vals: seq<V>, m: map<K, V>,
                                 occupied: nat)
    requires Stands(hash, layout, keys, vals, m, occupied)
    ensures |m| == |LiveBuckets(layout.lanes)|
    ensures occupied == |m| + |DeletedBuckets(layout.lanes)| <= |layout.lanes|
  {
    StandsMeans(hash, layout, keys, vals, m, occupied);
    SameKeysSameSize(m, layout.loc);
    TakenSplits(layout.lanes);
    BelowCount(|layout.lanes|);
    SubsetCount(Taken(layout.lanes), Below(|layout.lanes|));
  }

  /** Every bucket is live exactly when there are as many keys as buckets. */
  lemma StandsFull<K(!new), V>(hash: K -> nat, layout: Layout<K>, keys: seq<K>, vals: seq<V>, m: map<K, V>,
                               occupied: nat)
    requires Stands(hash, layout, keys, vals, m, occupied)
    ensures AllLive(layout.lanes) <==> |m| == |layout.lanes|
  {
    StandsCounts(hash, layout, keys, vals, m, occupied);
    AllLiveCount(layout.lanes);
  }

  lemma StandsNotMissed<K(!new), V>(hash: K -> nat, layout: Layout<K>, keys: seq<K>, vals: seq<V>, m: map<K, V>,
                                    occupied: nat, key: K, steps: nat)
    requires Stands(hash, layout, keys, vals, m, occupied)
    requires 0 < |layout.lanes| <= TWO_TO_THE_32 && IsPow2(|layout.lanes|)
    requires Searched(layout.lanes, keys, hash(key), key, steps)
    requires steps >= |layout.lanes| || layout.lanes[Bucket(hash(key), steps, |layout.lanes|)] == Empty
    ensures key !in m
  {
    StandsMeans(hash, layout, keys, vals, m, occupied);
    NotMissed(hash, layout.lanes, keys, layout.loc, key, steps);
  }

  /** A new key in a free bucket on its probe path. */
  lemma StandsClaim<K(!new), V>(hash: K -> nat, layout: Layout<K>, keys: seq<K>, vals: seq<V>, m: map<K, V>,
                                occupied: nat, x: nat, key: K)
    requires Stands(hash, layout, keys, vals, m, occupied) && x < |layout.lanes|
    requires layout.lanes[x] != Live && key !in m && Reachable(layout.lanes, hash(key), x)
    ensures Stands(hash, layout.With(x, key), keys[x := key], vals, m[key := vals[x]],
                   occupied + if layout.lanes[x] == Empty then 1 else 0)
    ensures |m[key := vals[x]]| == |m| + 1
  {
    StandsMeans(hash, layout, keys, vals, m, occupied);
    ClaimKeeps(hash, layout.lanes, keys, layout.loc, x, key);
    SpellsInsert(layout.loc, vals, m, key, x);
    MapGrows(m, key, vals[x]);
    StandsBecause(hash, layout.With(x, key), keys[x := key], vals, m[key := vals[x]],
                  occupied + if layout.lanes[x] == Empty then 1 else 0);
  }

  /** A tombstone instead of a key. */
  lemma StandsDelete<K(!new), V>(hash: K -> nat, layout: Layout<K>, keys: seq<K>, vals: seq<V>, m: map<K, V>,
                                 occupied: nat, x: nat, key: K)
    requires Stands(hash, layout, keys, vals, m, occupied)
    requires x < |layout.lanes| && layout.lanes[x] == Live && keys[x] == key
    ensures Stands(hash, layout.Without(x, key), keys, vals, m - {key}, occupied)
  {
    StandsMeans(hash, layout, keys, vals, m, occupied);
    DeleteKeeps(hash, layout.lanes, keys, vals, layout.loc, m, x, key);
    StandsBecause(hash, layout.Without(x, key), keys, vals, m - {key}, occupied);
  }

  /** Another value for the key of a bucket. */
  lemma StandsStore<K(!new), V>(hash: K -> nat, layout: Layout<K>, keys: seq<K>, vals: seq<V>, m: map<K, V>,
                                occupied: nat, x: nat, val: V)
    requires Stands(hash, layout, keys, vals, m, occupied) && x < |layout.lanes| && layout.lanes[x] == Live
    ensures Stands(hash, layout, keys, vals[x := val], m[keys[x] := val], occupied)
    ensures |m[keys[x] := val]| == |m|
  {
    StandsMeans(hash, layout, keys, vals, m, occupied);
    assert m[keys[x] := val].Keys == m.Keys;
    SameKeysSameSize(m, m[keys[x] := val]);
    StandsBecause(hash, layout, keys, vals[x := val], m[keys[x] := val], occupied);
  }

  /** Arrays with the same first |lanes| elements do as well. */
  lemma StandsCopied<K(!new), V>(hash: K -> nat, layout: Layout<K>, keys: seq<K>, vals: seq<V>, m: map<K, V>,
                                 occupied: nat, keys': seq<K>, vals': seq<V>)
    requires Stands(hash, layout, keys, vals, m, occupied)
    requires |layout.lanes| <= |keys'| && |layout.lanes| <= |vals'|
    requires keys[..|layout.lanes|] == keys'[..|layout.lanes|] && vals[..|layout.lanes|] == vals'[..|layout.lanes|]
    ensures Stands(hash, layout, keys', vals', m, occupied)
  {
    var n := |layout.lanes|;
    StandsMeans(hash, layout, keys, vals, m, occupied);
    LayoutPrefix(hash, layout.lanes, keys, keys', layout.loc);
    assert forall i :: 0 <= i < n ==> vals[i] == vals[..n][i] == vals'[..n][i] == vals'[i];
    StandsBecause(hash, layout, keys', vals', m, occupied);
  }

  // ----- a rehash in progress -----

  /** Rehashing, with the new layout's buckets taken one by one. */
  ghost predicate Moves<K(!new), V>(hash: K -> nat, keys: seq<K>, vals: seq<V>, src: Layout<K>, dst: Layout<K>,
                                    hand: map<K, V>, contents: map<K, V>) {
    MovesFirst(hash, keys, vals, src, dst, hand, contents, |dst.lanes|)
  }

  ghost predicate MovesFirst<K(!new), V>(hash: K -> nat, keys: seq<K>, vals: seq<V>, src: Layout<K>, dst: Layout<K>,
                                         hand: map<K, V>, contents: map<K, V>, n: nat)
    requires n <= |dst.lanes|
  {
    if n == 0 then Rehashing(hash, keys, vals, src, dst, hand, contents)
    else dst.lanes[n - 1] in {Live, Empty} && MovesFirst(hash, keys, vals, src, dst, hand, contents, n - 1)
  }

  lemma {:induction false} MovesFirstMeans<K(!new), V>(hash: K -> nat, keys: seq<K>, vals: seq<V>, src: Layout<K>,
                                                       dst: Layout<K>, hand: map<K, V>, contents: map<K, V>, n: nat)
    requires n <= |dst.lanes|
    ensures MovesFirst(hash, keys, vals, src, dst, hand, contents, n) ==>
              Rehashing(hash, keys, vals, src, dst, hand, contents)
    ensures Rehashing(hash, keys, vals, src, dst, hand, contents) ==>
              MovesFirst(hash, keys, vals, src, dst, hand, contents, n)
  {
    if n == 0 {
    } else {
      MovesFirstMeans(hash, keys, vals, src, dst, hand, contents, n - 1);
    }
  }

  lemma MovesMeans<K(!new), V>(hash: K -> nat, keys: seq<K>, vals: seq<V>, src: Layout<K>, dst: Layout<K>,
                               hand: map<K, V>, contents: map<K, V>)
    ensures Moves(hash, keys, vals, src, dst, hand, contents) <==> Rehashing(hash, keys, vals, src, dst, hand, contents)
  {
    MovesFirstMeans(hash, keys, vals, src, dst, hand, contents, |dst.lanes|);
  }

  /** Before the first bucket is moved the old layout stands for everything. */
  lemma MovesStart<K(!new), V>(hash: K -> nat, keys: seq<K>, vals: seq<V>, src: Layout<K>, newN: nat,
                               contents: map<K, V>, occupied: nat)
    requires Stands(hash, src, keys, vals, contents, occupied) && newN <= |keys| && newN <= |vals|
    ensures Moves(hash, keys, vals, src, AllEmpty(newN), map[], contents)
  {
    StandsMeans(hash, src, keys, vals, contents, occupied);
    RehashStart(hash, keys, vals, src, newN, contents);
    MovesMeans(hash, keys, vals, src, AllEmpty(newN), map[], contents);
  }

  lemma MovesPick<K(!new), V>(hash: K -> nat, keys: seq<K>, vals: seq<V>, src: Layout<K>, dst: Layout<K>,
                              contents: map<K, V>, j: nat)
    requires Moves(hash, keys, vals, src, dst, map[], contents) && j < |src.lanes| && src.lanes[j] == Live
    ensures j < |keys| && j < |vals|
    ensures Moves(hash, keys, vals, src.Without(j, keys[j]), dst, map[keys[j] := vals[j]], contents)
    ensures StaysDead(src.lanes, src.Without(j, keys[j]).lanes)
  {
    MovesMeans(hash, keys, vals, src, dst, map[], contents);
    RehashPick(hash, keys, vals, src, dst, contents, j);
    MovesMeans(hash, keys, vals, src.Without(j, keys[j]), dst, map[keys[j] := vals[j]], contents);
  }

  lemma MovesRoom<K(!new), V>(hash: K -> nat, keys: seq<K>, vals: seq<V>, src: Layout<K>, dst: Layout<K>,
                              hand: map<K, V>, contents: map<K, V>, h: nat) returns (s: nat)
    requires Moves(hash, keys, vals, src, dst, hand, contents)
    requires IsPow2(|dst.lanes|) && 4 <= |dst.lanes| <= TWO_TO_THE_32 && |contents| < UpperBound(|dst.lanes|)
    ensures s < |dst.lanes| && dst.lanes[Bucket(h, s, |dst.lanes|)] == Empty
    ensures forall j :: 0 <= j < |dst.lanes| ==> dst.lanes[j] == Live || dst.lanes[j] == Empty
  {
    MovesMeans(hash, keys, vals, src, dst, hand, contents);
    s := RehashHasRoom(hash, keys, vals, src, dst, hand, contents, h);
  }

  /** One round of the kick-out loop. */
  lemma MovesRound<K(!new), V>(hash: K -> nat, keys: seq<K>, vals: seq<V>, src: Layout<K>, dst: Layout<K>,
                               key: K, val: V, contents: map<K, V>, i: nat)
      returns (src': Layout<K>, hand': map<K, V>)
    requires Moves(hash, keys, vals, src, dst, map[key := val], contents)
    requires i < |dst.lanes| && dst.lanes[i] == Empty && Reachable(dst.lanes, hash(key), i)
    ensures i < |keys| && i < |vals|
    ensures Moves(hash, keys[i := key], vals[i := val], src', dst.With(i, key), hand', contents)
    ensures Kicks(src, i) ==>
              src' == src.Without(i, keys[i]) && hand' == map[keys[i] := vals[i]] && |src'.loc| < |src.loc|
    ensures !Kicks(src, i) ==> src' == src && hand' == map[]
    ensures StaysDead(src.lanes, src'.lanes)
  {
    MovesMeans(hash, keys, vals, src, dst, map[key := val], contents);
    src', hand' := RehashRound(hash, keys, vals, src, dst, key, val, contents, i);
    MovesMeans(hash, keys[i := key], vals[i := val], src', dst.With(i, key), hand', contents);
  }

  /** When no bucket of the old layout is live, the new layout stands for everything. */
  lemma MovesEnd<K(!new), V>(hash: K -> nat, keys: seq<K>, vals: seq<V>, src: Layout<K>, dst: Layout<K>,
                             contents: map<K, V>)
    requires Moves(hash, keys, vals, src, dst, map[], contents) && DeadBelow(src.lanes, |src.lanes|)
    ensures Stands(hash, dst, keys, vals, contents, |contents|)
  {
    MovesMeans(hash, keys, vals, src, dst, map[], contents);
    RehashEnd(hash, keys, vals, src, dst, contents);
    StandsBecause(hash, dst, keys, vals, contents, |contents|);
  }
}
