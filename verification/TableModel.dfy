/** The layout invariant of a khash table, stated on values: which bucket holds which key, why a
    probe finds it, and what is conserved while two layouts share one key array. */
module TableModel {
  import opened Context
  import opened Probe
  import opened Bits

  /** (khint_t)(n * 0.77 + 0.5), exactly: 77 n + 50 is never a multiple of 100 for a power of two. */
  function UpperBound(n: nat): nat {
    (77 * n + 50) / 100
  }

  /** It is 0.77 n rounded to the nearest number. */
  lemma UpperBoundIsNearest(n: nat)
    ensures 77 * n - 50 < 100 * UpperBound(n) <= 77 * n + 50
  {
  }

  lemma UpperBoundLeavesRoom(n: nat)
    requires n >= 4
    ensures 0 < UpperBound(n) < n
  {
  }

  /** Both resizes of kh_put leave room: at half load the same size does, otherwise the double size. */
  lemma ResizeLeavesRoom(n: nat, size: nat)
    ensures 2 * size < n ==> size < UpperBound(n)
    ensures 4 <= n && size <= n ==> size < UpperBound(2 * n)
    ensures 0 < UpperBound(4)
  {
  }

  /** A key with hash h stored in bucket i is found: the probe reaches i after s steps and meets no
      empty bucket before. */
  ghost predicate OnPath(lanes: seq<Lane>, h: nat, s: nat, i: nat)
    requires |lanes| > 0
  {
    Bucket(h, s, |lanes|) == i && PathTaken(lanes, h, s)
  }

  ghost predicate PathTaken(lanes: seq<Lane>, h: nat, s: nat)
    requires |lanes| > 0
  {
    forall t :: 0 <= t < s ==> lanes[Bucket(h, t, |lanes|)] != Empty
  }

  ghost predicate Reachable(lanes: seq<Lane>, h: nat, i: nat)
    requires |lanes| > 0
  {
    exists s: nat :: OnPath(lanes, h, s, i)
  }

  ghost predicate AllReachable<K>(hash: K -> nat, lanes: seq<Lane>, keys: seq<K>)
    requires |lanes| <= |keys|
  {
    forall i :: 0 <= i < |lanes| && lanes[i] == Live ==> Reachable(lanes, hash(keys[i]), i)
  }

  /** loc is exactly the directory of live buckets, so no key is live twice. */
  ghost predicate Placed<K>(lanes: seq<Lane>, keys: seq<K>, loc: map<K, nat>)
    requires |lanes| <= |keys|
  {
    && (forall k :: k in loc ==> loc[k] < |lanes| && lanes[loc[k]] == Live && keys[loc[k]] == k)
    && (forall i :: 0 <= i < |lanes| && lanes[i] == Live ==> keys[i] in loc && loc[keys[i]] == i)
  }

  /** The buckets that are live or deleted. */
  ghost function Taken(lanes: seq<Lane>): set<nat> {
    set i | 0 <= i < |lanes| && lanes[i] != Empty
  }

  ghost function LiveBuckets(lanes: seq<Lane>): set<nat> {
    set i | 0 <= i < |lanes| && lanes[i] == Live
  }

  ghost function DeletedBuckets(lanes: seq<Lane>): set<nat> {
    set i | 0 <= i < |lanes| && lanes[i] == Deleted
  }

  lemma TakenSplits(lanes: seq<Lane>)
    requires forall i :: 0 <= i < |lanes| ==> lanes[i] != EmptyDeleted
    ensures |Taken(lanes)| == |LiveBuckets(lanes)| + |DeletedBuckets(lanes)|
  {
    assert Taken(lanes) == LiveBuckets(lanes) + DeletedBuckets(lanes);
  }

  /** When every taken bucket is live there is no deleted bucket. */
  lemma NoTombstones(lanes: seq<Lane>, i: nat)
    requires forall j :: 0 <= j < |lanes| ==> lanes[j] != EmptyDeleted
    requires |Taken(lanes)| == |LiveBuckets(lanes)| && i < |lanes|
    ensures lanes[i] != Deleted
  {
    TakenSplits(lanes);
    assert lanes[i] == Deleted ==> i in DeletedBuckets(lanes);
  }

  lemma LiveAdded(lanes: seq<Lane>, i: nat)
    requires i < |lanes| && lanes[i] != Live
    ensures |LiveBuckets(lanes[i := Live])| == |LiveBuckets(lanes)| + 1
  {
    assert LiveBuckets(lanes[i := Live]) == LiveBuckets(lanes) + {i};
  }

  lemma LiveRemoved(lanes: seq<Lane>, i: nat)
    requires i < |lanes| && lanes[i] == Live
    ensures |LiveBuckets(lanes[i := Deleted])| == |LiveBuckets(lanes)| - 1
  {
    assert LiveBuckets(lanes[i := Deleted]) == LiveBuckets(lanes) - {i};
  }

  lemma TakenGrows(lanes: seq<Lane>, i: nat)
    requires i < |lanes| && lanes[i] == Empty
    ensures |Taken(lanes[i := Live])| == |Taken(lanes)| + 1
  {
    assert Taken(lanes[i := Live]) == Taken(lanes) + {i};
  }

  lemma TakenKept(lanes: seq<Lane>, i: nat, lane: Lane)
    requires i < |lanes| && lanes[i] != Empty && lane != Empty
    ensures Taken(lanes[i := lane]) == Taken(lanes)
  {
  }

  lemma NothingTaken(n: nat)
    ensures Taken(EmptyLanes(n)) == {} && LiveBuckets(EmptyLanes(n)) == {}
  {
  }

  lemma NoEmptyMeansFull(lanes: seq<Lane>)
    ensures (forall i :: 0 <= i < |lanes| ==> lanes[i] != Empty) ==> |Taken(lanes)| == |lanes|
  {
    BelowCount(|lanes|);
    if forall i :: 0 <= i < |lanes| ==> lanes[i] != Empty {
      assert forall i: nat :: i in Below(|lanes|) ==> i in Taken(lanes);
      assert Taken(lanes) == Below(|lanes|);
    }
  }

  /** A probe through a table that is not full meets an empty bucket within |lanes| steps. */
  lemma ProbeMeetsEmpty(lanes: seq<Lane>, h: nat) returns (s: nat)
    requires IsPow2(|lanes|) && |lanes| <= TWO_TO_THE_32 && |Taken(lanes)| < |lanes|
    ensures s < |lanes| && lanes[Bucket(h, s, |lanes|)] == Empty
  {
    NoEmptyMeansFull(lanes);
    var i :| 0 <= i < |lanes| && lanes[i] == Empty;
    s := ProbeCovers(h, |lanes|, i);
  }

  /** Filling buckets never cuts a probe path. */
  lemma ReachableKept(lanes: seq<Lane>, lanes': seq<Lane>, h: nat, i: nat)
    requires 0 < |lanes| == |lanes'|
    requires forall j :: 0 <= j < |lanes| && lanes[j] != Empty ==> lanes'[j] != Empty
    requires Reachable(lanes, h, i)
    ensures Reachable(lanes', h, i)
  {
    var s: nat :| OnPath(lanes, h, s, i);
    assert OnPath(lanes', h, s, i);
  }

  // ----- one layout -----

  lemma PlacedInsert<K>(lanes: seq<Lane>, keys: seq<K>, loc: map<K, nat>, i: nat, key: K)
    requires |lanes| <= |keys| && i < |lanes| && lanes[i] != Live && key !in loc && Placed(lanes, keys, loc)
    ensures Placed(lanes[i := Live], keys[i := key], loc[key := i])
  {
  }

  lemma PlacedRemove<K>(lanes: seq<Lane>, keys: seq<K>, loc: map<K, nat>, i: nat)
    requires |lanes| <= |keys| && i < |lanes| && lanes[i] == Live && Placed(lanes, keys, loc)
    ensures Placed(lanes[i := Deleted], keys, loc - {keys[i]})
  {
  }

  /** A bucket that is not live may hold anything. */
  lemma PlacedIgnores<K>(lanes: seq<Lane>, keys: seq<K>, loc: map<K, nat>, i: nat, key: K)
    requires |lanes| <= |keys| && i < |keys| && (i < |lanes| ==> lanes[i] != Live) && Placed(lanes, keys, loc)
    ensures Placed(lanes, keys[i := key], loc)
  {
  }

  lemma ReachableInsert<K>(hash: K -> nat, lanes: seq<Lane>, keys: seq<K>, i: nat, key: K)
    requires |lanes| <= |keys| && i < |lanes| && AllReachable(hash, lanes, keys)
    requires Reachable(lanes, hash(key), i)
    ensures AllReachable(hash, lanes[i := Live], keys[i := key])
  {
    var lanes', keys' := lanes[i := Live], keys[i := key];
    forall j | 0 <= j < |lanes| && lanes'[j] == Live
      ensures Reachable(lanes', hash(keys'[j]), j)
    {
      ReachableKept(lanes, lanes', hash(keys'[j]), j);
    }
  }

  lemma ReachableRemove<K>(hash: K -> nat, lanes: seq<Lane>, keys: seq<K>, i: nat)
    requires |lanes| <= |keys| && i < |lanes| && lanes[i] == Live && AllReachable(hash, lanes, keys)
    ensures AllReachable(hash, lanes[i := Deleted], keys)
  {
    forall j | 0 <= j < |lanes| && lanes[i := Deleted][j] == Live
      ensures Reachable(lanes[i := Deleted], hash(keys[j]), j)
    {
      ReachableKept(lanes, lanes[i := Deleted], hash(keys[j]), j);
    }
  }

  /** The last deleted bucket among the first n of the probe; |lanes| when none is deleted. */
  ghost predicate LastTombstone(lanes: seq<Lane>, h: nat, n: nat, x: nat)
    requires |lanes| > 0
  {
    if x == |lanes| then NoTombstone(lanes, h, 0, n) else
      exists t: nat :: t < n && Bucket(h, t, |lanes|) == x && lanes[x] == Deleted && NoTombstone(lanes, h, t + 1, n)
  }

  ghost predicate NoTombstone(lanes: seq<Lane>, h: nat, from: nat, to: nat)
    requires |lanes| > 0
  {
    forall t :: from <= t < to ==> lanes[Bucket(h, t, |lanes|)] != Deleted
  }

  lemma NoTombstoneStep(lanes: seq<Lane>, h: nat, from: nat, to: nat)
    requires |lanes| > 0 && NoTombstone(lanes, h, from, to) && lanes[Bucket(h, to, |lanes|)] != Deleted
    ensures NoTombstone(lanes, h, from, to + 1)
  {
    forall t | from <= t < to + 1 ensures lanes[Bucket(h, t, |lanes|)] != Deleted {
      assert t < to || t == to;
    }
  }

  lemma LastTombstoneStep(lanes: seq<Lane>, h: nat, n: nat, x: nat)
    requires |lanes| > 0 && LastTombstone(lanes, h, n, x)
    ensures var b := Bucket(h, n, |lanes|);
            LastTombstone(lanes, h, n + 1, if lanes[b] == Deleted then b else x)
  {
    var b := Bucket(h, n, |lanes|);
    if lanes[b] == Deleted {
      assert NoTombstone(lanes, h, n + 1, n + 1);
      assert LastTombstone(lanes, h, n + 1, b);
    } else if x != |lanes| {
      var t: nat :| t < n && Bucket(h, t, |lanes|) == x && lanes[x] == Deleted && NoTombstone(lanes, h, t + 1, n);
      NoTombstoneStep(lanes, h, t + 1, n);
      assert LastTombstone(lanes, h, n + 1, x);
    } else {
      NoTombstoneStep(lanes, h, 0, n);
    }
  }

  /** The probe meets its first empty bucket after e steps. */
  ghost predicate EndsAt(lanes: seq<Lane>, h: nat, e: nat)
    requires |lanes| > 0
  {
    lanes[Bucket(h, e, |lanes|)] == Empty && PathTaken(lanes, h, e)
  }

  /** x is the last deleted bucket before the end of the probe, or that end when none is deleted. */
  ghost predicate SlotBefore(lanes: seq<Lane>, h: nat, e: nat, x: nat)
    requires |lanes| > 0
  {
    x < |lanes| && EndsAt(lanes, h, e) &&
    if lanes[x] == Empty then x == Bucket(h, e, |lanes|) && NoTombstone(lanes, h, 0, e)
    else LastTombstone(lanes, h, e, x)
  }

  /** The number of steps after which a probe that meets no empty bucket is back at its first one. */
  function Lap(n: nat): nat
    requires n > 0
  {
    2 * n - 1
  }

  /** Where kh_put places a new key with hash h: the slot above, or, in a table without an empty bucket,
      the last deleted bucket of a whole lap. */
  ghost predicate IsSlot(lanes: seq<Lane>, h: nat, x: nat) {
    && 0 < |lanes| && x < |lanes|
    && ((exists e: nat :: SlotBefore(lanes, h, e, x)) || SlotOnLap(lanes, h, x))
  }

  ghost predicate SlotOnLap(lanes: seq<Lane>, h: nat, x: nat)
    requires |lanes| > 0
  {
    x < |lanes| && PathTaken(lanes, h, Lap(|lanes|)) && LastTombstone(lanes, h, Lap(|lanes|), x)
  }

  /** Such a bucket is free and reachable. */
  lemma SlotIsFree(lanes: seq<Lane>, h: nat, x: nat)
    requires IsSlot(lanes, h, x)
    ensures x < |lanes| && lanes[x] != Live && Reachable(lanes, h, x)
  {
    if SlotOnLap(lanes, h, x) {
      TombstoneIsReachable(lanes, h, Lap(|lanes|), x);
    } else {
      var e: nat :| SlotBefore(lanes, h, e, x);
      if lanes[x] == Empty {
        assert OnPath(lanes, h, e, x);
      } else {
        TombstoneIsReachable(lanes, h, e, x);
      }
    }
  }

  lemma TombstoneIsReachable(lanes: seq<Lane>, h: nat, n: nat, x: nat)
    requires x < |lanes| && PathTaken(lanes, h, n) && LastTombstone(lanes, h, n, x)
    ensures lanes[x] == Deleted && Reachable(lanes, h, x)
  {
    var t: nat :| t < n && Bucket(h, t, |lanes|) == x && lanes[x] == Deleted && NoTombstone(lanes, h, t + 1, n);
    assert OnPath(lanes, h, t, x);
  }

  ghost predicate AllLive(lanes: seq<Lane>) {
    forall i :: 0 <= i < |lanes| ==> lanes[i] == Live
  }

  /** A lap without an empty or a deleted bucket has seen only live ones, and those are all. */
  lemma LapSeesAll(lanes: seq<Lane>, h: nat)
    requires IsPow2(|lanes|) && |lanes| <= TWO_TO_THE_32 && NoEmptyDeleted(lanes)
    requires PathTaken(lanes, h, Lap(|lanes|)) && LastTombstone(lanes, h, Lap(|lanes|), |lanes|)
    ensures AllLive(lanes)
  {
    forall i | 0 <= i < |lanes| ensures lanes[i] == Live {
      var s := ProbeCovers(h, |lanes|, i);
      assert lanes[Bucket(h, s, |lanes|)] != Empty && lanes[Bucket(h, s, |lanes|)] != Deleted;
    }
  }

  /** A lap without an empty bucket means that every bucket is taken. */
  lemma LapMeansFull(lanes: seq<Lane>, h: nat)
    requires IsPow2(|lanes|) && |lanes| <= TWO_TO_THE_32
    ensures PathTaken(lanes, h, Lap(|lanes|)) ==> |Taken(lanes)| == |lanes|
  {
    NoEmptyMeansFull(lanes);
    forall i | 0 <= i < |lanes| ensures PathTaken(lanes, h, Lap(|lanes|)) ==> lanes[i] != Empty {
      var s := ProbeCovers(h, |lanes|, i);
      assert Bucket(h, s, |lanes|) == i;
    }
  }

  lemma AllLiveCount(lanes: seq<Lane>)
    ensures AllLive(lanes) <==> |LiveBuckets(lanes)| == |lanes|
  {
    BelowCount(|lanes|);
    if |LiveBuckets(lanes)| == |lanes| {
      SubsetSameSize(LiveBuckets(lanes), Below(|lanes|));
      forall i: nat | i < |lanes| ensures lanes[i] == Live {
        assert InRange(i, |lanes|);
        assert i in Below(|lanes|);
      }
    }
    if AllLive(lanes) {
      assert LiveBuckets(lanes) == Below(|lanes|);
    }
  }

  /** The first `steps` buckets of the key's probe do not hold it. */
  ghost predicate Searched<K>(lanes: seq<Lane>, keys: seq<K>, h: nat, key: K, steps: nat)
    requires 0 < |lanes| <= |keys|
  {
    forall t :: 0 <= t < steps ==> NoMatch(lanes, keys, Bucket(h, t, |lanes|), key)
  }

  ghost predicate NoMatch<K>(lanes: seq<Lane>, keys: seq<K>, i: nat, key: K)
    requires i < |lanes| <= |keys|
  {
    lanes[i] != Live || keys[i] != key
  }

  lemma SearchedStep<K>(lanes: seq<Lane>, keys: seq<K>, h: nat, key: K, steps: nat)
    requires 0 < |lanes| <= |keys| && Searched(lanes, keys, h, key, steps)
    requires NoMatch(lanes, keys, Bucket(h, steps, |lanes|), key)
    ensures Searched(lanes, keys, h, key, steps + 1)
  {
  }

  /** The probe has made so many steps past taken buckets that do not hold the key, and site is the last
      deleted one among them. */
  ghost predicate Probed<K>(lanes: seq<Lane>, keys: seq<K>, h: nat, key: K, steps: nat, site: nat)
    requires 0 < |lanes| <= |keys|
  {
    PathTaken(lanes, h, steps) && LastTombstone(lanes, h, steps, site) && Searched(lanes, keys, h, key, steps)
  }

  lemma ProbedStep<K>(lanes: seq<Lane>, keys: seq<K>, h: nat, key: K, steps: nat, site: nat)
    requires 0 < |lanes| <= |keys| && Probed(lanes, keys, h, key, steps, site)
    requires var b := Bucket(h, steps, |lanes|);
             lanes[b] != Empty && NoMatch(lanes, keys, b, key)
    ensures var b := Bucket(h, steps, |lanes|);
            Probed(lanes, keys, h, key, steps + 1, if lanes[b] == Deleted then b else site)
  {
    LastTombstoneStep(lanes, h, steps, site);
    SearchedStep(lanes, keys, h, key, steps);
  }

  /** Back at the first bucket, the probe finds it as it was. */
  lemma ProbedHome<K>(lanes: seq<Lane>, keys: seq<K>, h: nat, key: K, steps: nat, site: nat)
    requires 0 < |lanes| <= |keys| && Probed(lanes, keys, h, key, steps, site) && steps > 0
    ensures lanes[Bucket(h, 0, |lanes|)] != Empty && NoMatch(lanes, keys, Bucket(h, 0, |lanes|), key)
  {
  }

  /** A search that ran into an empty bucket, or through every bucket, has not missed the key. */
  lemma NotMissed<K>(hash: K -> nat, lanes: seq<Lane>, keys: seq<K>, loc: map<K, nat>, key: K, steps: nat)
    requires 0 < |lanes| <= |keys| && IsPow2(|lanes|) && |lanes| <= TWO_TO_THE_32
    requires Placed(lanes, keys, loc) && AllReachable(hash, lanes, keys)
    requires Searched(lanes, keys, hash(key), key, steps)
    requires steps >= |lanes| || lanes[Bucket(hash(key), steps, |lanes|)] == Empty
    ensures key !in loc
  {
    if key in loc && steps >= |lanes| {
      var t := ProbeCovers(hash(key), |lanes|, loc[key]);
    }
  }

  /** Claiming a bucket on the key's probe path for a key that is absent. */
  lemma ClaimKeeps<K>(hash: K -> nat, lanes: seq<Lane>, keys: seq<K>, loc: map<K, nat>, x: nat, key: K)
    requires x < |lanes| <= |keys| && lanes[x] != Live && key !in loc && Reachable(lanes, hash(key), x)
    requires Placed(lanes, keys, loc) && AllReachable(hash, lanes, keys)
    ensures Placed(lanes[x := Live], keys[x := key], loc[key := x])
    ensures AllReachable(hash, lanes[x := Live], keys[x := key])
    ensures |Taken(lanes[x := Live])| == |Taken(lanes)| + (if lanes[x] == Empty then 1 else 0)
    ensures |loc[key := x]| == |loc| + 1
    ensures |LiveBuckets(lanes[x := Live])| == |LiveBuckets(lanes)| + 1
  {
    LiveAdded(lanes, x);
    PlacedInsert(lanes, keys, loc, x, key);
    ReachableInsert(hash, lanes, keys, x, key);
    if lanes[x] == Empty {
      TakenGrows(lanes, x);
    } else {
      TakenKept(lanes, x, Live);
    }
  }

  lemma MapShrinks<K, V>(m: map<K, V>, key: K)
    requires key in m
    ensures |m - {key}| == |m| - 1
  {
    assert (m - {key}).Keys == m.Keys - {key};
    assert |(m - {key}).Keys| == |m - {key}|;
  }

  /** The directory and the values spell out the finite map m. */
  ghost predicate Spells<K(!new), V>(loc: map<K, nat>, vals: seq<V>, m: map<K, V>) {
    && (forall k :: k in m <==> k in loc)
    && (forall k :: k in loc ==> loc[k] < |vals| && m[k] == vals[loc[k]])
  }

  lemma SpellsInsert<K(!new), V>(loc: map<K, nat>, vals: seq<V>, m: map<K, V>, key: K, x: nat)
    requires Spells(loc, vals, m) && x < |vals|
    ensures Spells(loc[key := x], vals, m[key := vals[x]])
  {
  }

  lemma SpellsDelete<K(!new), V>(loc: map<K, nat>, vals: seq<V>, m: map<K, V>, key: K)
    requires Spells(loc, vals, m)
    ensures Spells(loc - {key}, vals, m - {key})
  {
  }

  ghost predicate NoEmptyDeleted(lanes: seq<Lane>) {
    forall i :: 0 <= i < |lanes| ==> lanes[i] != EmptyDeleted
  }

  /** Deleting a live bucket leaves every probe path intact and removes exactly its key. */
  lemma DeleteKeeps<K(!new), V>(hash: K -> nat, lanes: seq<Lane>, keys: seq<K>, vals: seq<V>, loc: map<K, nat>,
                                m: map<K, V>, x: nat, key: K)
    requires x < |lanes| <= |keys| && lanes[x] == Live && keys[x] == key
    requires NoEmptyDeleted(lanes) && Placed(lanes, keys, loc) && AllReachable(hash, lanes, keys) &&
             Spells(loc, vals, m)
    ensures NoEmptyDeleted(lanes[x := Deleted]) && Placed(lanes[x := Deleted], keys, loc - {key})
    ensures AllReachable(hash, lanes[x := Deleted], keys) && Spells(loc - {key}, vals, m - {key})
    ensures |Taken(lanes[x := Deleted])| == |Taken(lanes)|
    ensures |loc| == |LiveBuckets(lanes)| ==> |loc - {key}| == |LiveBuckets(lanes[x := Deleted])|
  {
    LiveRemoved(lanes, x);
    PlacedRemove(lanes, keys, loc, x);
    ReachableRemove(hash, lanes, keys, x);
    TakenKept(lanes, x, Deleted);
    MapShrinks(loc, key);
    SpellsDelete(loc, vals, m, key);
  }

  // ----- two layouts over one key array -----

  datatype Layout<!K> = Layout(lanes: seq<Lane>, loc: map<K, nat>) {
    function Without(i: nat, key: K): Layout<K>
      requires i < |lanes|
    {
      Layout(lanes[i := Deleted], loc - {key})
    }

    function With(i: nat, key: K): Layout<K>
      requires i < |lanes|
    {
      Layout(lanes[i := Live], loc[key := i])
    }
  }

  function AllEmpty<K>(n: nat): Layout<K> {
    Layout(EmptyLanes(n), map[])
  }

  /** The state of kh_resize's rehash: src and dst are two layouts over the same keys and vals, and
      hand holds the pairs that have been lifted out of the arrays. Together they are exactly the
      original contents, and no bucket is live in both layouts. */
  ghost predicate Rehashing<K, V>(hash: K -> nat, keys: seq<K>, vals: seq<V>, src: Layout<K>, dst: Layout<K>,
                                  hand: map<K, V>, contents: map<K, V>)
  {
    match src
    case Layout(srcLanes, srcLoc) =>
      && |srcLanes| <= |keys| && |srcLanes| <= |vals| && |dst.lanes| <= |keys| && |dst.lanes| <= |vals|
      && Placed(srcLanes, keys, srcLoc)
      && Placed(dst.lanes, keys, dst.loc)
      && AllReachable(hash, dst.lanes, keys)
      && Apart(srcLanes, dst.lanes)
      && |Taken(dst.lanes)| == |dst.loc|
      && SplitsInto(vals, srcLoc, dst.loc, hand, contents)
  }

  /** The new layout has no deleted buckets, and no bucket is live in both layouts. */
  ghost predicate Apart(srcLanes: seq<Lane>, dstLanes: seq<Lane>) {
    && (forall i :: 0 <= i < |dstLanes| ==> dstLanes[i] == Live || dstLanes[i] == Empty)
    && (forall i :: 0 <= i < |srcLanes| && i < |dstLanes| ==> srcLanes[i] != Live || dstLanes[i] != Live)
  }

  /** Every pair of the contents is in exactly one of the three places, with its value. */
  ghost predicate SplitsInto<K, V>(vals: seq<V>, srcLoc: map<K, nat>, dstLoc: map<K, nat>,
                                   hand: map<K, V>, contents: map<K, V>)
  {
    && (forall k :: k in contents ==> k in srcLoc || k in dstLoc || k in hand)
    && (forall k :: k in srcLoc ==> k in contents && k !in dstLoc && k !in hand)
    && (forall k :: k in dstLoc ==> k in contents && k !in hand)
    && (forall k :: k in srcLoc ==> srcLoc[k] < |vals| && contents[k] == vals[srcLoc[k]])
    && (forall k :: k in dstLoc ==> dstLoc[k] < |vals| && contents[k] == vals[dstLoc[k]])
    && (forall k :: k in hand ==> k in contents && contents[k] == hand[k])
  }

  /** The old layout only loses live buckets. */
  ghost predicate StaysDead(before: seq<Lane>, after: seq<Lane>) {
    |before| == |after| && forall i :: 0 <= i < |before| && before[i] != Live ==> after[i] != Live
  }

  ghost predicate DeadBelow(lanes: seq<Lane>, j: nat) {
    j <= |lanes| && forall i :: 0 <= i < j ==> lanes[i] != Live
  }

  lemma DeadBelowStep(before: seq<Lane>, after: seq<Lane>, j: nat)
    requires DeadBelow(before, j) && StaysDead(before, after) && j < |after| && after[j] != Live
    ensures DeadBelow(after, j + 1)
  {
  }

  /** Marking an old bucket deleted takes its pair into hand. */
  lemma RehashLift<K, V>(hash: K -> nat, keys: seq<K>, vals: seq<V>, src: Layout<K>, dst: Layout<K>,
                         hand: map<K, V>, contents: map<K, V>, i: nat)
    requires Rehashing(hash, keys, vals, src, dst, hand, contents)
    requires i < |src.lanes| && src.lanes[i] == Live
    ensures keys[i] in src.loc && keys[i] !in dst.loc && keys[i] !in hand
    ensures Rehashing(hash, keys, vals, src.Without(i, keys[i]), dst, hand[keys[i] := vals[i]], contents)
  {
    var key := keys[i];
    assert key in src.loc && src.loc[key] == i;
    assert key !in dst.loc && key !in hand;
    PlacedRemove(src.lanes, keys, src.loc, i);
    LiftSplits(vals, src.loc, dst.loc, hand, contents, key);
    ApartLift(src.lanes, dst.lanes, i);
  }

  lemma ApartLift(srcLanes: seq<Lane>, dstLanes: seq<Lane>, i: nat)
    requires Apart(srcLanes, dstLanes) && i < |srcLanes|
    ensures Apart(srcLanes[i := Deleted], dstLanes)
  {
  }

  lemma ApartDrop(srcLanes: seq<Lane>, dstLanes: seq<Lane>, i: nat)
    requires Apart(srcLanes, dstLanes) && i < |dstLanes| && (i < |srcLanes| ==> srcLanes[i] != Live)
    ensures Apart(srcLanes, dstLanes[i := Live])
  {
  }

  lemma MapGrows<K, V>(m: map<K, V>, key: K, val: V)
    requires key !in m
    ensures |m[key := val]| == |m| + 1
  {
  }

  lemma LiftSplits<K, V>(vals: seq<V>, srcLoc: map<K, nat>, dstLoc: map<K, nat>,
                         hand: map<K, V>, contents: map<K, V>, key: K)
    requires SplitsInto(vals, srcLoc, dstLoc, hand, contents) && key in srcLoc
    ensures SplitsInto(vals, srcLoc - {key}, dstLoc, hand[key := vals[srcLoc[key]]], contents)
  {
  }

  /** Writing a pair from hand into a bucket that is empty in the new layout and not live in the old. */
  lemma RehashDrop<K, V>(hash: K -> nat, keys: seq<K>, vals: seq<V>, src: Layout<K>, dst: Layout<K>,
                         hand: map<K, V>, contents: map<K, V>, i: nat, key: K)
    requires Rehashing(hash, keys, vals, src, dst, hand, contents)
    requires i < |dst.lanes| && dst.lanes[i] == Empty && (i < |src.lanes| ==> src.lanes[i] != Live)
    requires key in hand && Reachable(dst.lanes, hash(key), i)
    ensures Rehashing(hash, keys[i := key], vals[i := hand[key]], src, dst.With(i, key), hand - {key}, contents)
  {
    assert key !in dst.loc && key !in src.loc;
    PlacedIgnores(src.lanes, keys, src.loc, i, key);
    PlacedInsert(dst.lanes, keys, dst.loc, i, key);
    ReachableInsert(hash, dst.lanes, keys, i, key);
    TakenGrows(dst.lanes, i);
    MapGrows(dst.loc, key, i);
    ApartDrop(src.lanes, dst.lanes, i);
    DropSplits(keys, vals, src, dst, hand, contents, i, key);
  }

  lemma DropSplits<K, V>(keys: seq<K>, vals: seq<V>, src: Layout<K>, dst: Layout<K>,
                         hand: map<K, V>, contents: map<K, V>, i: nat, key: K)
    requires |src.lanes| <= |keys| && |dst.lanes| <= |keys| && i < |dst.lanes| <= |vals|
    requires Placed(src.lanes, keys, src.loc) && Placed(dst.lanes, keys, dst.loc)
    requires dst.lanes[i] != Live && (i < |src.lanes| ==> src.lanes[i] != Live) && key in hand
    requires SplitsInto(vals, src.loc, dst.loc, hand, contents)
    ensures SplitsInto(vals[i := hand[key]], src.loc, dst.loc[key := i], hand - {key}, contents)
  {
  }

  /** One kick: the pair in hand goes into a bucket of the new layout, and the pair that was still
      live there in the old layout comes into hand. The old layout loses a bucket. */
  lemma RehashKick<K, V>(hash: K -> nat, keys: seq<K>, vals: seq<V>, src: Layout<K>, dst: Layout<K>,
                         key: K, val: V, contents: map<K, V>, i: nat)
    requires Rehashing(hash, keys, vals, src, dst, map[key := val], contents)
    requires i < |src.lanes| && src.lanes[i] == Live
    requires i < |dst.lanes| && dst.lanes[i] == Empty && Reachable(dst.lanes, hash(key), i)
    ensures Rehashing(hash, keys[i := key], vals[i := val], src.Without(i, keys[i]), dst.With(i, key),
                      map[keys[i] := vals[i]], contents)
    ensures |src.Without(i, keys[i]).loc| < |src.loc|
  {
    var hand := map[key := val][keys[i] := vals[i]];
    RehashLift(hash, keys, vals, src, dst, map[key := val], contents, i);
    RehashDrop(hash, keys, vals, src.Without(i, keys[i]), dst, hand, contents, i, key);
    HandExchange(key, val, keys[i], vals[i]);
  }

  lemma HandExchange<K, V>(key: K, val: V, key': K, val': V)
    requires key != key'
    ensures map[key := val][key' := val'] - {key} == map[key' := val']
  {
  }

  /** The last pair goes into a bucket that nobody holds. */
  lemma RehashSettle<K, V>(hash: K -> nat, keys: seq<K>, vals: seq<V>, src: Layout<K>, dst: Layout<K>,
                           key: K, val: V, contents: map<K, V>, i: nat)
    requires Rehashing(hash, keys, vals, src, dst, map[key := val], contents)
    requires i < |dst.lanes| && dst.lanes[i] == Empty && (i < |src.lanes| ==> src.lanes[i] != Live)
    requires Reachable(dst.lanes, hash(key), i)
    ensures Rehashing(hash, keys[i := key], vals[i := val], src, dst.With(i, key), map[], contents)
  {
    RehashDrop(hash, keys, vals, src, dst, map[key := val], contents, i, key);
    HandEmptied(key, val);
  }

  lemma HandEmptied<K, V>(key: K, val: V)
    ensures map[key := val] - {key} == map[]
  {
  }

  /** Whether bucket i is still live in the old layout, so that its pair must be kicked out. */
  ghost predicate Kicks<K>(src: Layout<K>, i: nat) {
    i < |src.lanes| && src.lanes[i] == Live
  }

  /** Either way one round keeps every pair accounted for. */
  lemma RehashRound<K, V>(hash: K -> nat, keys: seq<K>, vals: seq<V>, src: Layout<K>, dst: Layout<K>,
                          key: K, val: V, contents: map<K, V>, i: nat)
      returns (src': Layout<K>, hand': map<K, V>)
    requires Rehashing(hash, keys, vals, src, dst, map[key := val], contents)
    requires i < |dst.lanes| && dst.lanes[i] == Empty && Reachable(dst.lanes, hash(key), i)
    ensures i < |keys| && i < |vals|
    ensures Rehashing(hash, keys[i := key], vals[i := val], src', dst.With(i, key), hand', contents)
    ensures Kicks(src, i) ==>
              src' == src.Without(i, keys[i]) && hand' == map[keys[i] := vals[i]] && |src'.loc| < |src.loc|
    ensures !Kicks(src, i) ==> src' == src && hand' == map[]
    ensures StaysDead(src.lanes, src'.lanes)
  {
    if Kicks(src, i) {
      RehashKick(hash, keys, vals, src, dst, key, val, contents, i);
      src', hand' := src.Without(i, keys[i]), map[keys[i] := vals[i]];
    } else {
      RehashSettle(hash, keys, vals, src, dst, key, val, contents, i);
      src', hand' := src, map[];
    }
  }

  /** As long as a pair is in hand the new layout has an empty bucket on its probe path. */
  lemma RehashHasRoom<K, V>(hash: K -> nat, keys: seq<K>, vals: seq<V>, src: Layout<K>, dst: Layout<K>,
                            hand: map<K, V>, contents: map<K, V>, h: nat) returns (s: nat)
    requires Rehashing(hash, keys, vals, src, dst, hand, contents)
    requires IsPow2(|dst.lanes|) && 4 <= |dst.lanes| <= TWO_TO_THE_32 && |contents| < UpperBound(|dst.lanes|)
    ensures s < |dst.lanes| && dst.lanes[Bucket(h, s, |dst.lanes|)] == Empty
    ensures forall j :: 0 <= j < |dst.lanes| ==> dst.lanes[j] == Live || dst.lanes[j] == Empty
  {
    SubsetCount(dst.loc.Keys, contents.Keys);
    UpperBoundLeavesRoom(|dst.lanes|);
    s := ProbeMeetsEmpty(dst.lanes, h);
  }

  lemma SubsetCount<T>(a: set<T>, b: set<T>)
    requires a <= b
    ensures |a| <= |b|
  {
    assert b == a + (b - a);
  }

  /** Only the keys of the first |lanes| buckets matter. */
  lemma LayoutPrefix<K>(hash: K -> nat, lanes: seq<Lane>, keys: seq<K>, keys': seq<K>, loc: map<K, nat>)
    requires |lanes| <= |keys| && |lanes| <= |keys'| && keys[..|lanes|] == keys'[..|lanes|]
    requires Placed(lanes, keys, loc)
    ensures Placed(lanes, keys', loc)
    ensures AllReachable(hash, lanes, keys) ==> AllReachable(hash, lanes, keys')
  {
    assert forall i :: 0 <= i < |lanes| ==> keys[i] == keys[..|lanes|][i] == keys'[..|lanes|][i] == keys'[i];
  }

  /** Before the first bucket is moved everything is in the old layout. */
  lemma RehashStart<K(!new), V>(hash: K -> nat, keys: seq<K>, vals: seq<V>, src: Layout<K>, newN: nat,
                                contents: map<K, V>)
    requires |src.lanes| <= |keys| && |src.lanes| <= |vals| && newN <= |keys| && newN <= |vals|
    requires Placed(src.lanes, keys, src.loc) && Spells(src.loc, vals, contents)
    ensures Rehashing(hash, keys, vals, src, AllEmpty(newN), map[], contents)
  {
    NothingTaken(newN);
  }

  /** When no bucket of the old layout is live, the new layout holds everything. */
  lemma RehashEnd<K(!new), V>(hash: K -> nat, keys: seq<K>, vals: seq<V>, src: Layout<K>, dst: Layout<K>,
                              contents: map<K, V>)
    requires Rehashing(hash, keys, vals, src, dst, map[], contents)
    requires DeadBelow(src.lanes, |src.lanes|)
    ensures |dst.loc| == |contents| == |Taken(dst.lanes)| == |LiveBuckets(dst.lanes)|
    ensures Spells(dst.loc, vals, contents)
    ensures Placed(dst.lanes, keys, dst.loc) && AllReachable(hash, dst.lanes, keys)
    ensures forall i :: 0 <= i < |dst.lanes| ==> dst.lanes[i] == Live || dst.lanes[i] == Empty
  {
    assert forall k :: k !in src.loc;
    assert LiveBuckets(dst.lanes) == Taken(dst.lanes);
    SameKeysSameSize(contents, dst.loc);
  }

  lemma SameKeysSameSize<K, V, W>(a: map<K, V>, b: map<K, W>)
    requires forall k :: k in a <==> k in b
    ensures |a| == |b|
  {
    assert a.Keys == b.Keys;
    assert |a| == |a.Keys| == |b.Keys| == |b|;
  }

  /** The outer loop reaches a live bucket: its pair comes into hand. */
  lemma RehashPick<K, V>(hash: K -> nat, keys: seq<K>, vals: seq<V>, src: Layout<K>, dst: Layout<K>,
                         contents: map<K, V>, j: nat)
    requires Rehashing(hash, keys, vals, src, dst, map[], contents)
    requires j < |src.lanes| && src.lanes[j] == Live
    ensures Rehashing(hash, keys, vals, src.Without(j, keys[j]), dst, map[keys[j] := vals[j]], contents)
    ensures StaysDead(src.lanes, src.Without(j, keys[j]).lanes)
  {
    RehashLift(hash, keys, vals, src, dst, map[], contents, j);
    HandFilled(keys[j], vals[j]);
  }

  lemma HandFilled<K, V>(key: K, val: V)
    ensures map[][key := val] == map[key := val]
  {
  }
}
