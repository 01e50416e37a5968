/** Two events that share the highest level: where the builds of the event table part. */
module EventTies {
  import opened KHash
  import opened Context
  import opened EventNames
  import opened EventBits
  import opened Probe
  import opened Bits
  import opened TableModel
  import opened TableState
  import opened EventTable
  import opened EventApi

  const TIED := NO_CONTEXT.(level := 1)

  /** Attach a context of level 1 to the event with this index. */
  function AttachTied(idx: nat): Call
    requires 0 < idx <= EVENT_COUNT
  {
    Attach(Some(EVENT_NAMES[idx - 1]), TIED.policy, TIED.norm, TIED.lat, 1)
  }

  lemma AttachTiedStores(idx: nat)
    requires 0 < idx <= EVENT_COUNT
    ensures EventIdx(AttachTied(idx).name) == idx && Attached(AttachTied(idx)) == TIED
  {
    KnownNames(AttachTied(idx).name);
  }

  /** Both event bits are set. */
  ghost predicate BothSet(bits: SystemData)
    reads bits, bits.eventBits
  {
    bits.Valid() && bits.IsSet(1) && bits.IsSet(2)
  }

  lemma NoneStored(es: seq<Entry>, k: int)
    requires forall i :: 0 <= i < |es| ==> !es[i].inUse
    ensures !exists i :: Stores(es, i, k)
  {
  }

  /** Attached first, event 2 has slot 0. */
  lemma FirstSlotTaken(es: seq<Entry>, es': seq<Entry>)
    requires |es| == MAX_LOCAL_EVENT_CTX && StoredIn(es, 2, TIED, es')
    requires forall i :: 0 <= i < |es| ==> !es[i].inUse
    ensures es' == es[0 := Entry(2, true, TIED)]
  {
    NoneStored(es, 2);
    assert FirstFree(es, 0);
  }

  /** And then event 1 has slot 1. */
  lemma SecondSlotTaken(es: seq<Entry>, es': seq<Entry>)
    requires |es| == MAX_LOCAL_EVENT_CTX && es[0] == Entry(2, true, TIED) && StoredIn(es, 1, TIED, es')
    requires forall i :: 1 <= i < |es| ==> !es[i].inUse
    ensures es' == es[1 := Entry(1, true, TIED)]
  {
    assert !exists i :: Stores(es, i, 1);
    assert FirstFree(es, 1);
  }

  /** The first slot of the highest level is that of event 2. */
  lemma ArrayRunsTwo(es: seq<Entry>, bits: seq<U64>, k: int)
    requires |es| > 1 && es[0] == Entry(2, true, TIED) && |bits| == 16 && EventSet(bits, 2)
    requires FirstSlot(es, bits, 1, k)
    ensures k == 2
  {
    assert ActiveSlot(es, bits, 0);
  }

  method ArrayTie(bits: SystemData) returns (choice: Choice)
    requires BothSet(bits)
    ensures choice == Event(2)
  {
    var t := new ArrayTable();
    ghost var es0 := t.entries[..];
    AttachTiedStores(2);
    AttachTiedStores(1);
    var r := CallArray(t, AttachTied(2));
    FirstSlotTaken(es0, t.entries[..]);
    ghost var es1 := t.entries[..];
    r := CallArray(t, AttachTied(1));
    SecondSlotTaken(es1, t.entries[..]);
    TestableWhenKnown(t.contents, bits.eventBits[..]);
    TieSelects(t.contents, bits.eventBits[..]);
    var level;
    level, choice := t.Select(NO_CONTEXT, bits);
    ArrayRunsTwo(t.entries[..], bits.eventBits[..], choice.idx);
  }

  /** Any selection is an event of level 1. */
  lemma TieSelects(m: map<int, LocalContext>, bits: seq<U64>)
    requires AllTestable(m, bits) && 2 in m && m[2] == TIED && EventSet(bits, 2)
    requires forall k :: k in m ==> m[k].level <= 1
    ensures forall level, choice :: IsSelection(m, bits, 0, level, choice) ==> level == 1 && choice.Event?
  {
    assert Active(m, bits, 2);
  }

  /** With only buckets i and j taken, the probe of h either starts at its own bucket x or has passed its
      first bucket, which is then one of the two. */
  lemma HomeOrTaken(lanes: seq<Lane>, h: nat, x: nat, i: nat, j: nat)
    requires |lanes| == 4 && Taken(lanes) == {i, j} && Reachable(lanes, h, x)
    ensures x == h % 4 || h % 4 == i || h % 4 == j
  {
    var s: nat :| OnPath(lanes, h, s, x);
    if s > 0 {
      assert lanes[Bucket(h, 0, 4)] != Empty;
      assert h % 4 in Taken(lanes);
    }
  }

  /** The probe of event 2 reaches bucket 1 only past bucket 3. */
  lemma PassesThree(lanes: seq<Lane>)
    requires |lanes| == 4
    ensures Reachable(lanes, 2, 1) ==> 3 in Taken(lanes)
  {
    if s: nat :| OnPath(lanes, 2, s, 1) {
      assert Bucket(2, 0, 4) == 2 && Bucket(2, 1, 4) == 3;
      assert lanes[Bucket(2, 1, 4)] != Empty;
    }
  }

  lemma TakenAre(lanes: seq<Lane>, i: nat, j: nat)
    requires i < |lanes| && j < |lanes| && i != j && lanes[i] == Live && lanes[j] == Live && |Taken(lanes)| == 2
    ensures Taken(lanes) == {i, j}
  {
    SubsetSameSize({i, j}, Taken(lanes));
  }

  /** A khash table of four buckets that holds just events 1 and 2, and no tombstone, holds each in the
      bucket of its own index. */
  lemma BucketsForced(layout: Layout<int>, keys: seq<int>, vals: seq<LocalContext>, m: map<int, LocalContext>)
    requires Stands(IntHash, layout, keys, vals, m, 2) && |layout.lanes| == 4 && 1 in m && 2 in m
    ensures layout.lanes[1] == Live && keys[1] == 1 && layout.lanes[2] == Live && keys[2] == 2
    ensures vals[1] == m[1] && layout.lanes[0] != Live
  {
    StandsMeans(IntHash, layout, keys, vals, m, 2);
    StandsKey(IntHash, layout, keys, vals, m, 2, 1);
    StandsKey(IntHash, layout, keys, vals, m, 2, 2);
    var i, j := layout.loc[1], layout.loc[2];
    TakenAre(layout.lanes, i, j);
    HomeOrTaken(layout.lanes, IntHash(1), i, i, j);
    HomeOrTaken(layout.lanes, IntHash(2), j, i, j);
    PassesThree(layout.lanes);
    assert 0 !in Taken(layout.lanes);
  }

  /** The first bucket of the highest level is that of event 1. */
  lemma HashRunsOne(layout: Layout<int>, keys: seq<int>, vals: seq<LocalContext>, m: map<int, LocalContext>,
                    bits: seq<U64>, k: int)
    requires Stands(IntHash, layout, keys, vals, m, 2) && |layout.lanes| == 4
    requires 1 in m && 2 in m && m[1] == TIED && |bits| == 16 && EventSet(bits, 1)
    requires FirstBucket(layout.lanes, keys, vals, bits, 1, k)
    ensures k == 1
  {
    BucketsForced(layout, keys, vals, m);
    assert ActiveBucket(layout.lanes, keys, bits, 1);
  }

  /** The attach of event 2 to an empty khash table makes it four buckets. */
  method AttachFirst() returns (t: HashTable)
    ensures t.Valid() && t.table.hash == IntHash && t.table.contents == map[2 := TIED]
    ensures t.table.nBuckets == 4 && t.table.nOccupied <= 1 && t.table.upperBound == 3
    ensures fresh(t.table) && forall o :: o in t.table.Arrays() ==> fresh(o)
  {
    t := new HashTable();
    AttachTiedStores(2);
    var r := CallHash(t, AttachTied(2), NO_FAILURE);
  }

  /** The attach of event 1 then leaves two of them taken. */
  method AttachBoth() returns (t: HashTable)
    ensures t.Valid() && t.table.hash == IntHash && t.table.contents == map[1 := TIED, 2 := TIED]
    ensures t.table.nBuckets == 4 && t.table.nOccupied == 2
  {
    t := AttachFirst();
    AttachTiedStores(1);
    var r := CallHash(t, AttachTied(1), NO_FAILURE);
    assert t.table.contents == map[1 := TIED, 2 := TIED];
    StandsCounts(t.table.hash, t.table.layout, t.table.keys[..], t.table.vals[..], t.table.contents, t.table.nOccupied);
  }

  method HashTie(bits: SystemData) returns (choice: Choice)
    requires BothSet(bits)
    ensures choice == Event(1)
  {
    var t := AttachBoth();
    TestableWhenKnown(t.table.contents, bits.eventBits[..]);
    TieSelects(t.table.contents, bits.eventBits[..]);
    var level;
    level, choice := t.Select(NO_CONTEXT, bits);
    HashRunsOne(t.table.layout, t.table.keys[..], t.table.vals[..], t.table.contents, bits.eventBits[..], choice.idx);
  }

  /** With both event bits set, attaching event 2 and then event 1 at one level makes a tick run event 2 in
      the array build and event 1 in the khash build. */
  method TiesDepend(bits: SystemData) returns (arrayChoice: Choice, hashChoice: Choice)
    requires BothSet(bits)
    ensures arrayChoice == Event(2) && hashChoice == Event(1)
  {
    arrayChoice := ArrayTie(bits);
    hashChoice := HashTie(bits);
  }
}
