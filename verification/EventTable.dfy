/** The per-thread table of event contexts in its two builds, an array of eight entries and a khash
    map, and the selection handle_tick makes from it (inc/robflex_def.h, src/dym_hook.c). */
module EventTable {
  import opened Context
  import opened EventNames
  import opened EventBits
  import opened Bits
  import opened TableModel
  import opened TableState
  import opened KHash
  import opened Probe

  const MAX_LOCAL_EVENT_CTX := 8

  datatype Entry = Entry(eventIdx: int, inUse: bool, ctx: LocalContext)

  predicate InUse(es: seq<Entry>, i: int) {
    0 <= i < |es| && es[i].inUse
  }

  predicate Stores(es: seq<Entry>, i: int, k: int) {
    InUse(es, i) && es[i].eventIdx == k
  }

  /** The entries in use hold exactly the pairs of m, each once. */
  ghost predicate Holds(es: seq<Entry>, m: map<int, LocalContext>) {
    && (forall i :: InUse(es, i) ==> es[i].eventIdx in m && m[es[i].eventIdx] == es[i].ctx)
    && (forall i, j :: InUse(es, i) && InUse(es, j) && es[i].eventIdx == es[j].eventIdx ==> i == j)
    && (forall k :: k in m ==> k > EVENT_NONE && exists i :: Stores(es, i, k))
  }

  predicate FirstFree(es: seq<Entry>, i: int) {
    0 <= i < |es| && !es[i].inUse && forall j :: 0 <= j < i ==> es[j].inUse
  }

  /** The context goes into the slot of its event, or else into the first free one. */
  ghost predicate StoredIn(es: seq<Entry>, k: int, ctx: LocalContext, es': seq<Entry>) {
    if exists i :: Stores(es, i, k) then exists i :: Stores(es, i, k) && es' == es[i := es[i].(ctx := ctx)]
    else exists i :: FirstFree(es, i) && es' == es[i := Entry(k, true, ctx)]
  }

  function CountUsed(es: seq<Entry>): nat {
    if es == [] then 0 else CountUsed(es[..|es| - 1]) + if es[|es| - 1].inUse then 1 else 0
  }

  lemma {:induction false} CountFull(es: seq<Entry>)
    ensures CountUsed(es) <= |es|
    ensures CountUsed(es) == |es| <==> forall i :: 0 <= i < |es| ==> es[i].inUse
  {
    if es == [] {
    } else {
      CountFull(es[..|es| - 1]);
      assert forall i :: 0 <= i < |es| ==> i == |es| - 1 || es[i] == es[..|es| - 1][i];
    }
  }

  /** The number of slots in use is the number of stored events. */
  lemma {:induction false} HoldsCounts(es: seq<Entry>, m: map<int, LocalContext>)
    requires Holds(es, m)
    ensures CountUsed(es) == |m|
  {
    if es == [] {
      assert forall k :: k in m ==> exists i :: Stores(es, i, k);
      assert m == map[];
    } else {
      var n := |es| - 1;
      var k := es[n].eventIdx;
      var rest := if es[n].inUse then m - {k} else m;
      HoldsWithoutLast(es, m);
      HoldsCounts(es[..n], rest);
      if es[n].inUse {
        assert InUse(es, n);
        MapShrinks(m, k);
      }
    }
  }

  lemma HoldsWithoutLast(es: seq<Entry>, m: map<int, LocalContext>)
    requires Holds(es, m) && es != []
    ensures var last := es[|es| - 1];
            Holds(es[..|es| - 1], if last.inUse then m - {last.eventIdx} else m)
  {
    var n := |es| - 1;
    var front, last := es[..n], es[n];
    var rest := if last.inUse then m - {last.eventIdx} else m;
    assert last.inUse ==> InUse(es, n);
    forall i | InUse(front, i)
      ensures InUse(es, i) && front[i] == es[i] && front[i].eventIdx in rest && rest[front[i].eventIdx] == front[i].ctx
    {
      assert InUse(es, i);
    }
    forall k | k in rest ensures exists i :: Stores(front, i, k) {
      var i :| Stores(es, i, k);
      assert Stores(front, i, k);
    }
  }

  lemma HoldsUpdate(es: seq<Entry>, m: map<int, LocalContext>, i: nat, ctx: LocalContext)
    requires Holds(es, m) && InUse(es, i)
    ensures Holds(es[i := es[i].(ctx := ctx)], m[es[i].eventIdx := ctx])
  {
    var es', k := es[i := es[i].(ctx := ctx)], es[i].eventIdx;
    var m' := m[k := ctx];
    forall j | InUse(es', j)
      ensures InUse(es, j) && es'[j].eventIdx == es[j].eventIdx && es'[j].eventIdx in m' &&
              m'[es'[j].eventIdx] == es'[j].ctx
    {
      assert InUse(es, j);
    }
    forall q | q in m ensures q > EVENT_NONE && exists j :: Stores(es', j, q) {
      var j :| Stores(es, j, q);
      assert Stores(es', j, q);
    }
  }

  lemma HoldsInsert(es: seq<Entry>, m: map<int, LocalContext>, i: nat, k: int, ctx: LocalContext)
    requires Holds(es, m) && i < |es| && !InUse(es, i) && k !in m && k > EVENT_NONE
    ensures Holds(es[i := Entry(k, true, ctx)], m[k := ctx])
  {
    var es' := es[i := Entry(k, true, ctx)];
    assert forall j :: InUse(es', j) <==> j == i || InUse(es, j);
    assert Stores(es', i, k);
    forall q | q in m ensures exists j :: Stores(es', j, q) {
      var j :| Stores(es, j, q);
      assert Stores(es', j, q);
    }
  }

  lemma HoldsErase(es: seq<Entry>, m: map<int, LocalContext>, i: nat)
    requires Holds(es, m) && InUse(es, i)
    ensures Holds(es[i := es[i].(inUse := false, eventIdx := EVENT_NONE)], m - {es[i].eventIdx})
  {
    var es' := es[i := es[i].(inUse := false, eventIdx := EVENT_NONE)];
    assert forall j :: InUse(es', j) <==> j != i && InUse(es, j);
    forall q | q in m - {es[i].eventIdx} ensures exists j :: Stores(es', j, q) {
      var j :| Stores(es, j, q);
      assert Stores(es', j, q);
    }
  }

  /** Which context handle_tick runs: the thread's own, or that of an event. */
  datatype Choice = Default | Event(idx: int)

  ghost predicate Active(m: map<int, LocalContext>, bits: seq<U64>, k: int)
    requires AllTestable(m, bits)
  {
    k in m && EventSet(bits, k)
  }

  ghost predicate AllTestable(m: map<int, LocalContext>, bits: seq<U64>) {
    forall k :: k in m ==> 0 < k < 64 * |bits|
  }

  /** The choice has the given level, which no active event exceeds; an event is chosen only above the
      default level. */
  ghost predicate IsSelection(m: map<int, LocalContext>, bits: seq<U64>, base: int, level: int, choice: Choice)
    requires AllTestable(m, bits)
  {
    && (match choice
        case Default => level == base
        case Event(k) => Active(m, bits, k) && m[k].level == level > base)
    && forall k :: Active(m, bits, k) ==> m[k].level <= level
  }

  /** Two events above the default level share the highest active level. */
  ghost predicate Tied(m: map<int, LocalContext>, bits: seq<U64>, base: int, level: int, j: int, k: int)
    requires AllTestable(m, bits)
  {
    j != k && IsSelection(m, bits, base, level, Event(j)) && IsSelection(m, bits, base, level, Event(k))
  }

  ghost predicate AnyTie(m: map<int, LocalContext>, bits: seq<U64>, base: int, level: int)
    requires AllTestable(m, bits)
  {
    exists j, k :: Tied(m, bits, base, level, j, k)
  }

  ghost predicate SoleSelection(m: map<int, LocalContext>, bits: seq<U64>, base: int, choice: Choice)
    requires AllTestable(m, bits)
  {
    forall l, c :: IsSelection(m, bits, base, l, c) ==> c == choice
  }

  /** All selections from a table agree on the level; they agree on the context exactly when the
      highest level is not shared by two events. In particular a tie with the default keeps the
      default. */
  lemma SelectionsAgree(m: map<int, LocalContext>, bits: seq<U64>, base: int, level: int, choice: Choice)
    requires AllTestable(m, bits) && IsSelection(m, bits, base, level, choice)
    ensures forall l, c :: IsSelection(m, bits, base, l, c) ==> l == level
    ensures SoleSelection(m, bits, base, choice) <==> !AnyTie(m, bits, base, level)
  {
    if l, c :| IsSelection(m, bits, base, l, c) && c != choice {
      if c.Event? && choice.Event? {
        assert Tied(m, bits, base, level, c.idx, choice.idx);
      }
    }
    if j, k :| Tied(m, bits, base, level, j, k) {
      assert Event(j) != Event(k);
    }
  }

  /** No stored context has index 0, so the bit that unknown names reach never matters. */
  lemma UnknownNamesIrrelevant(m: map<int, LocalContext>, bits: seq<U64>, bits': seq<U64>, base: int, level: int,
                               choice: Choice)
    requires AllTestable(m, bits) && |bits| == |bits'|
    requires forall k :: 0 < k < 64 * |bits| ==> (EventSet(bits, k) <==> EventSet(bits', k))
    ensures IsSelection(m, bits, base, level, choice) <==> IsSelection(m, bits', base, level, choice)
  {
    assert forall k :: Active(m, bits, k) <==> Active(m, bits', k);
  }

  /** The array build. */
  class ArrayTable {
    var count: int
    const entries: array<Entry>

    /** The finite map the table stands for. */
    ghost var contents: map<int, LocalContext>

    ghost predicate Valid()
      reads this, entries
    {
      && entries.Length == MAX_LOCAL_EVENT_CTX
      && Holds(entries[..], contents)
      && count == |contents|
    }

    /** robflex_event_table_init */
    constructor ()
      ensures Valid() && contents == map[] && fresh(entries)
    {
      entries := new Entry[MAX_LOCAL_EVENT_CTX](_ => Entry(EVENT_NONE, false, NO_CONTEXT));
      count := 0;
      contents := map[];
    }

    /** robflex_event_table_find_entry: the slot of the event, or -1. */
    method FindEntry(eventIdx: int) returns (slot: int)
      requires Valid()
      ensures slot == -1 <==> eventIdx !in contents
      ensures slot != -1 ==> 0 <= slot < entries.Length && Stores(entries[..], slot, eventIdx)
    {
      if eventIdx <= EVENT_NONE {
        return -1;
      }
      for i := 0 to MAX_LOCAL_EVENT_CTX
        invariant forall j :: 0 <= j < i ==> !Stores(entries[..], j, eventIdx)
      {
        if entries[i].inUse && entries[i].eventIdx == eventIdx {
          assert Stores(entries[..], i, eventIdx);
          return i;
        }
      }
      return -1;
    }

    /** robflex_event_table_upsert: fails exactly for a non-positive index or a new one when all slots
        are used. */
    method Upsert(eventIdx: int, ctx: LocalContext) returns (r: int)
      requires Valid()
      modifies this, entries
      ensures Valid()
      ensures r == if eventIdx > EVENT_NONE && (eventIdx in old(contents) || |old(contents)| < MAX_LOCAL_EVENT_CTX)
                   then 0 else -1
      ensures contents == if r == 0 then old(contents)[eventIdx := ctx] else old(contents)
      ensures if r == 0 then StoredIn(old(entries[..]), eventIdx, ctx, entries[..]) else entries[..] == old(entries[..])
    {
      if eventIdx <= EVENT_NONE {
        return -1;
      }
      ghost var es := entries[..];
      HoldsCounts(es, contents);
      CountFull(es);
      var existing := FindEntry(eventIdx);
      if existing != -1 {
        HoldsUpdate(es, contents, existing, ctx);
        entries[existing] := entries[existing].(ctx := ctx);
        contents := contents[eventIdx := ctx];
        assert entries[..] == es[existing := es[existing].(ctx := ctx)];
        return 0;
      }
      for i := 0 to MAX_LOCAL_EVENT_CTX
        invariant Valid() && entries[..] == es && contents == old(contents)
        invariant forall j :: 0 <= j < i ==> es[j].inUse
      {
        if !entries[i].inUse {
          assert FirstFree(es, i);
          HoldsInsert(es, contents, i, eventIdx, ctx);
          entries[i] := Entry(eventIdx, true, ctx);
          count := count + 1;
          contents := contents[eventIdx := ctx];
          assert entries[..] == es[i := Entry(eventIdx, true, ctx)];
          return 0;
        }
      }
      return -1;
    }

    /** robflex_event_table_erase */
    method Erase(eventIdx: int) returns (r: int)
      requires Valid()
      modifies this, entries
      ensures Valid()
      ensures r == if eventIdx in old(contents) then 0 else -1
      ensures contents == if r == 0 then old(contents) - {eventIdx} else old(contents)
    {
      var slot := FindEntry(eventIdx);
      if slot == -1 {
        return -1;
      }
      ghost var es := entries[..];
      HoldsErase(es, contents, slot);
      MapShrinks(contents, eventIdx);
      entries[slot] := entries[slot].(inUse := false, eventIdx := EVENT_NONE);
      if count > 0 {
        count := count - 1;
      }
      contents := contents - {eventIdx};
      assert entries[..] == es[slot := es[slot].(inUse := false, eventIdx := EVENT_NONE)];
      return 0;
    }

    /** robflex_event_table_get_ctx */
    method GetCtx(eventIdx: int) returns (ctx: Option<LocalContext>)
      requires Valid()
      ensures ctx == if eventIdx in contents then Some(contents[eventIdx]) else None
    {
      var slot := FindEntry(eventIdx);
      if slot == -1 {
        return None;
      }
      return Some(entries[slot].ctx);
    }

    /** A store through the pointer robflex_event_table_get_ctx returned for a stored event. */
    method SetCtx(eventIdx: int, ctx: LocalContext)
      requires Valid() && eventIdx in contents
      modifies this`contents, entries
      ensures Valid() && contents == old(contents)[eventIdx := ctx]
    {
      ghost var es := entries[..];
      var slot := FindEntry(eventIdx);
      HoldsUpdate(es, contents, slot, ctx);
      entries[slot] := entries[slot].(ctx := ctx);
      contents := contents[eventIdx := ctx];
      assert entries[..] == es[slot := es[slot].(ctx := ctx)];
    }

    /** The scan of handle_tick; among equal levels the lowest slot wins. */
    method Select(own: LocalContext, bits: SystemData) returns (level: int, choice: Choice)
      requires Valid() && bits.Valid() && AllTestable(contents, bits.eventBits[..])
      ensures IsSelection(contents, bits.eventBits[..], own.level, level, choice)
      ensures choice.Event? ==> FirstSlot(entries[..], bits.eventBits[..], level, choice.idx)
    {
      level, choice := own.level, Default;
      for i := 0 to MAX_LOCAL_EVENT_CTX
        invariant match choice
                  case Default => level == own.level
                  case Event(k) => Active(contents, bits.eventBits[..], k) && contents[k].level == level > own.level &&
                                   FirstSlot(entries[..], bits.eventBits[..], level, k)
        invariant forall j :: 0 <= j < i && ActiveSlot(entries[..], bits.eventBits[..], j) ==>
                    entries[j].ctx.level <= level
      {
        if !entries[i].inUse {
          continue;
        }
        assert InUse(entries[..], i);
        var active := bits.TestEvent(entries[i].eventIdx);
        if active && entries[i].ctx.level > level {
          level, choice := entries[i].ctx.level, Event(entries[i].eventIdx);
          assert ActiveSlot(entries[..], bits.eventBits[..], i);
        }
      }
      forall k | Active(contents, bits.eventBits[..], k) ensures contents[k].level <= level {
        var j :| Stores(entries[..], j, k);
        assert ActiveSlot(entries[..], bits.eventBits[..], j);
      }
    }
  }

  ghost predicate ActiveSlot(es: seq<Entry>, bits: seq<U64>, j: int) {
    InUse(es, j) && 0 <= es[j].eventIdx < 64 * |bits| && EventSet(bits, es[j].eventIdx)
  }

  /** Event k is active with this level in some slot, and no active slot before it has that level. */
  ghost predicate FirstSlot(es: seq<Entry>, bits: seq<U64>, level: int, k: int) {
    exists i :: ActiveSlot(es, bits, i) && es[i].eventIdx == k && es[i].ctx.level == level &&
      forall j :: 0 <= j < i && ActiveSlot(es, bits, j) ==> es[j].ctx.level < level
  }

  /** The event indices a table stores are positive values of a C int. */
  ghost predicate AllIndices(m: map<int, LocalContext>) {
    forall k :: k in m ==> EVENT_NONE < k < MAX_BUCKETS
  }

  /** So there are fewer of them than khash can have buckets. */
  lemma IndicesFit(m: map<int, LocalContext>)
    requires AllIndices(m)
    ensures |m| < MAX_BUCKETS
  {
    var range: set<int> := Below(MAX_BUCKETS);
    BelowCount(MAX_BUCKETS);
    forall k | k in m.Keys ensures k in range - {0} {
      assert k in m && InRange(k, MAX_BUCKETS);
    }
    assert InRange(0, MAX_BUCKETS);
    SubsetCount(m.Keys, range - {0});
  }

  /** kh_int_hash_func: the key as a khint32_t. */
  function IntHash(k: int): nat {
    k % 0x1_0000_0000
  }

  /** The khash build. */
  class HashTable {
    const table: Table<int, LocalContext>

    ghost predicate Valid()
      reads table, table.flags, table.keys, table.vals
    {
      table.Valid() && AllIndices(table.contents)
    }

    /** robflex_event_table_init */
    constructor ()
      ensures Valid() && table.contents == map[] && table.nBuckets == 0 && table.hash == IntHash
      ensures fresh(table) && fresh(table.Arrays())
    {
      table := new Table(IntHash);
    }

    /** robflex_event_table_get_ctx */
    method GetCtx(eventIdx: I32) returns (ctx: Option<LocalContext>)
      requires Valid()
      ensures ctx == if eventIdx in table.contents then Some(table.contents[eventIdx]) else None
    {
      if eventIdx <= EVENT_NONE {
        return None;
      }
      var k := table.Get(eventIdx);
      if k == table.nBuckets {
        return None;
      }
      return Some(table.vals[k]);
    }

    /** A store through the pointer robflex_event_table_get_ctx returned for a stored event. */
    method SetCtx(eventIdx: I32, ctx: LocalContext)
      requires Valid() && eventIdx in table.contents
      modifies table`contents, table.vals
      ensures Valid() && table.contents == old(table.contents)[eventIdx := ctx]
    {
      var k := table.Get(eventIdx);
      table.SetValue(k, ctx);
    }

    /** robflex_event_table_upsert: fails exactly for a non-positive index, or when an allocation fails. */
    method Upsert(eventIdx: I32, ctx: LocalContext, alloc: Alloc) returns (r: int)
      requires Valid()
      modifies table, table.Arrays()
      ensures Valid() && forall o :: o in table.Arrays() ==> fresh(o) || o in old(table.Arrays())
      ensures r == 0 || (r == -1 && (eventIdx <= EVENT_NONE || !alloc.AllSucceed()))
      ensures eventIdx <= EVENT_NONE ==> r == -1
      ensures table.contents == if r == 0 then old(table.contents)[eventIdx := ctx] else old(table.contents)
      ensures r == 0 ==>
                table.nBuckets == old(table.BucketsForPut()) && table.nOccupied <= old(table.OccupiedForPut()) + 1
    {
      r := -1;
      if eventIdx > EVENT_NONE {
        IndicesFit(table.contents);
        var absent := table.PutValue(eventIdx, ctx, alloc);
        r := if absent < 0 then -1 else 0;
      }
    }

    /** robflex_event_table_erase */
    method Erase(eventIdx: I32) returns (r: int)
      requires Valid()
      modifies table`size, table`layout, table`contents, table.flags
      ensures Valid()
      ensures r == if eventIdx in old(table.contents) then 0 else -1
      ensures table.contents == if r == 0 then old(table.contents) - {eventIdx} else old(table.contents)
    {
      r := -1;
      if eventIdx > EVENT_NONE {
        var k := table.Get(eventIdx);
        if k != table.nBuckets {
          table.Delete(k);
          r := 0;
        }
      }
    }

    /** The scan of handle_tick; among equal levels the lowest bucket wins. */
    method Select(own: LocalContext, bits: SystemData) returns (level: int, choice: Choice)
      requires Valid() && bits.Valid() && AllTestable(table.contents, bits.eventBits[..])
      ensures IsSelection(table.contents, bits.eventBits[..], own.level, level, choice)
      ensures choice.Event? ==>
                FirstBucket(table.layout.lanes, table.keys[..], table.vals[..], bits.eventBits[..], level, choice.idx)
    {
      ghost var lanes, keys, vals, words := table.layout.lanes, table.keys[..], table.vals[..], bits.eventBits[..];
      level, choice := own.level, Default;
      for k := 0 to table.nBuckets
        invariant BestBucket(lanes, keys, vals, words, own.level, k, level, choice)
      {
        ReadersAgree(table.flags[..], lanes, k);
        var best := false;
        if !IsEither(table.flags[..], k) {
          StandsBucket(table.hash, table.layout, keys, vals, table.contents, table.nOccupied, k);
          var active := bits.TestEvent(table.keys[k]);
          if active {
            assert ActiveBucket(lanes, keys, words, k);
            best := table.vals[k].level > level;
          }
        }
        BestBucketStep(lanes, keys, vals, words, own.level, k, level, choice, best);
        if best {
          level, choice := table.vals[k].level, Event(table.keys[k]);
        }
      }
      BestIsSelection(table.hash, table.layout, keys, vals, words, table.contents, own.level, level, choice,
        table.nOccupied);
    }
  }

  ghost predicate ActiveBucket(lanes: seq<Lane>, keys: seq<int>, bits: seq<U64>, i: int) {
    0 <= i < |lanes| && i < |keys| && lanes[i] == Live && 0 <= keys[i] < 64 * |bits| && EventSet(bits, keys[i])
  }

  /** Event e is active with this level in some bucket, and no active bucket before it has that level. */
  ghost predicate FirstBucket(lanes: seq<Lane>, keys: seq<int>, vals: seq<LocalContext>, bits: seq<U64>, level: int,
                              e: int)
    requires |lanes| <= |keys| && |lanes| <= |vals|
  {
    exists i :: ActiveBucket(lanes, keys, bits, i) && keys[i] == e && vals[i].level == level &&
      forall j :: 0 <= j < i && ActiveBucket(lanes, keys, bits, j) ==> vals[j].level < level
  }

  /** The choice among the first n buckets. */
  ghost predicate BestBucket(lanes: seq<Lane>, keys: seq<int>, vals: seq<LocalContext>, bits: seq<U64>, base: int,
                             n: nat, level: int, choice: Choice)
    requires |lanes| <= |keys| && |lanes| <= |vals|
  {
    && (match choice
        case Default => level == base
        case Event(e) => level > base && FirstBucket(lanes, keys, vals, bits, level, e))
    && forall i :: 0 <= i < n && ActiveBucket(lanes, keys, bits, i) ==> vals[i].level <= level
  }

  lemma BestBucketStep(lanes: seq<Lane>, keys: seq<int>, vals: seq<LocalContext>, bits: seq<U64>, base: int,
                       n: nat, level: int, choice: Choice, best: bool)
    requires |lanes| <= |keys| && |lanes| <= |vals| && BestBucket(lanes, keys, vals, bits, base, n, level, choice)
    requires best <==> ActiveBucket(lanes, keys, bits, n) && vals[n].level > level
    ensures if best then BestBucket(lanes, keys, vals, bits, base, n + 1, vals[n].level, Event(keys[n]))
            else BestBucket(lanes, keys, vals, bits, base, n + 1, level, choice)
  {
  }

  lemma BestIsSelection(hash: int -> nat, layout: Layout<int>, keys: seq<int>, vals: seq<LocalContext>, bits: seq<U64>,
                        m: map<int, LocalContext>, base: int, level: int, choice: Choice, occupied: nat)
    requires Stands(hash, layout, keys, vals, m, occupied) && AllTestable(m, bits)
    requires BestBucket(layout.lanes, keys, vals, bits, base, |layout.lanes|, level, choice)
    ensures IsSelection(m, bits, base, level, choice)
  {
    forall k | Active(m, bits, k) ensures m[k].level <= level {
      StandsKey(hash, layout, keys, vals, m, occupied, k);
      assert ActiveBucket(layout.lanes, keys, bits, layout.loc[k]);
    }
    if choice.Event? {
      var i :| ActiveBucket(layout.lanes, keys, bits, i) && keys[i] == choice.idx && vals[i].level == level;
      StandsBucket(hash, layout, keys, vals, m, occupied, i);
    }
  }
}
