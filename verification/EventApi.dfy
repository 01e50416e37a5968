/** Attaching, detaching and querying event contexts (src/robflex_api.c), over either build of the
    event table. */
module EventApi {
  import opened Context
  import opened EventNames
  import opened EventBits
  import opened TableModel
  import opened KHash
  import opened EventTable

  datatype Call =
    | Attach(name: Option<string>, policy: RunPolicy, norm: YieldDemand, lat: LatencyDemand, level: U32)
    | Detach(name: Option<string>)
    | GetPolicy(name: Option<string>)

  /** The context an attach stores. */
  function Attached(c: Call): LocalContext
    requires c.Attach?
  {
    LocalContext(c.policy, c.norm, c.lat, Signed32(c.level), 0, 0)
  }

  /** What a call does to the finite map from event indices to contexts, and what it returns. Attaching
      to a known name always succeeds. */
  function Spec(m: map<int, LocalContext>, c: Call): (map<int, LocalContext>, int) {
    var idx := EventIdx(c.name);
    if idx == EVENT_NONE then (m, -1) else
      match c
      case Attach(_, _, _, _, _) => (m[idx := Attached(c)], 0)
      case Detach(_) => if idx in m then (m - {idx}, 0) else (m, -1)
      case GetPolicy(_) => (m, if idx in m then PolicyCode(m[idx].policy) else -1)
  }

  /** The map after a history of calls, from an empty table. */
  function After(cs: seq<Call>): map<int, LocalContext> {
    if cs == [] then map[] else Spec(After(cs[..|cs| - 1]), cs[|cs| - 1]).0
  }

  function Results(cs: seq<Call>): seq<int> {
    if cs == [] then []
    else Results(cs[..|cs| - 1]) + [Spec(After(cs[..|cs| - 1]), cs[|cs| - 1]).1]
  }

  // What the calls of a history come to for one event.

  /** The last attach or detach of the event. */
  function LastFor(cs: seq<Call>, idx: int): Option<Call> {
    if cs == [] then None else
      var c := cs[|cs| - 1];
      if !c.GetPolicy? && EventIdx(c.name) == idx then Some(c) else LastFor(cs[..|cs| - 1], idx)
  }

  /** An event is attached after a history exactly when its last call but queries attached it, and then with
      what that call said. */
  lemma {:induction false} LastCallDecides(cs: seq<Call>, idx: int)
    requires idx != EVENT_NONE
    ensures match LastFor(cs, idx)
            case Some(Attach(_, policy, norm, lat, level)) =>
              && idx in After(cs) && After(cs)[idx].policy == policy && After(cs)[idx].norm == norm
              && After(cs)[idx].lat == lat && After(cs)[idx].level == Signed32(level)
              && After(cs)[idx].cyclesNum == 0 && After(cs)[idx].avgTimecost == 0
            case _ => idx !in After(cs)
  {
    if cs == [] {
    } else {
      LastCallDecides(cs[..|cs| - 1], idx);
    }
  }

  /** So a query of a known name returns the value of the policy it was last attached with, or -1; a detach
      succeeds exactly when the event is attached, and an attach always. */
  lemma CallsAnswer(cs: seq<Call>, c: Call)
    ensures var idx, r := EventIdx(c.name), Spec(After(cs), c).1;
            if idx == EVENT_NONE then r == -1 else
            match LastFor(cs, idx)
            case Some(Attach(_, policy, _, _, _)) =>
              if c.GetPolicy? then PolicyOf(r) == Some(policy) else r == 0
            case _ =>
              if c.Attach? then r == 0 else r == -1
  {
    if EventIdx(c.name) != EVENT_NONE {
      LastCallDecides(cs, EventIdx(c.name));
    }
  }

  ghost predicate AllKnown(m: map<int, LocalContext>) {
    forall k :: k in m ==> EVENT_NONE < k <= EVENT_COUNT
  }

  lemma SpecKnown(m: map<int, LocalContext>, c: Call)
    requires AllKnown(m)
    ensures AllKnown(Spec(m, c).0)
  {
    KnownNames(c.name);
  }

  /** Eight names fit eight slots: a known event that is not stored leaves a slot free. */
  lemma RoomForKnown(m: map<int, LocalContext>, k: int)
    requires AllKnown(m) && EVENT_NONE < k <= EVENT_COUNT && k !in m
    ensures |m| < MAX_LOCAL_EVENT_CTX
  {
    var others: set<int> := {1, 2, 3, 4, 5, 6, 7, 8} - {k};
    forall q | q in m.Keys ensures q in others {
      assert q in m;
    }
    SubsetCount(m.Keys, others);
  }

  /** A call on the array build; an attach uses the slot of its event or the first free one. */
  method CallArray(t: ArrayTable, c: Call) returns (r: int)
    requires t.Valid() && AllKnown(t.contents)
    modifies t, t.entries
    ensures t.Valid() && AllKnown(t.contents)
    ensures (t.contents, r) == Spec(old(t.contents), c)
    ensures c.Attach? && r == 0 ==> StoredIn(old(t.entries[..]), EventIdx(c.name), Attached(c), t.entries[..])
  {
    SpecKnown(t.contents, c);
    KnownNames(c.name);
    if c.name.None? {
      return -1;
    }
    var idx := GetEventIdx(c.name);
    if idx == EVENT_NONE {
      return -1;
    }
    match c {
      case Attach(_, _, _, _, _) =>
        if idx !in t.contents {
          RoomForKnown(t.contents, idx);
        }
        r := t.Upsert(idx, Attached(c));
      case Detach(_) =>
        r := t.Erase(idx);
      case GetPolicy(_) =>
        var ctx := t.GetCtx(idx);
        r := if ctx.None? then -1 else PolicyCode(ctx.value.policy);
    }
  }

  /** A call on the khash build; a failed allocation makes an attach fail and leaves the map. */
  method CallHash(t: HashTable, c: Call, alloc: Alloc) returns (r: int)
    requires t.Valid() && AllKnown(t.table.contents)
    modifies t.table, t.table.Arrays()
    ensures t.Valid() && forall o :: o in t.table.Arrays() ==> fresh(o) || o in old(t.table.Arrays())
    ensures (t.table.contents, r) == Spec(old(t.table.contents), c) ||
            (c.Attach? && !alloc.AllSucceed() && r == -1 && t.table.contents == old(t.table.contents))
    ensures c.Attach? && r == 0 ==> t.table.nBuckets == old(t.table.BucketsForPut()) &&
                                    t.table.nOccupied <= old(t.table.OccupiedForPut()) + 1
  {
    KnownNames(c.name);
    r := -1;
    if c.name.Some? {
      var idx := GetEventIdx(c.name);
      if idx != EVENT_NONE {
        match c {
          case Attach(_, _, _, _, _) =>
            r := t.Upsert(idx, Attached(c), alloc);
          case Detach(_) =>
            r := t.Erase(idx);
          case GetPolicy(_) =>
            var ctx := t.GetCtx(idx);
            r := if ctx.None? then -1 else PolicyCode(ctx.value.policy);
        }
      }
    }
  }

  lemma TestableWhenKnown(m: map<int, LocalContext>, bits: seq<U64>)
    requires AllKnown(m) && |bits| == 16
    ensures AllTestable(m, bits)
  {
  }

  lemma {:induction false} AfterKnown(cs: seq<Call>)
    ensures AllKnown(After(cs))
  {
    if cs == [] {
    } else {
      AfterKnown(cs[..|cs| - 1]);
      SpecKnown(After(cs[..|cs| - 1]), cs[|cs| - 1]);
    }
  }

  lemma AfterStep(cs: seq<Call>, n: nat)
    requires n < |cs|
    ensures After(cs[..n + 1]) == Spec(After(cs[..n]), cs[n]).0
    ensures Results(cs[..n + 1]) == Results(cs[..n]) + [Spec(After(cs[..n]), cs[n]).1]
  {
    assert cs[..n + 1][..n] == cs[..n] && cs[..n + 1][n] == cs[n];
  }

  /** A history of calls on the array build, then a tick's selection. */
  method RunArray(cs: seq<Call>, own: LocalContext, bits: SystemData)
    returns (results: seq<int>, level: int, choice: Choice)
    requires bits.Valid()
    ensures results == Results(cs) && AllTestable(After(cs), bits.eventBits[..])
    ensures IsSelection(After(cs), bits.eventBits[..], own.level, level, choice)
  {
    var t := new ArrayTable();
    results := [];
    for n := 0 to |cs|
      invariant t.Valid() && fresh(t) && fresh(t.entries) && AllKnown(t.contents)
      invariant t.contents == After(cs[..n]) && results == Results(cs[..n])
    {
      AfterStep(cs, n);
      var r := CallArray(t, cs[n]);
      results := results + [r];
    }
    assert cs[..|cs|] == cs;
    TestableWhenKnown(t.contents, bits.eventBits[..]);
    level, choice := t.Select(own, bits);
  }

  /** A history of calls on an empty khash table. */
  method PerformHash(t: HashTable, cs: seq<Call>) returns (results: seq<int>)
    requires t.Valid() && t.table.contents == map[]
    modifies t.table, t.table.Arrays()
    ensures t.Valid() && t.table.contents == After(cs) && results == Results(cs)
  {
    results := [];
    for n := 0 to |cs|
      invariant t.Valid() && forall o :: o in t.table.Arrays() ==> fresh(o) || o in old(t.table.Arrays())
      invariant t.table.contents == After(cs[..n]) && results == Results(cs[..n])
    {
      AfterStep(cs, n);
      AfterKnown(cs[..n]);
      var r := CallHash(t, cs[n], NO_FAILURE);
      results := results + [r];
    }
    assert cs[..|cs|] == cs;
  }

  /** The same on the khash build. */
  method RunHash(cs: seq<Call>, own: LocalContext, bits: SystemData)
    returns (results: seq<int>, level: int, choice: Choice)
    requires bits.Valid()
    ensures results == Results(cs) && AllTestable(After(cs), bits.eventBits[..])
    ensures IsSelection(After(cs), bits.eventBits[..], own.level, level, choice)
  {
    var t := new HashTable();
    results := PerformHash(t, cs);
    AfterKnown(cs);
    TestableWhenKnown(t.table.contents, bits.eventBits[..]);
    level, choice := t.Select(own, bits);
  }

  /** The two builds cannot be told apart: after any history of calls they have returned the same
      results, and then, whatever the event bits are, a tick selects the same level in both and the
      same context unless two events share the highest level. */
  method RunBoth(cs: seq<Call>, own: LocalContext, bits: SystemData)
    returns (arrayRun: (seq<int>, int, Choice), hashRun: (seq<int>, int, Choice))
    requires bits.Valid()
    ensures AllTestable(After(cs), bits.eventBits[..])
    ensures arrayRun.0 == hashRun.0 && arrayRun.1 == hashRun.1
    ensures arrayRun.2 == hashRun.2 || AnyTie(After(cs), bits.eventBits[..], own.level, arrayRun.1)
  {
    var ra, la, ca := RunArray(cs, own, bits);
    var rh, lh, ch := RunHash(cs, own, bits);
    SelectionsAgree(After(cs), bits.eventBits[..], own.level, la, ca);
    arrayRun, hashRun := (ra, la, ca), (rh, lh, ch);
  }
}
