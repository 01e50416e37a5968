/** The server's side of the gate, run by one thread: the slot table of HpfShm and the policy that
    publishes, for each device, the highest priority among its ready queues
    (script/patches/xsched.patch). */
module HpfShm {
  import opened Context
  import opened HpfGate

  datatype DeviceSlot = DeviceSlot(deviceId: int, minPriority: int, futexSeq: I32)

  /** What Sched reads of a queue: whether it is ready, its device and its priority. */
  datatype QueueStatus = QueueStatus(ready: bool, device: int, priority: int)

  predicate ReadyOn(q: QueueStatus, device: int) {
    q.ready && q.device == device
  }

  ghost predicate HasReady(status: seq<QueueStatus>, device: int) {
    exists k :: 0 <= k < |status| && ReadyOn(status[k], device)
  }

  /** p is the highest priority among the ready queues of the device. */
  ghost predicate IsMaxReady(status: seq<QueueStatus>, device: int, p: int) {
    && (exists k :: 0 <= k < |status| && ReadyOn(status[k], device) && status[k].priority == p)
    && (forall k :: 0 <= k < |status| && ReadyOn(status[k], device) ==> status[k].priority <= p)
  }

  /** m maps the devices with ready queues to their highest ready priorities. */
  ghost predicate IsPrioMax(status: seq<QueueStatus>, m: map<int, int>) {
    && (forall d :: d in m <==> HasReady(status, d))
    && (forall d :: d in m ==> IsMaxReady(status, d, m[d]))
  }

  lemma PrioMaxStep(status: seq<QueueStatus>, m: map<int, int>, q: QueueStatus)
    requires IsPrioMax(status, m)
    ensures IsPrioMax(status + [q],
              if !q.ready || (q.device in m && q.priority <= m[q.device]) then m else m[q.device := q.priority])
  {
    var all := status + [q];
    var m' := if !q.ready || (q.device in m && q.priority <= m[q.device]) then m else m[q.device := q.priority];
    assert all[|status|] == q;
    forall d ensures HasReady(all, d) <==> HasReady(status, d) || ReadyOn(q, d) {
      if k :| 0 <= k < |status| && ReadyOn(status[k], d) {
        assert all[k] == status[k];
      }
    }
    forall d | d in m' ensures IsMaxReady(all, d, m'[d]) {
      if d in m && m'[d] == m[d] {
        var k :| 0 <= k < |status| && ReadyOn(status[k], d) && status[k].priority == m[d];
        assert all[k] == status[k];
      }
    }
  }

  /** A ready queue passes a gate at the highest ready priority exactly when it attains it. */
  lemma PassesIffHighest(status: seq<QueueStatus>, k: nat, minPriority: int)
    requires k < |status| && status[k].ready && IsMaxReady(status, status[k].device, minPriority)
    ensures status[k].priority >= minPriority <==>
            forall j :: 0 <= j < |status| && ReadyOn(status[j], status[k].device) ==>
              status[j].priority <= status[k].priority
  {
    var j :| 0 <= j < |status| && ReadyOn(status[j], status[k].device) && status[j].priority == minPriority;
    assert ReadyOn(status[k], status[k].device);
  }

  lemma Element<T>(s: set<T>) returns (x: T)
    requires |s| > 0
    ensures x in s
  {
    x :| x in s;
  }

  lemma {:induction false} LeastExists(s: set<int>)
    requires |s| > 0
    ensures exists d :: Least(s, d)
  {
    var x := Element(s);
    var rest := s - {x};
    if |rest| == 0 {
      assert forall e :: e in s ==> e == x || e in rest;
      assert Least(s, x);
    } else {
      LeastExists(rest);
      var y :| Least(rest, y);
      assert forall e :: e in s ==> e == x || e in rest;
      assert Least(s, if x <= y then x else y);
    }
  }

  predicate Least(s: set<int>, d: int) {
    d in s && forall e :: e in s ==> d <= e
  }

  // The slots in use, as a sequence.

  predicate At(t: seq<DeviceSlot>, i: int, device: int) {
    0 <= i < |t| && t[i].deviceId == device
  }

  ghost predicate Has(t: seq<DeviceSlot>, device: int) {
    exists i :: At(t, i, device)
  }

  ghost predicate UniqueDevices(t: seq<DeviceSlot>) {
    forall i, j :: 0 <= i < j < |t| ==> t[i].deviceId != t[j].deviceId
  }

  function Updated(s: DeviceSlot, minPrio: int): DeviceSlot {
    DeviceSlot(s.deviceId, minPrio, Increment(s.futexSeq))
  }

  /** t' is t after an update for the device: in its slot, or in a new slot, or dropped when all slots
      are taken. */
  ghost predicate Publishes(t: seq<DeviceSlot>, device: int, minPrio: int, t': seq<DeviceSlot>) {
    if Has(t, device) then exists i :: At(t, i, device) && t' == t[i := Updated(t[i], minPrio)]
    else if |t| < MAX_DEVICES then t' == t + [DeviceSlot(device, minPrio, 1)]
    else t' == t
  }

  /** Slot j after the devices of m outside todo have been published, from the slots before. */
  ghost predicate SlotAfter(before: seq<DeviceSlot>, m: map<int, int>, todo: set<int>, j: nat, slot: DeviceSlot) {
    var d := slot.deviceId;
    && (j < |before| ==> d == before[j].deviceId)
    && (if d in m && d !in todo then
          slot == DeviceSlot(d, m[d], if j < |before| then Increment(before[j].futexSeq) else 1)
        else j < |before| && slot == before[j])
  }

  ghost predicate AllPublished(before: seq<DeviceSlot>, m: map<int, int>, todo: set<int>, t: seq<DeviceSlot>) {
    && |before| <= |t| <= MAX_DEVICES && UniqueDevices(t)
    && (forall j :: 0 <= j < |t| ==> SlotAfter(before, m, todo, j, t[j]))
    && (forall d :: d in m && d !in todo && !Has(t, d) ==> |t| == MAX_DEVICES)
    && (forall d, e :: d in m && d < e && Has(t, e) && !Has(before, e) ==> Has(t, d))
  }

  /** A new device gets the next slot. */
  lemma AddStep(before: seq<DeviceSlot>, m: map<int, int>, todo: set<int>, t: seq<DeviceSlot>, d: int)
    requires AllPublished(before, m, todo, t) && todo <= m.Keys && Least(todo, d)
    requires !Has(t, d) && |t| < MAX_DEVICES
    ensures AllPublished(before, m, todo - {d}, t + [DeviceSlot(d, m[d], 1)])
  {
    var t' := t + [DeviceSlot(d, m[d], 1)];
    assert At(t', |t|, d);
    forall i | 0 <= i < |t| ensures t'[i].deviceId != d {
      assert !At(t, i, d);
    }
    forall x | Has(t, x) ensures Has(t', x) {
      var i :| At(t, i, x);
      assert At(t', i, x);
    }
    forall x | Has(t', x) ensures Has(t, x) || x == d {
      var i :| At(t', i, x);
      assert i < |t| ==> At(t, i, x);
    }
    forall j | 0 <= j < |t'| ensures SlotAfter(before, m, todo - {d}, j, t'[j]) {
      if j < |t| {
        assert SlotAfter(before, m, todo, j, t[j]);
      }
    }
  }

  /** A known device has its slot updated. */
  lemma UpdateStep(before: seq<DeviceSlot>, m: map<int, int>, todo: set<int>, t: seq<DeviceSlot>, d: int, i: int)
    requires AllPublished(before, m, todo, t) && todo <= m.Keys && d in todo && At(t, i, d)
    ensures AllPublished(before, m, todo - {d}, t[i := Updated(t[i], m[d])])
  {
    var t' := t[i := Updated(t[i], m[d])];
    forall x ensures Has(t, x) <==> Has(t', x) {
      if j :| At(t, j, x) {
        assert At(t', j, x);
      }
      if j :| At(t', j, x) {
        assert At(t, j, x);
      }
    }
    forall j | 0 <= j < |t'| ensures SlotAfter(before, m, todo - {d}, j, t'[j]) {
      assert SlotAfter(before, m, todo, j, t[j]);
      assert SlotAfter(before, m, todo, i, t[i]);
    }
  }

  /** A new device that finds every slot taken is dropped. */
  lemma DropStep(before: seq<DeviceSlot>, m: map<int, int>, todo: set<int>, t: seq<DeviceSlot>, d: int)
    requires AllPublished(before, m, todo, t) && todo <= m.Keys && d in todo && !Has(t, d) && |t| == MAX_DEVICES
    ensures AllPublished(before, m, todo - {d}, t)
  {
    forall j | 0 <= j < |t| ensures SlotAfter(before, m, todo - {d}, j, t[j]) {
      assert SlotAfter(before, m, todo, j, t[j]);
      assert !At(t, j, d);
    }
  }

  lemma PublishStep(before: seq<DeviceSlot>, m: map<int, int>, todo: set<int>, t: seq<DeviceSlot>, d: int,
                    t': seq<DeviceSlot>)
    requires AllPublished(before, m, todo, t) && todo <= m.Keys && Least(todo, d) && Publishes(t, d, m[d], t')
    ensures AllPublished(before, m, todo - {d}, t')
  {
    if Has(t, d) {
      var i :| At(t, i, d) && t' == t[i := Updated(t[i], m[d])];
      UpdateStep(before, m, todo, t, d, i);
    } else if |t| < MAX_DEVICES {
      AddStep(before, m, todo, t, d);
    } else {
      DropStep(before, m, todo, t, d);
    }
  }

  lemma NothingPublished(t: seq<DeviceSlot>, m: map<int, int>)
    requires |t| <= MAX_DEVICES && UniqueDevices(t)
    ensures AllPublished(t, m, m.Keys, t)
  {
  }

  class Shm {
    /** PRIORITY_MIN - 1 */
    const lowest: int
    const owner: bool
    var numDevices: nat
    const slots: array<DeviceSlot>

    ghost predicate Valid()
      reads this, slots
    {
      slots.Length == MAX_DEVICES && numDevices <= MAX_DEVICES && UniqueDevices(Table())
    }

    /** The slots in use. */
    ghost function Table(): seq<DeviceSlot>
      requires numDevices <= slots.Length
      reads this, slots
    {
      slots[..numDevices]
    }

    /** HpfShm::Open with create set. */
    constructor (lowest: int, owner: bool)
      ensures Valid() && Table() == [] && fresh(slots)
      ensures this.lowest == lowest && this.owner == owner
    {
      this.lowest, this.owner := lowest, owner;
      numDevices := 0;
      slots := new DeviceSlot[MAX_DEVICES](_ => DeviceSlot(0, lowest, 0));
    }

    /** FindSlot: the index of the device's slot, or -1 for a null pointer. */
    method FindSlot(device: int) returns (i: int)
      requires Valid()
      ensures if Has(Table(), device) then At(Table(), i, device) else i == -1
    {
      i := 0;
      while i < numDevices && i < MAX_DEVICES
        invariant 0 <= i <= numDevices
        invariant forall j :: 0 <= j < i ==> slots[j].deviceId != device
      {
        if slots[i].deviceId == device {
          assert At(Table(), i, device);
          return;
        }
        i := i + 1;
      }
      return -1;
    }

    /** AddDevice, which its callers use for devices without a slot: -1 when all slots are taken. */
    method AddDevice(device: int) returns (i: int)
      requires Valid() && !Has(Table(), device)
      modifies this, slots
      ensures Valid()
      ensures Table() == if i == -1 then old(Table()) else old(Table()) + [DeviceSlot(device, lowest, 0)]
      ensures i == if |old(Table())| == MAX_DEVICES then -1 else |old(Table())|
    {
      if numDevices >= MAX_DEVICES {
        return -1;
      }
      var idx := numDevices;
      ghost var t := Table();
      forall j | 0 <= j < idx ensures t[j].deviceId != device {
        assert !At(t, j, device);
      }
      numDevices := numDevices + 1;
      slots[idx] := slots[idx].(deviceId := device);
      slots[idx] := slots[idx].(minPriority := lowest);
      slots[idx] := slots[idx].(futexSeq := 0);
      assert Table() == t + [DeviceSlot(device, lowest, 0)];
      return idx;
    }

    /** GetOrAddDevice: only the owner adds a device. */
    method GetOrAddDevice(device: int) returns (i: int)
      requires Valid()
      modifies this, slots
      ensures Valid() && |old(Table())| <= |Table()| && Table()[..|old(Table())|] == old(Table())
      ensures i == -1 <==> !Has(old(Table()), device) && (!owner || |old(Table())| == MAX_DEVICES)
      ensures i != -1 ==> At(Table(), i, device)
    {
      i := FindSlot(device);
      if i == -1 && owner {
        i := AddDevice(device);
      }
    }

    /** SetDeviceMinPriority */
    method SetDeviceMinPriority(device: int, minPrio: int)
      requires Valid()
      modifies this, slots
      ensures Valid() && Publishes(old(Table()), device, minPrio, Table())
    {
      ghost var before := Table();
      var slot := FindSlot(device);
      if slot == -1 {
        slot := AddDevice(device);
      }
      if slot == -1 {
        return;
      }
      ghost var t := Table();
      slots[slot] := slots[slot].(minPriority := minPrio);
      slots[slot] := slots[slot].(futexSeq := Increment(slots[slot].futexSeq));
      assert Table() == t[slot := Updated(t[slot], minPrio)];
    }

    /** HpfShmPolicy::Sched. Afterwards the slot of a device with ready queues holds their highest
        priority and has counted one update; every other slot is as it was. Devices that had no slot get
        the free ones in the order of their ids; a ready device without a slot afterwards means that all
        slots are taken. */
    method Sched(status: seq<QueueStatus>) returns (ghost m: map<int, int>)
      requires Valid()
      modifies this, slots
      ensures Valid() && IsPrioMax(status, m) && AllPublished(old(Table()), m, {}, Table())
    {
      var runningPrioMax: map<int, int> := map[];
      for k := 0 to |status|
        invariant IsPrioMax(status[..k], runningPrioMax)
        invariant Valid() && Table() == old(Table())
      {
        assert status[..k + 1] == status[..k] + [status[k]];
        PrioMaxStep(status[..k], runningPrioMax, status[k]);
        if !status[k].ready {
          continue;
        }
        if status[k].device !in runningPrioMax {
          runningPrioMax := runningPrioMax[status[k].device := status[k].priority];
        } else if status[k].priority > runningPrioMax[status[k].device] {
          runningPrioMax := runningPrioMax[status[k].device := status[k].priority];
        }
      }
      assert status[..|status|] == status;
      m := runningPrioMax;
      var todo := runningPrioMax.Keys;
      NothingPublished(Table(), m);
      while |todo| > 0
        invariant Valid() && todo <= m.Keys && AllPublished(old(Table()), m, todo, Table())
        decreases |todo|
      {
        LeastExists(todo);
        var d :| Least(todo, d);
        ghost var t := Table();
        SetDeviceMinPriority(d, runningPrioMax[d]);
        PublishStep(old(Table()), m, todo, t, d, Table());
        todo := todo - {d};
      }
      assert todo == {};
    }
  }

  /** What Sched leaves, for each device: the slot of a device with a ready queue gates at their highest
      priority, so that a ready queue passes exactly when it attains it. */
  lemma SchedGates(status: seq<QueueStatus>, m: map<int, int>, before: seq<DeviceSlot>, t: seq<DeviceSlot>, k: nat,
                   i: int)
    requires IsPrioMax(status, m) && AllPublished(before, m, {}, t)
    requires k < |status| && status[k].ready && At(t, i, status[k].device)
    ensures IsMaxReady(status, status[k].device, t[i].minPriority)
    ensures status[k].priority >= t[i].minPriority <==>
            forall j :: 0 <= j < |status| && ReadyOn(status[j], status[k].device) ==>
              status[j].priority <= status[k].priority
  {
    assert ReadyOn(status[k], status[k].device);
    assert SlotAfter(before, m, {}, i, t[i]);
    PassesIffHighest(status, k, t[i].minPriority);
  }

  // The gate's steps, seen from the server.

  /** The slots in use in a state of the gate. */
  function Slots(s: State): seq<DeviceSlot>
    requires s.num <= |s.slots|
  {
    seq(s.num, i requires 0 <= i < s.num => DeviceSlot(s.slots[i].device, s.slots[i].minPriority, s.slots[i].futexSeq))
  }

  function StepsLeft(pc: ServerPc): nat {
    match pc
    case Idle => 0
    case Wake(_) => 1
    case Bump(_) => 2
    case Store(_, _) => 3
    case InitSeq(_, _) => 4
    case InitPriority(_, _) => 5
    case SetId(_, _, _) => 6
    case Claim(_, _) => 7
  }

  /** The server runs its update to the end. */
  function Finish(s: State): (t: State)
    requires Shape(s)
    ensures Shape(t) && t.server.Idle?
    decreases StepsLeft(s.server)
  {
    if s.server.Idle? then s else
      assert Shape(Step(s, ServerStep));
      Finish(ServerNext(s))
  }

  /** The last three steps publish in slot i. */
  lemma FinishStore(s: State)
    requires Shape(s) && s.server.Store?
    ensures var i := s.server.idx;
            var t := Finish(s);
            t.num == s.num && Slots(t) == Slots(s)[i := Updated(Slots(s)[i], s.server.prio)]
  {
    var s1 := ServerNext(s);
    var s2 := ServerNext(s1);
    assert Finish(s) == Finish(s1) == Finish(s2) == ServerNext(s2);
  }

  /** And the steps before them add slot num. */
  lemma FinishClaim(s: State)
    requires Shape(s) && s.server.Claim?
    ensures Slots(Finish(s)) == Slots(s) + [DeviceSlot(s.server.device, s.server.prio, 1)]
  {
    var s1 := ServerNext(s);
    var s2 := ServerNext(s1);
    var s3 := ServerNext(s2);
    var s4 := ServerNext(s3);
    assert Finish(s) == Finish(s1) == Finish(s2);
    assert Finish(s2) == Finish(s3) == Finish(s4);
    assert Slots(s4) == Slots(s) + [DeviceSlot(s.server.device, s.lowest, 0)];
    FinishStore(s4);
  }

  /** Taken as a whole, an update of the gate is what SetDeviceMinPriority does to the slot table. */
  lemma UpdateIsPublish(s: State, device: int, prio: int)
    requires Shape(s) && s.server.Idle?
    ensures Publishes(Slots(s), device, prio, Slots(Finish(Begin(s, device, prio))))
  {
    var i := FindFrom(s.slots, s.num, device, 0);
    if i < s.num {
      assert At(Slots(s), i, device);
      FinishStore(Begin(s, device, prio));
    } else {
      assert forall j :: 0 <= j < s.num ==> !At(Slots(s), j, device);
      if s.num < MAX_DEVICES {
        FinishClaim(Begin(s, device, prio));
      }
    }
  }
}
