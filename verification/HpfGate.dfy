/** The priority gate in shared memory (HpfShm in script/patches/xsched.patch): one server publishes a
    minimum priority per device, any number of clients load it, load the futex word and sleep on it.
    Every load, store, increment, wake and compare-and-sleep of shared memory is a step of its own, and the
    steps of all threads interleave. The loads and stores are taken to be sequentially consistent; the
    server's own search is one step, since nobody else stores to what it reads. */
module HpfGate {
  import opened Context

  const MAX_DEVICES := 32

  /** A device slot. stores and bumps count, for the statements below, the stores to minPriority by
      SetDeviceMinPriority and the increments of futexSeq. */
  datatype Slot = Slot(device: int, minPriority: int, futexSeq: I32, stores: nat, bumps: nat)

  /** Where the server is: between updates, inside AddDevice, or inside SetDeviceMinPriority. */
  datatype ServerPc =
    | Idle
    | Claim(device: int, prio: int)
    | SetId(idx: nat, device: int, prio: int)
    | InitPriority(idx: nat, prio: int)
    | InitSeq(idx: nat, prio: int)
    | Store(idx: nat, prio: int)
    | Bump(idx: nat)
    | Wake(idx: nat)

  /** Where a client is inside WaitUntilCanRun. */
  datatype ClientPc =
    | Search(i: nat)
    | Compare(slot: nat)
    | LoadPriority(slot: nat)
    | LoadSeq(slot: nat)
    | Wait(slot: nat, expected: I32)
    | Asleep(slot: nat, expected: I32)
    | Runs

  /** minVer, seqVer and parkedVer record the counts of the slot when the client loaded minPriority,
      loaded futexSeq and fell asleep; skipped records the slots it went past while they had no name yet. */
  datatype Client = Client(device: int, priority: int, pc: ClientPc, minVer: nat, seqVer: nat, parkedVer: nat,
                           skipped: set<nat>)

  /** lowest is PRIORITY_MIN - 1. */
  datatype State = State(lowest: int, num: nat, slots: seq<Slot>, server: ServerPc, clients: seq<Client>)

  datatype Action =
    | Publish(device: int, prio: int)
    | ServerStep
    | Enter(c: nat, device: int, priority: int)
    | ClientStep(c: nat)
    | Spurious(c: nat)

  /** Two counts with the same futex word are the same or at least 2 to the 32 apart. */
  lemma SameWord(a: nat, b: nat)
    requires Counter32(a) == Counter32(b) && a <= b
    ensures a == b || a + TWO_TO_THE_32 <= b
  {
  }

  /** The server's FindSlot: the first slot of the device from i on, or num. */
  function FindFrom(slots: seq<Slot>, num: nat, device: int, i: nat): (r: nat)
    requires i <= num <= |slots|
    ensures i <= r <= num && (r < num ==> slots[r].device == device)
    ensures forall j :: i <= j < r ==> slots[j].device != device
    decreases num - i
  {
    if i == num || slots[i].device == device then i else FindFrom(slots, num, device, i + 1)
  }

  /** Indices are in range. */
  predicate Shape(s: State) {
    && |s.slots| == MAX_DEVICES && s.num <= MAX_DEVICES && ServerInRange(s.server, s.num)
    && forall c :: 0 <= c < |s.clients| ==> ClientInRange(s.clients[c].pc, s.num)
  }

  predicate ServerInRange(pc: ServerPc, num: nat) {
    match pc
    case Idle => true
    case Claim(_, _) => num < MAX_DEVICES
    case SetId(i, _, _) => i < num
    case InitPriority(i, _) => i < num
    case InitSeq(i, _) => i < num
    case Store(i, _) => i < num
    case Bump(i) => i < num
    case Wake(i) => i < num
  }

  predicate ClientInRange(pc: ClientPc, num: nat) {
    match pc
    case Search(i) => i <= num
    case Compare(i) => i < num
    case LoadPriority(i) => i < num
    case LoadSeq(i) => i < num
    case Wait(i, _) => i < num
    case Asleep(i, _) => i < num
    case Runs => true
  }

  /** SetDeviceMinPriority starts: the server finds the slot of its device, or claims a new one, or drops
      the update when all slots are taken. */
  function Begin(s: State, device: int, prio: int): State
    requires Shape(s)
  {
    if !s.server.Idle? then s else
      var i := FindFrom(s.slots, s.num, device, 0);
      if i < s.num then s.(server := Store(i, prio))
      else if s.num >= MAX_DEVICES then s
      else s.(server := Claim(device, prio))
  }

  function Woken(c: Client, slot: nat): Client {
    if c.pc.Asleep? && c.pc.slot == slot then c.(pc := LoadPriority(slot)) else c
  }

  /** The next step of the server. */
  function ServerNext(s: State): State
    requires Shape(s)
  {
    match s.server
    case Idle => s
    case Claim(device, prio) => s.(num := s.num + 1, server := SetId(s.num, device, prio))
    case SetId(i, device, prio) =>
      s.(slots := s.slots[i := s.slots[i].(device := device)], server := InitPriority(i, prio))
    case InitPriority(i, prio) =>
      s.(slots := s.slots[i := s.slots[i].(minPriority := s.lowest)], server := InitSeq(i, prio))
    case InitSeq(i, prio) =>
      s.(slots := s.slots[i := s.slots[i].(futexSeq := 0)], server := Store(i, prio))
    case Store(i, prio) =>
      s.(slots := s.slots[i := s.slots[i].(minPriority := prio, stores := s.slots[i].stores + 1)], server := Bump(i))
    case Bump(i) =>
      s.(slots := s.slots[i := s.slots[i].(futexSeq := Increment(s.slots[i].futexSeq), bumps := s.slots[i].bumps + 1)],
         server := Wake(i))
    case Wake(i) =>
      s.(clients := seq(|s.clients|, c requires 0 <= c < |s.clients| => Woken(s.clients[c], i)), server := Idle)
  }

  /** The next step of a client inside WaitUntilCanRun; asleep or done it takes none. */
  function ClientNext(num: nat, slots: seq<Slot>, server: ServerPc, c: Client): Client
    requires num <= |slots| == MAX_DEVICES && ClientInRange(c.pc, num)
  {
    match c.pc
    case Search(i) =>
      c.(pc := if i >= num || i >= MAX_DEVICES then Runs else Compare(i))
    case Compare(i) =>
      if slots[i].device == c.device then c.(pc := LoadPriority(i))
      else c.(pc := Search(i + 1), skipped := if Unnamed(server, i) then c.skipped + {i} else c.skipped)
    case LoadPriority(i) =>
      if c.priority >= slots[i].minPriority then c.(pc := Runs)
      else c.(pc := LoadSeq(i), minVer := slots[i].stores)
    case LoadSeq(i) => c.(pc := Wait(i, slots[i].futexSeq), seqVer := slots[i].bumps)
    case Wait(i, expected) =>
      if slots[i].futexSeq == expected then c.(pc := Asleep(i, expected), parkedVer := slots[i].bumps)
      else c.(pc := LoadPriority(i))
    case Asleep(_, _) => c
    case Runs => c
  }

  function Step(s: State, a: Action): (s': State)
    requires Shape(s)
    ensures Shape(s')
  {
    match a
    case Publish(device, prio) => Begin(s, device, prio)
    case ServerStep => ServerNext(s)
    case Enter(c, device, priority) =>
      if c < |s.clients| && s.clients[c].pc.Runs? then
        s.(clients := s.clients[c := Client(device, priority, Search(0), 0, 0, 0, {})])
      else s
    case ClientStep(c) =>
      if c < |s.clients| then s.(clients := s.clients[c := ClientNext(s.num, s.slots, s.server, s.clients[c])]) else s
    case Spurious(c) =>
      if c < |s.clients| && s.clients[c].pc.Asleep? then
        s.(clients := s.clients[c := s.clients[c].(pc := LoadPriority(s.clients[c].pc.slot))])
      else s
  }

  function Run(s: State, actions: seq<Action>): (s': State)
    requires Shape(s)
    ensures Shape(s')
  {
    if actions == [] then s else Step(Run(s, actions[..|actions| - 1]), actions[|actions| - 1])
  }

  /** The shared memory as HpfShm::Open leaves it, and clients that have not called yet. */
  function Initial(lowest: int, clients: nat): (s: State)
    ensures Shape(s)
  {
    State(lowest, 0, seq(MAX_DEVICES, _ => Slot(0, lowest, 0, 0, 0)), Idle,
          seq(clients, _ => Client(0, 0, Runs, 0, 0, 0, {})))
  }

  /** The server is inside AddDevice for slot i, before its first update. */
  predicate Adding(pc: ServerPc, i: nat) {
    match pc
    case SetId(j, _, _) => i == j
    case InitPriority(j, _) => i == j
    case InitSeq(j, _) => i == j
    case _ => false
  }

  predicate Unnamed(pc: ServerPc, i: nat) {
    pc.SetId? && pc.idx == i
  }

  predicate SlotOk(s: State, i: nat)
    requires i < |s.slots|
  {
    var slot := s.slots[i];
    && slot.futexSeq == Counter32(slot.bumps)
    && slot.stores == slot.bumps + (if s.server == Bump(i) then 1 else 0)
    && (i >= s.num || Adding(s.server, i) ==> slot.stores == 0)
    && (slot.stores == 0 ==> slot.minPriority == s.lowest)
    && (i >= s.num || Unnamed(s.server, i) ==> slot.device == 0)
  }

  /** Device ids are unique, and the device being added is a new one. */
  predicate DevicesUnique(s: State)
    requires s.num <= |s.slots|
  {
    && (forall i, j :: 0 <= i < j < s.num && !Unnamed(s.server, i) && !Unnamed(s.server, j) ==>
          s.slots[i].device != s.slots[j].device)
    && (s.server.Claim? || s.server.SetId? ==>
          forall i :: 0 <= i < s.num && !Unnamed(s.server, i) ==> s.slots[i].device != s.server.device)
  }

  /** While no update has been stored since the client loaded the minimum, its priority is below the
      published one. */
  predicate MinOk(slot: Slot, c: Client) {
    c.minVer <= slot.stores && (c.minVer == slot.stores ==> c.priority < slot.minPriority)
  }

  predicate SeqOk(slot: Slot, c: Client, expected: I32) {
    expected == Counter32(c.seqVer) && c.seqVer <= slot.bumps
  }

  /** A sleeper parked after the last increment, unless the wake for that increment is still to come. */
  predicate ParkedOk(server: ServerPc, i: nat, slot: Slot, c: Client, expected: I32) {
    && Counter32(c.parkedVer) == expected && c.seqVer <= c.parkedVer
    && (c.parkedVer == slot.bumps || (server == Wake(i) && c.parkedVer + 1 == slot.bumps))
  }

  /** The client went past slots 0 to i - 1: none of them holds its device or is about to be named, but for
      those it skipped. */
  predicate Passed(s: State, c: Client, i: nat)
    requires i <= |s.slots|
  {
    forall j :: 0 <= j < i && (s.slots[j].device == c.device || Unnamed(s.server, j)) ==> j in c.skipped
  }

  predicate ClientOk(s: State, c: Client)
    requires Shape(s) && ClientInRange(c.pc, s.num)
  {
    match c.pc
    case Search(i) => Passed(s, c, i)
    case Compare(i) => Passed(s, c, i)
    case LoadPriority(i) => KeepsDevice(s.slots[i], c)
    case LoadSeq(i) => KeepsDevice(s.slots[i], c) && MinOk(s.slots[i], c)
    case Wait(i, e) => KeepsDevice(s.slots[i], c) && MinOk(s.slots[i], c) && SeqOk(s.slots[i], c, e)
    case Asleep(i, e) =>
      && KeepsDevice(s.slots[i], c) && MinOk(s.slots[i], c) && SeqOk(s.slots[i], c, e)
      && ParkedOk(s.server, i, s.slots[i], c, e)
    case Runs => true
  }

  /** The slot a client found still is its device's. Device 0 is the exception: its id is what a slot
      holds while AddDevice has counted it but not yet named it. */
  predicate KeepsDevice(slot: Slot, c: Client) {
    c.device != 0 ==> slot.device == c.device
  }

  ghost predicate Inv(s: State) {
    && Shape(s) && DevicesUnique(s)
    && (forall i :: 0 <= i < MAX_DEVICES ==> SlotOk(s, i))
    && (forall c :: 0 <= c < |s.clients| ==> ClientOk(s, s.clients[c]))
  }

  lemma InitialInv(lowest: int, clients: nat)
    ensures Inv(Initial(lowest, clients))
  {
  }

  lemma ServerKeepsSlot(s: State, i: nat)
    requires Inv(s) && i < MAX_DEVICES
    ensures SlotOk(ServerNext(s), i)
  {
    assert SlotOk(s, i);
    IncrementCounts(s.slots[i].bumps);
  }

  lemma ServerKeepsPassed(s: State, c: Client, i: nat)
    requires Inv(s) && i <= s.num && Passed(s, c, i)
    ensures Passed(ServerNext(s), c, i)
  {
    var s' := ServerNext(s);
    forall j | 0 <= j < i && (s'.slots[j].device == c.device || Unnamed(s'.server, j)) ensures j in c.skipped {
      assert s.slots[j].device == c.device || Unnamed(s.server, j);
    }
  }

  lemma ServerKeepsClient(s: State, c: Client)
    requires Inv(s) && ClientInRange(c.pc, s.num) && ClientOk(s, c)
    ensures var s' := ServerNext(s);
            var c' := if s.server.Wake? then Woken(c, s.server.idx) else c;
            ClientInRange(c'.pc, s'.num) && ClientOk(s', c')
  {
    if c.pc.Search? {
      ServerKeepsPassed(s, c, c.pc.i);
    } else if c.pc.Compare? {
      ServerKeepsPassed(s, c, c.pc.slot);
    } else if s.server.SetId? || s.server.InitPriority? || s.server.InitSeq? {
      assert SlotOk(s, s.server.idx);
    }
  }

  lemma ServerKeepsDevices(s: State)
    requires Inv(s)
    ensures Shape(ServerNext(s)) && DevicesUnique(ServerNext(s))
  {
  }

  lemma ServerKeepsClients(s: State)
    requires Inv(s)
    ensures var s' := ServerNext(s);
            Shape(s') && forall c :: 0 <= c < |s'.clients| ==> ClientOk(s', s'.clients[c])
  {
    var s' := ServerNext(s);
    ServerKeepsDevices(s);
    forall c | 0 <= c < |s'.clients| ensures ClientOk(s', s'.clients[c]) {
      var before := s.clients[c];
      ServerKeepsClient(s, before);
      assert s'.clients[c] == if s.server.Wake? then Woken(before, s.server.idx) else before;
    }
  }

  lemma ServerKeepsInv(s: State)
    requires Inv(s)
    ensures Inv(ServerNext(s))
  {
    ServerKeepsDevices(s);
    ServerKeepsClients(s);
    forall i | 0 <= i < MAX_DEVICES ensures SlotOk(ServerNext(s), i) {
      ServerKeepsSlot(s, i);
    }
  }

  lemma BeginKeepsInv(s: State, device: int, prio: int)
    requires Inv(s)
    ensures Inv(Begin(s, device, prio))
  {
    var s' := Begin(s, device, prio);
    forall i | 0 <= i < MAX_DEVICES ensures SlotOk(s', i) {
      assert SlotOk(s, i);
    }
    forall c | 0 <= c < |s'.clients| ensures ClientOk(s', s'.clients[c]) {
      assert ClientOk(s, s.clients[c]);
    }
  }

  /** A client step keeps what it relies on. */
  lemma ClientKeeps(s: State, c: Client)
    requires Inv(s) && ClientInRange(c.pc, s.num) && ClientOk(s, c)
    ensures var c' := ClientNext(s.num, s.slots, s.server, c);
            ClientInRange(c'.pc, s.num) && ClientOk(s, c')
  {
    if c.pc.LoadSeq? || c.pc.Wait? {
      assert SlotOk(s, c.pc.slot);
    }
  }

  lemma ClientReplaced(s: State, c: nat, client: Client)
    requires Inv(s) && c < |s.clients| && ClientInRange(client.pc, s.num) && ClientOk(s, client)
    ensures Inv(s.(clients := s.clients[c := client]))
  {
    var s' := s.(clients := s.clients[c := client]);
    forall i | 0 <= i < MAX_DEVICES ensures SlotOk(s', i) {
      assert SlotOk(s, i);
    }
    forall d | 0 <= d < |s'.clients| ensures ClientOk(s', s'.clients[d]) {
      assert d != c ==> ClientOk(s, s.clients[d]);
    }
  }

  lemma StepKeepsInv(s: State, a: Action)
    requires Inv(s)
    ensures Inv(Step(s, a))
  {
    match a
    case Publish(device, prio) => BeginKeepsInv(s, device, prio);
    case ServerStep => ServerKeepsInv(s);
    case Enter(c, device, priority) =>
      if c < |s.clients| && s.clients[c].pc.Runs? {
        ClientReplaced(s, c, Client(device, priority, Search(0), 0, 0, 0, {}));
      }
    case ClientStep(c) =>
      if c < |s.clients| {
        ClientKeeps(s, s.clients[c]);
        ClientReplaced(s, c, ClientNext(s.num, s.slots, s.server, s.clients[c]));
      }
    case Spurious(c) =>
      if c < |s.clients| && s.clients[c].pc.Asleep? {
        ClientReplaced(s, c, s.clients[c].(pc := LoadPriority(s.clients[c].pc.slot)));
      }
  }

  /** Every state of every run satisfies the invariant. */
  lemma {:induction false} RunKeepsInv(s: State, actions: seq<Action>)
    requires Inv(s)
    ensures Inv(Run(s, actions))
  {
    if actions == [] {
    } else {
      RunKeepsInv(s, actions[..|actions| - 1]);
      StepKeepsInv(Run(s, actions[..|actions| - 1]), actions[|actions| - 1]);
    }
  }

  // What a client that runs has passed.

  /** The next step of this client ends its call. */
  predicate MayRun(s: State, c: Client)
    requires Shape(s) && ClientInRange(c.pc, s.num)
  {
    match c.pc
    case Search(i) => i == s.num
    case LoadPriority(i) => c.priority >= s.slots[i].minPriority
    case _ => false
  }

  /** No step but its own lets a client run, and that exactly when it has come to the end of the table or
      has a priority at or above the minimum of the slot it found. */
  lemma RunsExactly(s: State, a: Action, c: nat)
    requires Inv(s) && c < |s.clients| && !s.clients[c].pc.Runs?
    ensures c < |Step(s, a).clients|
    ensures Step(s, a).clients[c].pc.Runs? <==> a == ClientStep(c) && MayRun(s, s.clients[c])
  {
  }

  /** Gate safety, over every run: a client is let through by a slot of its device, at or above the minimum
      that slot has at that moment, or because no slot has its device, except for slots that had no name
      yet when the client went past them. */
  lemma GateSafety(lowest: int, clients: nat, actions: seq<Action>, a: Action, c: nat)
    requires var s := Run(Initial(lowest, clients), actions);
             c < |s.clients| && !s.clients[c].pc.Runs? && c < |Step(s, a).clients| && Step(s, a).clients[c].pc.Runs?
    ensures var s := Run(Initial(lowest, clients), actions);
            var client := s.clients[c];
            || (client.pc.LoadPriority? && KeepsDevice(s.slots[client.pc.slot], client)
                && client.priority >= s.slots[client.pc.slot].minPriority)
            || (client.pc == Search(s.num)
                && forall j :: 0 <= j < s.num && s.slots[j].device == client.device ==> j in client.skipped)
  {
    InitialInv(lowest, clients);
    RunKeepsInv(Initial(lowest, clients), actions);
    var s := Run(Initial(lowest, clients), actions);
    RunsExactly(s, a, c);
    assert ClientOk(s, s.clients[c]);
  }

  /** A sleeper is released by the wake for its slot or by a spurious return, and a client that found the
      word changed does not sleep: both load the minimum again. */
  lemma ReleasedExactly(s: State, a: Action, c: nat)
    requires Inv(s) && c < |s.clients| && (s.clients[c].pc.Asleep? || s.clients[c].pc.Wait?)
    ensures var client := s.clients[c];
            var i := client.pc.slot;
            var released := if client.pc.Asleep? then (a == ServerStep && s.server == Wake(i)) || a == Spurious(c)
                            else a == ClientStep(c) && s.slots[i].futexSeq != client.pc.expected;
            var t := Step(s, a);
            && c < |t.clients|
            && (if released then t.clients[c] == client.(pc := LoadPriority(i))
                else t.clients[c].pc == client.pc || t.clients[c].pc == Asleep(i, client.pc.expected))
  {
  }

  /** Nothing but its own next step moves a client that is about to load the minimum. */
  lemma {:induction false} AwakeStays(s: State, actions: seq<Action>, c: nat)
    requires Inv(s) && c < |s.clients| && s.clients[c].pc.LoadPriority? && ClientStep(c) !in actions
    ensures var t := Run(s, actions);
            c < |t.clients| && t.clients[c] == s.clients[c]
  {
    if actions == [] {
    } else {
      AwakeStays(s, actions[..|actions| - 1], c);
    }
  }

  /** And that step lets it run exactly when its priority is at or above the minimum at that moment. */
  lemma AwakeRunsExactly(s: State, actions: seq<Action>, c: nat)
    requires Inv(s) && c < |s.clients| && s.clients[c].pc.LoadPriority? && ClientStep(c) !in actions
    ensures var t := Run(s, actions);
            var next := Step(t, ClientStep(c));
            && c < |next.clients| && t.num > s.clients[c].pc.slot
            && (next.clients[c].pc.Runs? <==> s.clients[c].priority >= t.slots[s.clients[c].pc.slot].minPriority)
  {
    AwakeStays(s, actions, c);
    RunKeepsInv(s, actions);
    RunsExactly(Run(s, actions), ClientStep(c), c);
  }

  /** Between updates, every sleeper's expected word is the current one: whoever parked before a
      completed update has been released by it. */
  lemma SleepersAwaitNextUpdate(lowest: int, clients: nat, actions: seq<Action>, c: nat)
    requires var s := Run(Initial(lowest, clients), actions);
             s.server.Idle? && c < |s.clients| && s.clients[c].pc.Asleep?
    ensures var s := Run(Initial(lowest, clients), actions);
            var slot := s.slots[s.clients[c].pc.slot];
            && s.clients[c].pc.expected == slot.futexSeq
            && s.clients[c].parkedVer == slot.bumps == slot.stores
  {
    InitialInv(lowest, clients);
    RunKeepsInv(Initial(lowest, clients), actions);
    var s := Run(Initial(lowest, clients), actions);
    assert SlotOk(s, s.clients[c].pc.slot) && ClientOk(s, s.clients[c]);
  }

  /** An update was stored after the client loaded the minimum and counted before it loaded the word. */
  predicate UpdateBetweenLoads(c: Client) {
    c.minVer < c.seqVer
  }

  /** The gate, for any number of clients and updates: between updates a client that sleeps although its
      priority has reached the published minimum had an update fall between its two loads, or the futex
      word has run through all its values since it loaded it. */
  lemma NoOtherLostWakeup(s: State, c: nat)
    requires Inv(s) && s.server.Idle? && c < |s.clients| && s.clients[c].pc.Asleep?
    ensures var client, slot := s.clients[c], s.slots[s.clients[c].pc.slot];
            client.priority >= slot.minPriority ==>
              UpdateBetweenLoads(client) || client.seqVer + TWO_TO_THE_32 <= slot.bumps
  {
    var client, i := s.clients[c], s.clients[c].pc.slot;
    assert SlotOk(s, i) && ClientOk(s, client);
    SameWord(client.seqVer, client.parkedVer);
  }

  /** A sleeper's minimum is out of date exactly when an update fell between its two loads, as long as
      the futex word has not wrapped around since. */
  lemma StaleExactly(s: State, c: nat)
    requires Inv(s) && s.server.Idle? && c < |s.clients| && s.clients[c].pc.Asleep?
    requires s.slots[s.clients[c].pc.slot].bumps < s.clients[c].seqVer + TWO_TO_THE_32
    ensures var client, slot := s.clients[c], s.slots[s.clients[c].pc.slot];
            client.minVer < slot.stores <==> UpdateBetweenLoads(client)
  {
    var client, i := s.clients[c], s.clients[c].pc.slot;
    assert SlotOk(s, i) && ClientOk(s, client);
    SameWord(client.seqVer, client.parkedVer);
  }

  lemma RunLast(s: State, actions: seq<Action>, a: Action)
    requires Shape(s)
    ensures Run(s, actions + [a]) == Step(Run(s, actions), a)
  {
    assert (actions + [a])[..|actions|] == actions;
  }

  lemma {:induction false} RunConcat(s: State, a: seq<Action>, b: seq<Action>)
    requires Shape(s)
    ensures Run(s, a + b) == Run(Run(s, a), b)
  {
    if b == [] {
      assert a + b == a;
    } else {
      var front, last := b[..|b| - 1], b[|b| - 1];
      assert a + b == (a + front) + [last];
      RunConcat(s, a, front);
      RunLast(s, a + front, last);
    }
  }

  lemma RunThree(s: State, a: Action, b: Action, c: Action)
    requires Shape(s)
    ensures Run(s, [a, b, c]) == Step(Step(Step(s, a), b), c)
  {
    RunOne(s, a);
    RunTwo(s, a, b);
    var s2 := Run(s, [a, b]);
    RunOne(s2, c);
    RunConcat(s, [a, b], [c]);
    assert [a, b] + [c] == [a, b, c];
  }

  lemma RunTwo(s: State, a: Action, b: Action)
    requires Shape(s)
    ensures Run(s, [a, b]) == Step(Step(s, a), b)
  {
    RunOne(s, a);
    var s1 := Run(s, [a]);
    RunOne(s1, b);
    RunConcat(s, [a], [b]);
    assert [a] + [b] == [a, b];
  }

  lemma RunOne(s: State, a: Action)
    requires Shape(s)
    ensures Run(s, [a]) == Step(s, a)
  {
    assert [a] == [] + [a];
    RunLast(s, [], a);
  }

  /** The server's update of a slot that its device already has. */
  const UPDATE := [ServerStep, ServerStep, ServerStep]

  lemma UpdateRuns(s: State, i: nat, prio: int)
    requires Inv(s) && s.server == Store(i, prio)
    ensures var t := Run(s, UPDATE);
            && t.server.Idle? && |t.clients| == |s.clients| && t.num == s.num
            && (forall c :: 0 <= c < |s.clients| && !s.clients[c].pc.Asleep? ==> t.clients[c] == s.clients[c])
            && t.slots[i].minPriority == prio && t.slots[i].device == s.slots[i].device
  {
    RunThree(s, ServerStep, ServerStep, ServerStep);
  }

  lemma Parks(s: State, c: nat)
    requires Shape(s) && c < |s.clients| && s.clients[c].pc.LoadSeq?
    ensures var t := Run(s, [ClientStep(c), ClientStep(c)]);
            && t.server == s.server && t.slots == s.slots && c < |t.clients| && t.clients[c].pc.Asleep?
            && t.clients[c].pc.slot == s.clients[c].pc.slot && t.clients[c].priority == s.clients[c].priority
  {
    var s1 := Step(s, ClientStep(c));
    assert s1.clients[c].pc.Wait? && s1.slots == s.slots && s1.server == s.server;
    var s2 := Step(s1, ClientStep(c));
    assert s2.clients[c].pc.Asleep? && s2.slots == s.slots && s2.server == s.server;
    RunLast(s, [], ClientStep(c));
    RunLast(s, [ClientStep(c)], ClientStep(c));
    assert [ClientStep(c)] + [ClientStep(c)] == [ClientStep(c), ClientStep(c)];
    assert Run(s, [ClientStep(c), ClientStep(c)]) == s2;
  }

  /** An update of the minimum of client c's device that falls between the two loads of the client. */
  function UpdateThenPark(device: int, prio: int, c: nat): seq<Action> {
    [Publish(device, prio)] + UPDATE + [ClientStep(c), ClientStep(c)]
  }

  /** And such an update does lose the wakeup: whenever a client is about to load the word and the server
      lowers the minimum to the client's priority or below, the client may end up asleep. */
  lemma LostWakeup(s: State, c: nat, prio: int)
    requires Inv(s) && s.server.Idle? && c < |s.clients| && s.clients[c].pc.LoadSeq?
    requires prio <= s.clients[c].priority
    ensures var i := s.clients[c].pc.slot;
            var t := Run(s, UpdateThenPark(s.slots[i].device, prio, c));
            && t.server.Idle? && c < |t.clients| && t.clients[c].pc.Asleep?
            && t.clients[c].pc.slot == i && t.clients[c].priority >= t.slots[i].minPriority
  {
    var i := s.clients[c].pc.slot;
    var d := s.slots[i].device;
    var s1 := Begin(s, d, prio);
    FoundAgain(s, i);
    BeginKeepsInv(s, d, prio);
    UpdateRuns(s1, i, prio);
    Parks(Run(s1, UPDATE), c);
    RunLast(s, [], Publish(d, prio));
    RunConcat(s, [Publish(d, prio)], UPDATE);
    RunConcat(s, [Publish(d, prio)] + UPDATE, [ClientStep(c), ClientStep(c)]);
  }

  lemma FoundAgain(s: State, i: nat)
    requires Inv(s) && s.server.Idle? && i < s.num
    ensures FindFrom(s.slots, s.num, s.slots[i].device, 0) == i
  {
  }

  // Both schedules start from the beginning.

  const CLAIM := [ServerStep, ServerStep, ServerStep, ServerStep]

  /** Device d is added and published at p, and client 0 of that device and priority q looks it up. */
  function ToLoadSeq(d: int, p: int, q: int): seq<Action> {
    ([Publish(d, p)] + CLAIM) + UPDATE + LookUp(d, q)
  }

  lemma Claims(lowest: int, d: int, p: int)
    ensures var s := Run(Initial(lowest, 1), [Publish(d, p)] + CLAIM);
            && s.server == Store(0, p) && s.num == 1 && s.slots[0].device == d
            && s.clients == [Client(0, 0, Runs, 0, 0, 0, {})]
  {
    var s := Initial(lowest, 1);
    RunThree(s, Publish(d, p), ServerStep, ServerStep);
    var t := Run(s, [Publish(d, p), ServerStep, ServerStep]);
    RunLast(t, [], ServerStep);
    RunLast(t, [ServerStep], ServerStep);
    assert [ServerStep] + [ServerStep] == [ServerStep, ServerStep];
    RunConcat(s, [Publish(d, p), ServerStep, ServerStep], [ServerStep, ServerStep]);
    assert [Publish(d, p), ServerStep, ServerStep] + [ServerStep, ServerStep] == [Publish(d, p)] + CLAIM;
  }

  /** The call of client 0 up to its load of the futex word. */
  function LookUp(d: int, q: int): seq<Action> {
    [Enter(0, d, q), ClientStep(0), ClientStep(0)] + [ClientStep(0)]
  }

  lemma LooksUp(s: State, d: int, q: int)
    requires Shape(s) && s.server.Idle? && s.num > 0 && s.slots[0].device == d && q < s.slots[0].minPriority
    requires |s.clients| == 1 && s.clients[0].pc.Runs?
    ensures var t := Run(s, LookUp(d, q));
            && t.server.Idle? && |t.clients| == 1 && t.clients[0].pc == LoadSeq(0) && t.clients[0].priority == q
            && t.slots == s.slots
  {
    RunThree(s, Enter(0, d, q), ClientStep(0), ClientStep(0));
    RunLast(s, [Enter(0, d, q), ClientStep(0), ClientStep(0)], ClientStep(0));
  }

  lemma LoadSeqReached(lowest: int, d: int, p: int, q: int)
    requires q < p
    ensures var s := Run(Initial(lowest, 1), ToLoadSeq(d, p, q));
            && s.server.Idle? && |s.clients| == 1 && s.clients[0].pc == LoadSeq(0) && s.clients[0].priority == q
            && s.slots[0].device == d
  {
    var s, claim := Initial(lowest, 1), [Publish(d, p)] + CLAIM;
    InitialInv(lowest, 1);
    RunKeepsInv(s, claim);
    Claims(lowest, d, p);
    UpdateRuns(Run(s, claim), 0, p);
    RunConcat(s, claim, UPDATE);
    LooksUp(Run(s, claim + UPDATE), d, q);
    RunConcat(s, claim + UPDATE, LookUp(d, q));
  }

  /** From an empty table, a client of any device whose priority is then published as enough sleeps on. */
  lemma LostWakeupFromStart(lowest: int, d: int, p: int, q: int)
    requires q < p
    ensures var s := Run(Initial(lowest, 1), ToLoadSeq(d, p, q) + UpdateThenPark(d, q, 0));
            && s.server.Idle? && |s.clients| == 1 && s.clients[0].pc.Asleep? && s.clients[0].pc.slot == 0
            && s.clients[0].priority >= s.slots[0].minPriority
  {
    var s := Initial(lowest, 1);
    InitialInv(lowest, 1);
    RunKeepsInv(s, ToLoadSeq(d, p, q));
    LoadSeqReached(lowest, d, p, q);
    LostWakeup(Run(s, ToLoadSeq(d, p, q)), 0, q);
    RunConcat(s, ToLoadSeq(d, p, q), UpdateThenPark(d, q, 0));
    ClientsStay(s, ToLoadSeq(d, p, q) + UpdateThenPark(d, q, 0));
  }

  lemma {:induction false} ClientsStay(s: State, actions: seq<Action>)
    requires Shape(s)
    ensures |Run(s, actions).clients| == |s.clients|
  {
    if actions == [] {
    } else {
      ClientsStay(s, actions[..|actions| - 1]);
    }
  }

  /** Slot i is not about to be given another device id. */
  predicate Settled(s: State, i: nat)
    requires i < |s.slots|
  {
    Unnamed(s.server, i) ==> s.server.device == s.slots[i].device
  }

  /** A settled slot keeps its device for the rest of the run. */
  lemma {:induction false} SettledStays(s: State, actions: seq<Action>, i: nat)
    requires Inv(s) && i < s.num && Settled(s, i)
    ensures var t := Run(s, actions);
            i < t.num && t.slots[i].device == s.slots[i].device && Settled(t, i)
  {
    if actions == [] {
    } else {
      var front := actions[..|actions| - 1];
      SettledStays(s, front, i);
      RunKeepsInv(s, front);
      assert SlotOk(Run(s, front), i);
    }
  }

  /** A named slot is settled. */
  lemma FoundSlotStays(s: State, actions: seq<Action>, i: nat)
    requires Inv(s) && i < s.num && !Unnamed(s.server, i)
    ensures i < Run(s, actions).num && Run(s, actions).slots[i].device == s.slots[i].device
  {
    SettledStays(s, actions, i);
  }

  /** A client that finds its device in a slot waits on a slot of its device from then on, in every run,
      exactly when that slot is settled. */
  lemma FoundSlotStaysExactly(s: State, c: nat)
    requires Inv(s) && c < |s.clients| && s.clients[c].pc.Compare?
    requires s.slots[s.clients[c].pc.slot].device == s.clients[c].device
    ensures var i := s.clients[c].pc.slot;
            (forall actions :: Run(s, actions).slots[i].device == s.clients[c].device) <==> Settled(s, i)
  {
    var i := s.clients[c].pc.slot;
    if Settled(s, i) {
      forall actions ensures Run(s, actions).slots[i].device == s.clients[c].device {
        SettledStays(s, actions, i);
      }
    } else {
      RunLast(s, [], ServerStep);
      assert Run(s, [ServerStep]).slots[i].device == s.server.device;
    }
  }

  /** Only a client of device 0 can find a slot that is not settled. It compares the slot between the count
      and the name, and waits on a slot that then becomes another device's. */
  lemma DeviceZeroMisdirected(s: State, c: nat, device: int)
    requires Inv(s) && s.server.SetId? && s.server.device == device != 0
    requires c < |s.clients| && s.clients[c].device == 0 && s.clients[c].pc == Compare(s.server.idx)
    ensures var t := Step(Step(s, ClientStep(c)), ServerStep);
            && c < |t.clients| && t.clients[c].pc == LoadPriority(s.server.idx) && t.clients[c].device == 0
            && t.slots[s.server.idx].device == device
  {
    assert SlotOk(s, s.server.idx);
  }

  /** It happens from an empty table, to any client of device 0. */
  lemma DeviceZeroMisdirectedFromStart(lowest: int, d: int, p: int, q: int)
    requires d != 0
    ensures var s := Run(Initial(lowest, 1),
                         [Publish(d, p), ServerStep, Enter(0, 0, q)] + [ClientStep(0), ClientStep(0), ServerStep]);
            && |s.clients| == 1 && s.clients[0].device == 0 && s.clients[0].pc == LoadPriority(0)
            && s.slots[0].device == d
  {
    var s := Initial(lowest, 1);
    RunThree(s, Publish(d, p), ServerStep, Enter(0, 0, q));
    var t := Run(s, [Publish(d, p), ServerStep, Enter(0, 0, q)]);
    RunThree(t, ClientStep(0), ClientStep(0), ServerStep);
    RunConcat(s, [Publish(d, p), ServerStep, Enter(0, 0, q)], [ClientStep(0), ClientStep(0), ServerStep]);
  }

  /** A client goes past slot 0 while it has no name. */
  function GoesPast(d: int, p: int, q: int): seq<Action> {
    [Publish(d, p), ServerStep, Enter(0, d, q)] + [ClientStep(0), ClientStep(0), ServerStep]
  }

  lemma Skips(lowest: int, d: int, p: int, q: int)
    requires d != 0
    ensures var s := Run(Initial(lowest, 1), GoesPast(d, p, q));
            && s.server == InitPriority(0, p) && s.num == 1 && s.slots[0].device == d
            && |s.clients| == 1 && s.clients[0].pc == Search(1)
            && s.clients[0].device == d && s.clients[0].priority == q
  {
    var s := Initial(lowest, 1);
    RunThree(s, Publish(d, p), ServerStep, Enter(0, d, q));
    var s1 := Run(s, [Publish(d, p), ServerStep, Enter(0, d, q)]);
    assert s1.server == SetId(0, d, p) && s1.num == 1 && s1.clients[0].pc == Search(0);
    assert s1.clients[0].device == d && s1.clients[0].priority == q && s1.slots[0].device == 0;
    RunThree(s1, ClientStep(0), ClientStep(0), ServerStep);
    RunConcat(s, [Publish(d, p), ServerStep, Enter(0, d, q)], [ClientStep(0), ClientStep(0), ServerStep]);
  }

  /** The exception in GateSafety is real, for every device but 0: a client that goes past a slot between
      its count and its name runs although the slot is its device's by then and gates above its
      priority. */
  lemma SkippedFromStart(lowest: int, d: int, p: int, q: int)
    requires d != 0
    ensures var s := Run(Initial(lowest, 1), GoesPast(d, p, q) + [ServerStep, ServerStep] + UPDATE);
            var t := Step(s, ClientStep(0));
            && s.server.Idle? && s.num == 1 && s.slots[0].device == d && s.slots[0].minPriority == p
            && |s.clients| == |t.clients| == 1 && !s.clients[0].pc.Runs? && t.clients[0].pc.Runs?
            && t.clients[0].device == d && t.clients[0].priority == q
  {
    var s, past := Initial(lowest, 1), GoesPast(d, p, q);
    Skips(lowest, d, p, q);
    RunLast(s, past, ServerStep);
    RunLast(s, past + [ServerStep], ServerStep);
    assert past + [ServerStep] + [ServerStep] == past + [ServerStep, ServerStep];
    InitialInv(lowest, 1);
    RunKeepsInv(s, past + [ServerStep, ServerStep]);
    UpdateRuns(Run(s, past + [ServerStep, ServerStep]), 0, p);
    RunConcat(s, past + [ServerStep, ServerStep], UPDATE);
  }

  /** A slot that was added but not yet published lets exactly the priorities of PRIORITY_MIN - 1 or more
      pass. */
  lemma UnpublishedSlotIsOpen(s: State, c: nat)
    requires Inv(s) && c < |s.clients| && s.clients[c].pc.LoadPriority?
    requires s.slots[s.clients[c].pc.slot].stores == 0
    ensures c < |Step(s, ClientStep(c)).clients|
    ensures Step(s, ClientStep(c)).clients[c].pc.Runs? <==> s.clients[c].priority >= s.lowest
  {
    assert SlotOk(s, s.clients[c].pc.slot);
  }

  /** From an empty table a client gets through before the first update of its device is published,
      whatever minimum that update is about to publish. */
  lemma RunsBeforeFirstUpdate(lowest: int, d: int, p: int, q: int)
    requires q >= lowest
    ensures var looking := Run(Initial(lowest, 1), [Publish(d, p), ServerStep, ServerStep]
                                                   + [Enter(0, d, q), ClientStep(0), ClientStep(0)]);
            var s := Step(looking, ClientStep(0));
            && |looking.clients| == |s.clients| == 1 && looking.clients[0].pc == LoadPriority(0)
            && s.server == InitPriority(0, p) && s.slots[0].stores == 0 && s.clients[0].pc.Runs?
  {
    var s := Initial(lowest, 1);
    InitialInv(lowest, 1);
    RunThree(s, Publish(d, p), ServerStep, ServerStep);
    var t := Run(s, [Publish(d, p), ServerStep, ServerStep]);
    assert t.server == InitPriority(0, p) && t.num == 1 && t.slots[0].device == d && t.slots[0].minPriority == lowest;
    RunThree(t, Enter(0, d, q), ClientStep(0), ClientStep(0));
    RunConcat(s, [Publish(d, p), ServerStep, ServerStep], [Enter(0, d, q), ClientStep(0), ClientStep(0)]);
  }
}
