/** handle_tick as a whole, in both builds (src/dym_hook.c): select a context and charge it. A thread has a
    context of its own, a table of event contexts and the clock readings of its handlers. */
module Tick {
  import opened Context
  import opened EventBits
  import opened EventTable
  import opened EventApi
  import opened KHash
  import opened CriticalSection
  import opened Handlers

  /** What a tick reads and writes, in either build. */
  datatype TickState = TickState(own: LocalContext, m: map<int, LocalContext>, past: U64, avg: U64)

  /** The context a choice stands for. */
  function Chosen(choice: Choice, s: TickState): LocalContext
    requires choice.Event? ==> choice.idx in s.m
  {
    match choice
    case Default => s.own
    case Event(k) => s.m[k]
  }

  /** A tick that chose this context has charged it as its policy says, changed no other and waited as its
      policy asks. */
  ghost predicate Ticked(choice: Choice, s: TickState, s': TickState, t: TickInput, wait: int) {
    && (match choice
        case Default => s'.m == s.m
        case Event(k) => s'.own == s.own && k in s.m && k in s'.m && s'.m == s.m[k := s'.m[k]])
    && Charged(Chosen(choice, s), Chosen(choice, s'), s.past, s.avg, t) && Waits(Chosen(choice, s), s.past, t, wait)
    && s'.past == PastAfter(Chosen(choice, s).policy, s.past, t)
    && s'.avg == AverageAfter(Chosen(choice, s).policy, s.past, s.avg, t)
  }

  /** The choice determines the rest. */
  lemma TickedOnce(choice: Choice, s: TickState, a: TickState, b: TickState, t: TickInput, waitA: int, waitB: int)
    requires Ticked(choice, s, a, t, waitA) && Ticked(choice, s, b, t, waitB)
    ensures a == b && waitA == waitB
  {
    ChargedOnce(Chosen(choice, s), Chosen(choice, a), Chosen(choice, b), s.past, s.avg, t);
  }

  /** The contexts the tick may select have sizes their handlers can work with. */
  ghost predicate SelectionsFit(s: TickState, bits: seq<U64>, t: TickInput)
    requires AllTestable(s.m, bits)
  {
    forall level, choice :: IsSelection(s.m, bits, s.own.level, level, choice) ==> ChoiceFits(choice, s, t)
  }

  predicate ChoiceFits(choice: Choice, s: TickState, t: TickInput)
    requires choice.Event? ==> choice.idx in s.m
  {
    TickFits(Chosen(choice, s), s.past, s.avg, t)
  }

  /** The thread-local state of the array build. */
  class ArrayThread {
    const own: Cell
    const events: ArrayTable
    const handlers: TickHandlers

    constructor (ctx: LocalContext)
      ensures Valid() && State() == TickState(ctx, map[], 0, 1000000)
      ensures fresh(own) && fresh(events) && fresh(events.entries) && fresh(handlers)
    {
      own := new Cell(ctx);
      events := new ArrayTable();
      handlers := new TickHandlers();
    }

    ghost predicate Valid()
      reads this, events, events.entries
    {
      events.Valid() && AllKnown(events.contents)
    }

    ghost function State(): TickState
      reads this, own, events, handlers
    {
      TickState(own.ctx, events.contents, handlers.past, handlers.avgTimecost)
    }

    method Ask(c: Call) returns (r: int)
      requires Valid()
      modifies events, events.entries
      ensures Valid() && State() == old(State()).(m := Spec(old(State().m), c).0) && r == Spec(old(State().m), c).1
    {
      r := CallArray(events, c);
    }

    method Charge(choice: Choice, t: TickInput) returns (wait: int)
      requires Valid() && (choice.Event? ==> choice.idx in State().m) && ChoiceFits(choice, State(), t)
      modifies handlers, own, events`contents, events.entries
      ensures Valid() && Ticked(choice, old(State()), State(), t, wait)
    {
      match choice {
        case Default =>
          wait := handlers.HandleTick(own, t);
        case Event(k) =>
          var stored := events.GetCtx(k);
          var cell := new Cell(stored.value);
          wait := handlers.HandleTick(cell, t);
          events.SetCtx(k, cell.ctx);
      }
    }

    method Select(bits: SystemData) returns (level: int, choice: Choice)
      requires Valid() && bits.Valid()
      ensures AllTestable(State().m, bits.eventBits[..])
      ensures IsSelection(State().m, bits.eventBits[..], State().own.level, level, choice)
    {
      TestableWhenKnown(events.contents, bits.eventBits[..]);
      level, choice := events.Select(own.ctx, bits);
    }

    method ChoiceFitsNow(choice: Choice, t: TickInput) returns (fits: bool)
      requires Valid() && (choice.Event? ==> choice.idx in State().m)
      ensures fits <==> ChoiceFits(choice, State(), t)
    {
      match choice {
        case Default =>
          fits := TickFits(own.ctx, handlers.past, handlers.avgTimecost, t);
        case Event(k) =>
          var stored := events.GetCtx(k);
          fits := TickFits(stored.value, handlers.past, handlers.avgTimecost, t);
      }
    }

    method HandleTick(bits: SystemData, t: TickInput) returns (level: int, choice: Choice, wait: int)
      requires Valid() && bits.Valid() && AllTestable(State().m, bits.eventBits[..])
      requires SelectionsFit(State(), bits.eventBits[..], t)
      modifies handlers, own, events`contents, events.entries
      ensures Valid() && Ticked(choice, old(State()), State(), t, wait)
      ensures IsSelection(old(State().m), bits.eventBits[..], old(State().own.level), level, choice)
    {
      level, choice := Select(bits);
      wait := Charge(choice, t);
    }
  }

  /** And of the khash build. */
  class HashThread {
    const own: Cell
    const events: HashTable
    const handlers: TickHandlers

    constructor (ctx: LocalContext)
      ensures Valid() && State() == TickState(ctx, map[], 0, 1000000)
      ensures fresh(own) && fresh(events) && fresh(events.table) && fresh(handlers)
      ensures forall o :: o in events.table.Arrays() ==> fresh(o)
    {
      own := new Cell(ctx);
      events := new HashTable();
      handlers := new TickHandlers();
    }

    ghost predicate Valid()
      reads this, events, events.table, events.table.Arrays()
    {
      events.Valid() && AllKnown(events.table.contents)
    }

    ghost function State(): TickState
      reads this, own, events, events.table, handlers
    {
      TickState(own.ctx, events.table.contents, handlers.past, handlers.avgTimecost)
    }

    method Ask(c: Call) returns (r: int)
      requires Valid()
      modifies events.table, events.table.Arrays()
      ensures Valid() && State() == old(State()).(m := Spec(old(State().m), c).0) && r == Spec(old(State().m), c).1
      ensures forall o :: o in events.table.Arrays() ==> fresh(o) || o in old(events.table.Arrays())
    {
      SpecKnown(events.table.contents, c);
      r := CallHash(events, c, NO_FAILURE);
    }

    method Charge(choice: Choice, t: TickInput) returns (wait: int)
      requires Valid() && (choice.Event? ==> choice.idx in State().m) && ChoiceFits(choice, State(), t)
      modifies handlers, own, events.table`contents, events.table.vals
      ensures Valid() && Ticked(choice, old(State()), State(), t, wait)
    {
      match choice {
        case Default =>
          wait := handlers.HandleTick(own, t);
        case Event(k) =>
          var stored := events.GetCtx(k);
          var cell := new Cell(stored.value);
          wait := handlers.HandleTick(cell, t);
          events.SetCtx(k, cell.ctx);
      }
    }

    method Select(bits: SystemData) returns (level: int, choice: Choice)
      requires Valid() && bits.Valid()
      ensures AllTestable(State().m, bits.eventBits[..])
      ensures IsSelection(State().m, bits.eventBits[..], State().own.level, level, choice)
    {
      TestableWhenKnown(events.table.contents, bits.eventBits[..]);
      level, choice := events.Select(own.ctx, bits);
    }

    method ChoiceFitsNow(choice: Choice, t: TickInput) returns (fits: bool)
      requires Valid() && (choice.Event? ==> choice.idx in State().m)
      ensures fits <==> ChoiceFits(choice, State(), t)
    {
      match choice {
        case Default =>
          fits := TickFits(own.ctx, handlers.past, handlers.avgTimecost, t);
        case Event(k) =>
          var stored := events.GetCtx(k);
          fits := TickFits(stored.value, handlers.past, handlers.avgTimecost, t);
      }
    }

    method HandleTick(bits: SystemData, t: TickInput) returns (level: int, choice: Choice, wait: int)
      requires Valid() && bits.Valid() && AllTestable(State().m, bits.eventBits[..])
      requires SelectionsFit(State(), bits.eventBits[..], t)
      modifies handlers, own, events.table`contents, events.table.vals
      ensures Valid() && Ticked(choice, old(State()), State(), t, wait)
      ensures IsSelection(old(State().m), bits.eventBits[..], old(State().own.level), level, choice)
    {
      level, choice := Select(bits);
      wait := Charge(choice, t);
    }
  }
}
