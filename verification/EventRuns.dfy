/** Runs of a thread of either build: calls, commands to the daemon that owns the event bits, and ticks, in
    any order. */
module EventRuns {
  import opened Context
  import opened EventBits
  import opened EventNames
  import opened EventTable
  import opened EventApi
  import opened Handlers
  import opened Tick

  datatype Move = Ask(call: Call) | Tell(command: Command) | Fire(t: TickInput)

  datatype Answer = Code(r: int) | Ran(level: int, choice: Choice, wait: int)

  /** The state of a thread and the event bits. */
  datatype System = System(s: TickState, bits: seq<U64>)

  ghost predicate Testable(x: System) {
    |x.bits| == 16 && AllKnown(x.s.m) && AllTestable(x.s.m, x.bits)
  }

  /** The bits after a command. */
  ghost predicate Told(bits: seq<U64>, c: Command, r: int, bits': seq<U64>) {
    && (r == 0 <==> exists idx :: Targets(c, idx)) && (r != 0 ==> r == -1) && |bits'| == |bits|
    && forall j :: 0 <= j < 64 * |bits| ==>
         (EventSet(bits', j) <==> if Targets(c, j) then c.Apply? else EventSet(bits, j))
  }

  /** A tick that answers so. */
  ghost predicate Fired(x: System, t: TickInput, answer: Answer, s': TickState)
    requires Testable(x)
  {
    && answer.Ran? && IsSelection(x.s.m, x.bits, x.s.own.level, answer.level, answer.choice)
    && ChoiceFits(answer.choice, x.s, t) && Ticked(answer.choice, x.s, s', t, answer.wait)
  }

  ghost predicate Moved(x: System, move: Move, answer: Answer, x': System) {
    && Testable(x) && Testable(x')
    && match move
       case Ask(call) => x' == x.(s := x.s.(m := Spec(x.s.m, call).0)) && answer == Code(Spec(x.s.m, call).1)
       case Tell(command) => x'.s == x.s && answer.Code? && Told(x.bits, command, answer.r, x'.bits)
       case Fire(t) => x'.bits == x.bits && Fired(x, t, answer, x'.s)
  }

  /** A thread that starts with no event context and no event set. */
  ghost predicate Starts(own: LocalContext, x: System) {
    x.s == TickState(own, map[], 0, 1000000) && Testable(x) && forall j :: 0 <= j < 64 * 16 ==> !EventSet(x.bits, j)
  }

  /** The answers to the first moves, with the states the system goes through. */
  ghost predicate IsRun(own: LocalContext, moves: seq<Move>, answers: seq<Answer>, xs: seq<System>) {
    && |answers| <= |moves| && |xs| == |answers| + 1 && Starts(own, xs[0])
    && forall i :: 0 <= i < |answers| ==> Moved(xs[i], moves[i], answers[i], xs[i + 1])
  }

  /** The run is complete, or ends before a tick that may select a context whose sizes its handler cannot
      work with. */
  ghost predicate EndsFitting(moves: seq<Move>, answers: seq<Answer>, xs: seq<System>) {
    |answers| < |moves| && |xs| == |answers| + 1 ==>
      var x, move := xs[|answers|], moves[|answers|];
      Testable(x) && move.Fire? && !SelectionsFit(x.s, x.bits, move.t)
  }

  /** The answers a thread can give to the moves. */
  ghost predicate CanAnswer(own: LocalContext, moves: seq<Move>, answers: seq<Answer>) {
    exists xs :: IsRun(own, moves, answers, xs) && EndsFitting(moves, answers, xs)
  }

  lemma RunGrows(own: LocalContext, moves: seq<Move>, answers: seq<Answer>, xs: seq<System>, answer: Answer, x: System)
    requires IsRun(own, moves, answers, xs) && |answers| < |moves|
    requires Moved(xs[|answers|], moves[|answers|], answer, x)
    ensures IsRun(own, moves, answers + [answer], xs + [x])
  {
    var answers', xs' := answers + [answer], xs + [x];
    forall i | 0 <= i < |answers'| ensures Moved(xs'[i], moves[i], answers'[i], xs'[i + 1]) {
      if i < |answers| {
        assert Moved(xs[i], moves[i], answers[i], xs[i + 1]);
      }
    }
  }

  lemma StartsEmpty(own: LocalContext, bits: SystemData)
    requires bits.Valid() && forall j :: 0 <= j < MAX_EVENT_NUM ==> !bits.IsSet(j)
    ensures Starts(own, System(TickState(own, map[], 0, 1000000), bits.eventBits[..]))
  {
    forall j | 0 <= j < 64 * 16 ensures !EventSet(bits.eventBits[..], j) {
      assert !bits.IsSet(j);
    }
  }

  // The array build.

  ghost function ArraySystem(a: ArrayThread, bits: SystemData): System
    reads a, a.own, a.events, a.handlers, bits, bits.eventBits
  {
    System(a.State(), bits.eventBits[..])
  }

  method MoveArray(a: ArrayThread, bits: SystemData, move: Move) returns (done: bool, answer: Answer)
    requires a.Valid() && bits.Valid() && a.events.entries as object != bits.eventBits
    modifies a.own, a.events, a.events.entries, a.handlers, bits.eventBits
    ensures a.Valid() && Testable(ArraySystem(a, bits)) && Testable(old(ArraySystem(a, bits)))
    ensures done ==> Moved(old(ArraySystem(a, bits)), move, answer, ArraySystem(a, bits))
    ensures !done ==> ArraySystem(a, bits) == old(ArraySystem(a, bits)) && move.Fire? &&
                      !SelectionsFit(a.State(), bits.eventBits[..], move.t)
  {
    TestableWhenKnown(a.State().m, bits.eventBits[..]);
    done, answer := true, Code(0);
    match move {
      case Ask(call) =>
        var r := a.Ask(call);
        answer := Code(r);
        TestableWhenKnown(a.State().m, bits.eventBits[..]);
      case Tell(command) =>
        var r := TellBits(bits, command);
        answer := Code(r);
      case Fire(t) =>
        var level, choice := a.Select(bits);
        done := a.ChoiceFitsNow(choice, t);
        if done {
          var wait := a.Charge(choice, t);
          answer := Ran(level, choice, wait);
        }
    }
  }

  method TellBits(bits: SystemData, c: Command) returns (r: int)
    requires bits.Valid()
    modifies bits.eventBits
    ensures Told(old(bits.eventBits[..]), c, r, bits.eventBits[..])
  {
    ghost var words := bits.eventBits[..];
    r := bits.Do(c);
    forall j | 0 <= j < 64 * |words|
      ensures EventSet(bits.eventBits[..], j) <==> if Targets(c, j) then c.Apply? else EventSet(words, j)
    {
      assert bits.IsSet(j) <==> if Targets(c, j) then c.Apply? else old(bits.IsSet(j));
    }
  }

  /** Every run of the array build is a run of that system. */
  method RunArrayThread(own: LocalContext, moves: seq<Move>) returns (answers: seq<Answer>, ghost xs: seq<System>)
    ensures IsRun(own, moves, answers, xs) && EndsFitting(moves, answers, xs) && CanAnswer(own, moves, answers)
  {
    var a := new ArrayThread(own);
    var bits := new SystemData();
    StartsEmpty(own, bits);
    answers, xs := [], [ArraySystem(a, bits)];
    for n := 0 to |moves|
      invariant a.Valid() && bits.Valid() && a.events.entries as object != bits.eventBits
      invariant fresh(a.own) && fresh(a.events) && fresh(a.events.entries) && fresh(a.handlers) && fresh(bits.eventBits)
      invariant IsRun(own, moves, answers, xs) && |answers| == n && xs[n] == ArraySystem(a, bits)
    {
      var done, answer := MoveArray(a, bits, moves[n]);
      if !done {
        return;
      }
      RunGrows(own, moves, answers, xs, answer, ArraySystem(a, bits));
      answers, xs := answers + [answer], xs + [ArraySystem(a, bits)];
    }
  }

  // The khash build.

  ghost function HashSystem(h: HashThread, bits: SystemData): System
    reads h, h.own, h.events, h.events.table, h.handlers, bits, bits.eventBits
  {
    System(h.State(), bits.eventBits[..])
  }

  method MoveHash(h: HashThread, bits: SystemData, move: Move) returns (done: bool, answer: Answer)
    requires h.Valid() && bits.Valid() && bits.eventBits !in h.events.table.Arrays()
    modifies h.own, h.events.table, h.events.table.Arrays(), h.handlers, bits.eventBits
    ensures h.Valid() && Testable(HashSystem(h, bits)) && Testable(old(HashSystem(h, bits)))
    ensures forall o :: o in h.events.table.Arrays() ==> fresh(o) || o in old(h.events.table.Arrays())
    ensures done ==> Moved(old(HashSystem(h, bits)), move, answer, HashSystem(h, bits))
    ensures !done ==> HashSystem(h, bits) == old(HashSystem(h, bits)) && move.Fire? &&
                      !SelectionsFit(h.State(), bits.eventBits[..], move.t)
  {
    TestableWhenKnown(h.State().m, bits.eventBits[..]);
    done, answer := true, Code(0);
    match move {
      case Ask(call) =>
        var r := h.Ask(call);
        answer := Code(r);
        TestableWhenKnown(h.State().m, bits.eventBits[..]);
      case Tell(command) =>
        var r := TellBits(bits, command);
        answer := Code(r);
      case Fire(t) =>
        var level, choice := h.Select(bits);
        done := h.ChoiceFitsNow(choice, t);
        if done {
          var wait := h.Charge(choice, t);
          answer := Ran(level, choice, wait);
        }
    }
  }

  /** So is every run of the khash build. */
  method RunHashThread(own: LocalContext, moves: seq<Move>) returns (answers: seq<Answer>, ghost xs: seq<System>)
    ensures IsRun(own, moves, answers, xs) && EndsFitting(moves, answers, xs) && CanAnswer(own, moves, answers)
  {
    var h := new HashThread(own);
    var bits := new SystemData();
    StartsEmpty(own, bits);
    answers, xs := [], [HashSystem(h, bits)];
    for n := 0 to |moves|
      invariant h.Valid() && bits.Valid() && bits.eventBits !in h.events.table.Arrays()
      invariant fresh(h.own) && fresh(h.events.table) && fresh(h.handlers) && fresh(bits.eventBits)
      invariant forall o :: o in h.events.table.Arrays() ==> fresh(o)
      invariant IsRun(own, moves, answers, xs) && |answers| == n && xs[n] == HashSystem(h, bits)
    {
      var done, answer := MoveHash(h, bits, moves[n]);
      if !done {
        return;
      }
      RunGrows(own, moves, answers, xs, answer, HashSystem(h, bits));
      answers, xs := answers + [answer], xs + [HashSystem(h, bits)];
    }
  }

  // Without a tie the system leaves no choice.

  /** Equal but for the way the bits are spread over words. */
  ghost predicate SameSystem(x: System, y: System) {
    && x.s == y.s && |x.bits| == |y.bits|
    && forall j :: 0 <= j < 64 * |x.bits| ==> (EventSet(x.bits, j) <==> EventSet(y.bits, j))
  }

  ghost predicate NoTie(x: System)
    requires Testable(x)
  {
    forall level :: !AnyTie(x.s.m, x.bits, x.s.own.level, level)
  }

  lemma SameChoice(x: System, y: System, level: int, choice: Choice, level': int, choice': Choice)
    requires Testable(x) && Testable(y) && SameSystem(x, y) && NoTie(x)
    requires IsSelection(x.s.m, x.bits, x.s.own.level, level, choice)
    requires IsSelection(y.s.m, y.bits, y.s.own.level, level', choice')
    ensures level == level' && choice == choice'
  {
    UnknownNamesIrrelevant(x.s.m, x.bits, y.bits, x.s.own.level, level', choice');
    SelectionsAgree(x.s.m, x.bits, x.s.own.level, level, choice);
  }

  lemma MoveAgrees(x: System, y: System, move: Move, a: Answer, b: Answer, x': System, y': System)
    requires SameSystem(x, y) && Moved(x, move, a, x') && Moved(y, move, b, y')
    requires move.Fire? ==> NoTie(x)
    ensures a == b && SameSystem(x', y')
  {
    match move
    case Ask(call) =>
    case Tell(command) =>
      forall j | 0 <= j < 64 * |x'.bits| ensures EventSet(x'.bits, j) <==> EventSet(y'.bits, j) {
        assert EventSet(x.bits, j) <==> EventSet(y.bits, j);
      }
    case Fire(t) =>
      SameChoice(x, y, a.level, a.choice, b.level, b.choice);
      TickedOnce(a.choice, x.s, x'.s, y'.s, t, a.wait, b.wait);
  }

  /** No tick of the run finds two events that share the highest level. */
  ghost predicate NoTies(moves: seq<Move>, xs: seq<System>) {
    forall i :: 0 <= i < |moves| && i < |xs| && moves[i].Fire? ==> Testable(xs[i]) && NoTie(xs[i])
  }

  /** No run of these moves finds a tie. */
  ghost predicate TieFree(own: LocalContext, moves: seq<Move>) {
    forall answers, xs :: IsRun(own, moves, answers, xs) ==> NoTies(moves, xs)
  }

  lemma {:induction false} RunsAgree(own: LocalContext, moves: seq<Move>, a: seq<Answer>, xs: seq<System>,
                                     b: seq<Answer>, ys: seq<System>, n: nat)
    requires IsRun(own, moves, a, xs) && IsRun(own, moves, b, ys) && NoTies(moves, xs)
    requires n <= |a| && n <= |b|
    ensures a[..n] == b[..n] && SameSystem(xs[n], ys[n])
  {
    if n == 0 {
    } else {
      RunsAgree(own, moves, a, xs, b, ys, n - 1);
      assert Moved(xs[n - 1], moves[n - 1], a[n - 1], xs[n - 1 + 1]);
      assert Moved(ys[n - 1], moves[n - 1], b[n - 1], ys[n - 1 + 1]);
      MoveAgrees(xs[n - 1], ys[n - 1], moves[n - 1], a[n - 1], b[n - 1], xs[n], ys[n]);
      assert a[..n] == a[..n - 1] + [a[n - 1]] && b[..n] == b[..n - 1] + [b[n - 1]];
    }
  }

  /** Where one run ends the other does not go on. */
  lemma EndTogether(own: LocalContext, moves: seq<Move>, a: seq<Answer>, xs: seq<System>,
                    b: seq<Answer>, ys: seq<System>)
    requires IsRun(own, moves, a, xs) && IsRun(own, moves, b, ys) && NoTies(moves, xs)
    requires EndsFitting(moves, a, xs) && EndsFitting(moves, b, ys)
    ensures |a| == |b|
  {
    var n := if |a| < |b| then |a| else |b|;
    RunsAgree(own, moves, a, xs, b, ys, n);
    if n < |b| {
      assert Moved(ys[n], moves[n], b[n], ys[n + 1]);
      LeftFits(xs[n], ys[n], moves[n].t, b[n].level, b[n].choice);
      assert false;
    } else if n < |a| {
      assert Moved(xs[n], moves[n], a[n], xs[n + 1]);
      RightFits(xs[n], ys[n], moves[n].t, a[n].level, a[n].choice);
      assert false;
    }
  }

  /** The only selection fits on one side if it does on the other. */
  lemma LeftFits(x: System, y: System, t: TickInput, level: int, choice: Choice)
    requires Testable(x) && Testable(y) && SameSystem(x, y) && NoTie(x)
    requires IsSelection(y.s.m, y.bits, y.s.own.level, level, choice) && ChoiceFits(choice, y.s, t)
    ensures SelectionsFit(x.s, x.bits, t)
  {
    forall l, c | IsSelection(x.s.m, x.bits, x.s.own.level, l, c) ensures ChoiceFits(c, x.s, t) {
      SameChoice(x, y, l, c, level, choice);
    }
  }

  lemma RightFits(x: System, y: System, t: TickInput, level: int, choice: Choice)
    requires Testable(x) && Testable(y) && SameSystem(x, y) && NoTie(x)
    requires IsSelection(x.s.m, x.bits, x.s.own.level, level, choice) && ChoiceFits(choice, x.s, t)
    ensures SelectionsFit(y.s, y.bits, t)
  {
    forall l, c | IsSelection(y.s.m, y.bits, y.s.own.level, l, c) ensures ChoiceFits(c, y.s, t) {
      SameChoice(x, y, level, choice, l, c);
    }
  }

  /** The builds cannot be told apart by any run of calls, commands and ticks in which no tick finds a tie
      above the default: they give the same answers, charge the same contexts and end in the same state. */
  method RunTwins(own: LocalContext, moves: seq<Move>)
    returns (left: seq<Answer>, right: seq<Answer>, ghost xs: seq<System>, ghost ys: seq<System>)
    ensures IsRun(own, moves, left, xs) && EndsFitting(moves, left, xs)
    ensures IsRun(own, moves, right, ys) && EndsFitting(moves, right, ys)
    ensures NoTies(moves, xs) ==> left == right && SameSystem(xs[|left|], ys[|right|])
    ensures CanAnswer(own, moves, left) && CanAnswer(own, moves, right)
    ensures TieFree(own, moves) ==> left == right
  {
    left, xs := RunArrayThread(own, moves);
    right, ys := RunHashThread(own, moves);
    if NoTies(moves, xs) {
      EndTogether(own, moves, left, xs, right, ys);
      RunsAgree(own, moves, left, xs, right, ys, |left|);
      assert left[..|left|] == left && right[..|right|] == right;
    }
  }

  /** A command with a name the lookup does not know leaves every selection as it was. */
  method TellUnknown(bits: SystemData, c: Command) returns (r: int)
    requires bits.Valid() && EventIdx(c.name) == EVENT_NONE
    modifies bits.eventBits
    ensures bits.Valid() && forall m, base, level, choice :: AllTestable(m, bits.eventBits[..]) ==>
              (IsSelection(m, bits.eventBits[..], base, level, choice) <==>
               IsSelection(m, old(bits.eventBits[..]), base, level, choice))
  {
    ghost var words := bits.eventBits[..];
    KnownNames(c.name);
    r := bits.Do(c);
    ghost var words' := bits.eventBits[..];
    forall k | 0 < k < 64 * |words| ensures EventSet(words, k) <==> EventSet(words', k) {
      assert bits.IsSet(k) == old(bits.IsSet(k));
    }
    forall m, base, level, choice | AllTestable(m, words')
      ensures IsSelection(m, words', base, level, choice) <==> IsSelection(m, words, base, level, choice)
    {
      UnknownNamesIrrelevant(m, words', words, base, level, choice);
    }
  }
}
