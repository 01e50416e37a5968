/** The shared event bits: 1024 flags packed into sixteen 64-bit words, set and cleared by the
    daemon's apply and cancel commands (inc/robflex_def.h, src/server.c). */
module EventBits {
  import opened Context
  import opened EventNames
  import opened RoundUp

  const MAX_EVENT_NUM := 1024

  /** Bit i of a word. */
  predicate Bit(w: nat, i: nat) {
    if i == 0 then w % 2 == 1 else Bit(w / 2, i - 1)
  }

  /** (uint64_t)1u << bi */
  function Mask(bi: nat): nat {
    if bi == 0 then 1 else 2 * Mask(bi - 1)
  }

  /** a & b */
  function And(a: nat, b: nat): nat {
    if a == 0 || b == 0 then 0
    else 2 * And(a / 2, b / 2) + (if a % 2 == 1 && b % 2 == 1 then 1 else 0)
  }

  /** a & ~b */
  function AndNot(a: nat, b: nat): nat {
    if a == 0 then 0 else 2 * AndNot(a / 2, b / 2) + (if a % 2 == 1 && b % 2 == 0 then 1 else 0)
  }

  lemma {:induction false} ZeroHasNoBits(i: nat)
    ensures !Bit(0, i)
  {
    if i == 0 {
    } else {
      ZeroHasNoBits(i - 1);
    }
  }

  lemma OrHalf(a: nat, b: nat)
    ensures Or(a, b) / 2 == Or(a / 2, b / 2)
    ensures Or(a, b) % 2 == 1 <==> a % 2 == 1 || b % 2 == 1
  {
    OrParts(a, b);
  }

  lemma {:induction false} OrBit(a: nat, b: nat, i: nat)
    ensures Bit(Or(a, b), i) <==> Bit(a, i) || Bit(b, i)
  {
    OrHalf(a, b);
    if i == 0 {
    } else {
      OrBit(a / 2, b / 2, i - 1);
    }
  }

  lemma {:induction false} AndNotBit(a: nat, b: nat, i: nat)
    ensures Bit(AndNot(a, b), i) <==> Bit(a, i) && !Bit(b, i)
  {
    if a == 0 {
      ZeroHasNoBits(i);
    } else if i > 0 {
      AndNotBit(a / 2, b / 2, i - 1);
    }
  }

  lemma {:induction false} MaskBit(b: nat, i: nat)
    ensures Bit(Mask(b), i) <==> b == i
  {
    if b == 0 && i > 0 {
      ZeroHasNoBits(i - 1);
    } else if b > 0 && i > 0 {
      MaskBit(b - 1, i - 1);
    }
  }

  /** Testing a word against a mask reads that bit. */
  lemma {:induction false} MaskTest(w: nat, b: nat)
    ensures And(w, Mask(b)) != 0 <==> Bit(w, b)
  {
    if w == 0 {
      ZeroHasNoBits(b);
    } else if b > 0 {
      MaskTest(w / 2, b - 1);
    }
  }

  /** Word operations stay inside the word: p is 2 to the number of its bits. */
  lemma {:induction false} OpsInRange(a: nat, b: nat, k: nat)
    requires a < Mask(k) && b < Mask(k)
    ensures Or(a, b) < Mask(k) && AndNot(a, b) < Mask(k)
  {
    if k == 0 {
    } else {
      OpsInRange(a / 2, b / 2, k - 1);
      OrParts(a, b);
    }
  }

  lemma {:induction false} MaskGrows(a: nat, b: nat)
    requires a < b
    ensures 0 < Mask(a) < Mask(b)
  {
    if b > a + 1 {
      MaskGrows(a, b - 1);
    } else {
      MaskPositive(a);
    }
  }

  lemma {:induction false} MaskPositive(a: nat)
    ensures Mask(a) > 0
  {
    if a == 0 {
    } else {
      MaskPositive(a - 1);
    }
  }

  lemma MaskPlus4(a: nat)
    ensures Mask(a + 4) == 16 * Mask(a)
  {
    assert Mask(a + 3) == 2 * Mask(a + 2) && Mask(a + 2) == 2 * Mask(a + 1);
  }

  lemma MaskPlus16(a: nat)
    ensures Mask(a + 16) == 0x1_0000 * Mask(a)
  {
    MaskPlus4(a);
    MaskPlus4(a + 4);
    MaskPlus4(a + 8);
    MaskPlus4(a + 12);
  }

  lemma WordSize()
    ensures Mask(64) == TWO_TO_THE_64
  {
    MaskPlus16(0);
    MaskPlus16(16);
    MaskPlus16(32);
    MaskPlus16(48);
  }

  /** What the words say about event i. */
  predicate EventSet(words: seq<U64>, i: nat)
    requires i < 64 * |words|
  {
    Bit(words[i / 64], i % 64)
  }

  lemma WordInRange(w: U64, i: nat)
    ensures Or(w, Mask(i % 64)) < TWO_TO_THE_64 && AndNot(w, Mask(i % 64)) < TWO_TO_THE_64
  {
    WordSize();
    MaskGrows(i % 64, 64);
    OpsInRange(w, Mask(i % 64), 64);
  }

  /** The words after an event is set: it is set and no other event has changed. */
  lemma SetWord(words: seq<U64>, i: nat, j: nat)
    requires i < 64 * |words| && j < 64 * |words|
    ensures Or(words[i / 64], Mask(i % 64)) < TWO_TO_THE_64
    ensures EventSet(words[i / 64 := Or(words[i / 64], Mask(i % 64))], j) <==> j == i || EventSet(words, j)
  {
    WordInRange(words[i / 64], i);
    OrBit(words[i / 64], Mask(i % 64), j % 64);
    MaskBit(i % 64, j % 64);
  }

  /** The words after an event is cleared: it is clear and no other event has changed. */
  lemma ClearWord(words: seq<U64>, i: nat, j: nat)
    requires i < 64 * |words| && j < 64 * |words|
    ensures AndNot(words[i / 64], Mask(i % 64)) < TWO_TO_THE_64
    ensures EventSet(words[i / 64 := AndNot(words[i / 64], Mask(i % 64))], j) <==> j != i && EventSet(words, j)
  {
    WordInRange(words[i / 64], i);
    AndNotBit(words[i / 64], Mask(i % 64), j % 64);
    MaskBit(i % 64, j % 64);
  }

  /** A command of the daemon: the event name and strength fields may be missing. */
  datatype Command =
    | Apply(name: Option<string>, strength: bool)
    | Cancel(name: Option<string>)

  /** The command reaches an event bit, and it is that of idx. An unknown name reaches bit 0. */
  predicate Targets(c: Command, idx: nat) {
    c.name.Some? && (c.Apply? ==> c.strength) && EventIdx(c.name) == idx
  }

  /** The last command for idx, if there was one, was an apply. */
  ghost predicate LastWasApply(cs: seq<Command>, idx: nat, initially: bool) {
    if NoneTargets(cs, 0, idx) then initially else
      exists p :: 0 <= p < |cs| && Targets(cs[p], idx) && cs[p].Apply? && NoneTargets(cs, p + 1, idx)
  }

  ghost predicate NoneTargets(cs: seq<Command>, from: nat, idx: nat) {
    forall q :: from <= q < |cs| ==> !Targets(cs[q], idx)
  }

  lemma LastWasApplyStep(cs: seq<Command>, c: Command, idx: nat, initially: bool)
    ensures LastWasApply(cs + [c], idx, initially) <==>
              if Targets(c, idx) then c.Apply? else LastWasApply(cs, idx, initially)
  {
    var all := cs + [c];
    assert all[|cs|] == c && all[..|cs|] == cs;
    if Targets(c, idx) {
      assert NoneTargets(all, |cs| + 1, idx);
      assert !NoneTargets(all, 0, idx);
    } else {
      forall p | 0 <= p <= |cs| ensures NoneTargets(all, p, idx) <==> NoneTargets(cs, p, idx) {
        assert forall q :: p <= q < |cs| ==> all[q] == cs[q];
      }
      assert forall p :: 0 <= p < |cs| ==> all[p] == cs[p];
    }
  }

  /** The event words of SystemData. */
  class SystemData {
    const eventBits: array<U64>

    ghost predicate Valid()
      reads this
    {
      eventBits.Length == MAX_EVENT_NUM / 64
    }

    /** The event bits as a predicate on events. */
    ghost predicate IsSet(idx: nat)
      requires Valid() && idx < MAX_EVENT_NUM
      reads this, eventBits
    {
      EventSet(eventBits[..], idx)
    }

    constructor ()
      ensures Valid() && fresh(eventBits)
      ensures forall i :: 0 <= i < MAX_EVENT_NUM ==> !IsSet(i)
    {
      eventBits := new U64[MAX_EVENT_NUM / 64](_ => 0);
      new;
      forall i | 0 <= i < MAX_EVENT_NUM ensures !IsSet(i) {
        ZeroHasNoBits(i % 64);
      }
    }

    method SetEventBit(idx: int) returns (r: int)
      requires Valid()
      modifies eventBits
      ensures r == if 0 <= idx < MAX_EVENT_NUM then 0 else -1
      ensures forall j :: 0 <= j < MAX_EVENT_NUM ==> (IsSet(j) <==> j == idx || old(IsSet(j)))
    {
      if idx < 0 || idx >= MAX_EVENT_NUM {
        return -1;
      }
      var wi, bi := idx / 64, idx % 64;
      ghost var words := eventBits[..];
      WordInRange(eventBits[wi], idx);
      eventBits[wi] := Or(eventBits[wi], Mask(bi));
      assert eventBits[..] == words[wi := Or(words[wi], Mask(bi))];
      forall j | 0 <= j < MAX_EVENT_NUM ensures IsSet(j) <==> j == idx || EventSet(words, j) {
        SetWord(words, idx, j);
      }
      return 0;
    }

    method UnsetEventBit(idx: int) returns (r: int)
      requires Valid()
      modifies eventBits
      ensures r == if 0 <= idx < MAX_EVENT_NUM then 0 else -1
      ensures forall j :: 0 <= j < MAX_EVENT_NUM ==> (IsSet(j) <==> j != idx && old(IsSet(j)))
    {
      if idx < 0 || idx >= MAX_EVENT_NUM {
        return -1;
      }
      var wi, bi := idx / 64, idx % 64;
      ghost var words := eventBits[..];
      WordInRange(eventBits[wi], idx);
      eventBits[wi] := AndNot(eventBits[wi], Mask(bi));
      assert eventBits[..] == words[wi := AndNot(words[wi], Mask(bi))];
      forall j | 0 <= j < MAX_EVENT_NUM ensures IsSet(j) <==> j != idx && EventSet(words, j) {
        ClearWord(words, idx, j);
      }
      return 0;
    }

    /** test_event_bit */
    method TestEventBit(idx: int) returns (active: bool)
      requires Valid()
      ensures active <==> 0 <= idx < MAX_EVENT_NUM && IsSet(idx)
    {
      if idx < 0 || idx >= MAX_EVENT_NUM {
        return false;
      }
      MaskTest(eventBits[idx / 64], idx % 64);
      return And(eventBits[idx / 64], Mask(idx % 64)) != 0;
    }

    /** robflex_test_event (src/robflex_api.c), which does not check the upper bound. */
    method TestEvent(idx: int) returns (active: bool)
      requires Valid() && -1 <= idx < MAX_EVENT_NUM
      ensures active <==> idx != -1 && IsSet(idx)
    {
      if idx == -1 {
        return false;
      }
      MaskTest(eventBits[idx / 64], idx % 64);
      return And(eventBits[idx / 64], Mask(idx % 64)) != 0;
    }

    /** do_apply_event and do_cancel_event. Their test for index -1 never fires: a name the lookup does
        not know has index 0. */
    method Do(c: Command) returns (r: int)
      requires Valid()
      modifies eventBits
      ensures r == 0 <==> exists idx :: Targets(c, idx)
      ensures r != 0 ==> r == -1
      ensures r == 0 <==> c.name.Some? && (c.Apply? ==> c.strength)
      ensures var idx := EventIdx(c.name);
              idx < MAX_EVENT_NUM && (IsSet(idx) <==> if r == 0 then c.Apply? else old(IsSet(idx)))
      ensures forall j :: 0 <= j < MAX_EVENT_NUM ==>
                (IsSet(j) <==> if Targets(c, j) then c.Apply? else old(IsSet(j)))
    {
      if c.name.None? || (c.Apply? && !c.strength) {
        return -1;
      }
      KnownNames(c.name);
      var idx := GetEventIdx(c.name);
      assert Targets(c, idx);
      match c {
        case Apply(_, _) => r := SetEventBit(idx);
        case Cancel(_) => r := UnsetEventBit(idx);
      }
    }

    /** After any history of commands an event is set exactly when its last command was apply, or when
        it was set before and had no command. */
    method Serve(cs: seq<Command>)
      requires Valid()
      modifies eventBits
      ensures forall j :: 0 <= j < MAX_EVENT_NUM ==> (IsSet(j) <==> LastWasApply(cs, j, old(IsSet(j))))
    {
      for k := 0 to |cs|
        invariant forall j :: 0 <= j < MAX_EVENT_NUM ==> (IsSet(j) <==> LastWasApply(cs[..k], j, old(IsSet(j))))
      {
        var _ := Do(cs[k]);
        assert cs[..k] + [cs[k]] == cs[..k + 1];
        forall j | 0 <= j < MAX_EVENT_NUM
          ensures IsSet(j) <==> LastWasApply(cs[..k + 1], j, old(IsSet(j)))
        {
          LastWasApplyStep(cs[..k], cs[k], j, old(IsSet(j)));
        }
      }
      assert cs[..|cs|] == cs;
    }
  }
}
