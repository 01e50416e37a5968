/** The flag macros of khash (inc/khash.h), which pack a 2-bit state per bucket into 32-bit words. */
module Bits {
  import opened Probe

  /** The state of a bucket. Its code in the packed words is 0, 1, 2 or 3: the low bit is
      "deleted", the high bit is "empty". */
  datatype Lane = Live | Deleted | Empty | EmptyDeleted

  function LaneOfCode(c: bv32): Lane {
    if c == 0 then Live else if c == 1 then Deleted else if c == 2 then Empty else EmptyDeleted
  }

  /** (i & 0xf) << 1 */
  function Shift(i: nat): (s: bv6) {
    ((i % 16) as bv6) << 1
  }

  /** The lane that starts at bit s of a word. */
  function LaneFrom(w: bv32, s: bv6): Lane
    requires s < 32
  {
    LaneOfCode((w >> s) & 3)
  }

  /** The k-th lane of a word, counted from the low end. */
  function WordLane(w: bv32, k: nat): Lane {
    if k == 0 then LaneOfCode(w & 3) else WordLane(w >> 2, k - 1)
  }

  lemma ShiftSplits(w: bv32, s: bv6)
    requires 2 <= s < 32
    ensures w >> s == (w >> 2) >> (s - 2)
  {
  }

  lemma ShiftDown(k: nat)
    requires 0 < k < 16
    ensures 2 <= Shift(k) < 32 && Shift(k) - 2 == Shift(k - 1)
  {
  }

  lemma {:induction false} WordLaneIsShift(w: bv32, k: nat)
    requires k < 16
    ensures Shift(k) < 32 && WordLane(w, k) == LaneFrom(w, Shift(k))
  {
    ShiftRange(k);
    if k > 0 {
      WordLaneIsShift(w >> 2, k - 1);
      ShiftDown(k);
      ShiftSplits(w, Shift(k));
    } else {
      ShiftNone(w);
    }
  }

  lemma ShiftNone(w: bv32)
    ensures Shift(0) == 0 && w >> Shift(0) == w
  {
  }

  lemma ShiftRange(i: nat)
    ensures Shift(i) < 32 && Shift(i) & 1 == 0
  {
  }

  /** What the words say about bucket i. */
  function LaneAt(words: seq<bv32>, i: nat): Lane
    requires i < 16 * |words|
  {
    WordLane(words[i / 16], i % 16)
  }

  predicate IsEmpty(words: seq<bv32>, i: nat)
    requires i < 16 * |words|
  {
    ShiftRange(i);
    (words[i / 16] >> Shift(i)) & 2 != 0
  }

  predicate IsDel(words: seq<bv32>, i: nat)
    requires i < 16 * |words|
  {
    ShiftRange(i);
    (words[i / 16] >> Shift(i)) & 1 != 0
  }

  predicate IsEither(words: seq<bv32>, i: nat)
    requires i < 16 * |words|
  {
    ShiftRange(i);
    (words[i / 16] >> Shift(i)) & 3 != 0
  }

  lemma CastInjective(a: nat, b: nat)
    requires a < 16 && b < 16 && a != b
    ensures (a as bv6) < 16 && (b as bv6) < 16 && (a as bv6) != (b as bv6)
  {
  }

  lemma DoubleInjective(a: bv6, b: bv6)
    requires a < 16 && b < 16 && a != b
    ensures a << 1 != b << 1
  {
  }

  lemma ShiftsDiffer(i: nat, j: nat)
    requires i % 16 != j % 16
    ensures Shift(i) != Shift(j)
  {
    CastInjective(i % 16, j % 16);
    DoubleInjective((i % 16) as bv6, (j % 16) as bv6);
  }

  /** Clearing code bits of one lane: flag &= ~(code << shift). */
  function Cleared(w: bv32, s: bv6, code: bv32): bv32
    requires s < 32
  {
    w & !(code << s)
  }

  /** Setting code bits of one lane: flag |= code << shift. */
  function Raised(w: bv32, s: bv6, code: bv32): bv32
    requires s < 32
  {
    w | (code << s)
  }

  lemma OtherLanesKept(w: bv32, s: bv6, t: bv6, code: bv32)
    requires s < 32 && t < 32 && s & 1 == 0 && t & 1 == 0 && s != t && code <= 3
    ensures LaneFrom(Cleared(w, s, code), t) == LaneFrom(w, t)
    ensures LaneFrom(Raised(w, s, code), t) == LaneFrom(w, t)
  {
  }

  lemma OwnBits(w: bv32, s: bv6, code: bv32)
    requires s < 32 && s & 1 == 0 && code <= 3
    ensures (Cleared(w, s, code) >> s) & 3 == (w >> s) & 3 & !code
    ensures (Raised(w, s, code) >> s) & 3 == ((w >> s) & 3) | code
  {
  }

  lemma ClearedLane(w: bv32, i: nat, code: bv32)
    requires code <= 3
    ensures Shift(i) < 32
    ensures code == 3 ==> WordLane(Cleared(w, Shift(i), code), i % 16) == Live
    ensures code == 2 && WordLane(w, i % 16) == Empty ==> WordLane(Cleared(w, Shift(i), code), i % 16) == Live
  {
    ShiftRange(i);
    OwnBits(w, Shift(i), code);
    CodeBits((w >> Shift(i)) & 3);
    WordLaneIsShift(w, i % 16);
    WordLaneIsShift(Cleared(w, Shift(i), code), i % 16);
  }

  lemma RaisedLane(w: bv32, i: nat)
    ensures Shift(i) < 32
    ensures WordLane(w, i % 16) == Live ==> WordLane(Raised(w, Shift(i), 1), i % 16) == Deleted
  {
    ShiftRange(i);
    OwnBits(w, Shift(i), 1);
    CodeBits((w >> Shift(i)) & 3);
    WordLaneIsShift(w, i % 16);
    WordLaneIsShift(Raised(w, Shift(i), 1), i % 16);
  }

  lemma OtherLane(w: bv32, i: nat, code: bv32, k: nat)
    requires k < 16 && k != i % 16 && code <= 3
    ensures Shift(i) < 32
    ensures WordLane(Cleared(w, Shift(i), code), k) == WordLane(w, k)
    ensures WordLane(Raised(w, Shift(i), code), k) == WordLane(w, k)
  {
    ShiftRange(i);
    ShiftRange(k);
    ShiftsDiffer(i, k);
    OtherLanesKept(w, Shift(i), Shift(k), code);
    WordLaneIsShift(w, k);
    WordLaneIsShift(Cleared(w, Shift(i), code), k);
    WordLaneIsShift(Raised(w, Shift(i), code), k);
  }

  lemma CodeBits(c: bv32)
    requires c <= 3
    ensures LaneOfCode(c & !3) == Live
    ensures LaneOfCode(c) == Empty ==> LaneOfCode(c & !2) == Live
    ensures LaneOfCode(c) == Live ==> LaneOfCode(c | 1) == Deleted
  {
  }

  /** `lanes` is what the words say about the first |lanes| buckets. */
  ghost predicate Packs(words: seq<bv32>, lanes: seq<Lane>) {
    |lanes| <= 16 * |words| && PacksFirst(words, lanes, |lanes|)
  }

  ghost predicate PacksFirst(words: seq<bv32>, lanes: seq<Lane>, n: nat)
    requires n <= |lanes| <= 16 * |words|
  {
    n == 0 || (PacksFirst(words, lanes, n - 1) && LaneAt(words, n - 1) == lanes[n - 1])
  }

  lemma {:induction false} PacksFirstAt(words: seq<bv32>, lanes: seq<Lane>, n: nat, i: nat)
    requires i < n <= |lanes| <= 16 * |words| && PacksFirst(words, lanes, n)
    ensures LaneAt(words, i) == lanes[i]
  {
    if i == n - 1 {
    } else {
      PacksFirstAt(words, lanes, n - 1, i);
    }
  }

  lemma {:induction false} PacksFirstIntro(words: seq<bv32>, lanes: seq<Lane>, n: nat)
    requires n <= |lanes| <= 16 * |words|
    requires forall i :: 0 <= i < n ==> LaneAt(words, i) == lanes[i]
    ensures PacksFirst(words, lanes, n)
  {
    if n == 0 {
    } else {
      PacksFirstIntro(words, lanes, n - 1);
    }
  }

  lemma ReaderBits(c: bv32)
    ensures c & 2 != 0 <==> LaneOfCode(c & 3) == Empty || LaneOfCode(c & 3) == EmptyDeleted
    ensures c & 1 != 0 <==> LaneOfCode(c & 3) == Deleted || LaneOfCode(c & 3) == EmptyDeleted
    ensures c & 3 != 0 <==> LaneOfCode(c & 3) != Live
  {
  }

  /** What the three read macros report about a bucket. */
  lemma ReadersAgree(words: seq<bv32>, lanes: seq<Lane>, i: nat)
    requires Packs(words, lanes) && i < |lanes|
    ensures IsEmpty(words, i) <==> lanes[i] in {Empty, EmptyDeleted}
    ensures IsDel(words, i) <==> lanes[i] in {Deleted, EmptyDeleted}
    ensures IsEither(words, i) <==> lanes[i] != Live
  {
    PacksFirstAt(words, lanes, |lanes|, i);
    WordLaneIsShift(words[i / 16], i % 16);
    ShiftRange(i);
    ReaderBits(words[i / 16] >> Shift(i));
  }

  /** Replacing one word changes one lane when the other lanes of the word are kept. */
  lemma LaneUpdate(words: seq<bv32>, lanes: seq<Lane>, i: nat, w: bv32, lane: Lane)
    requires Packs(words, lanes) && i < |lanes|
    requires WordLane(w, i % 16) == lane
    requires forall k: nat :: k < 16 && k != i % 16 ==> WordLane(w, k) == WordLane(words[i / 16], k)
    ensures Packs(words[i / 16 := w], lanes[i := lane])
  {
    var words', lanes' := words[i / 16 := w], lanes[i := lane];
    forall j | 0 <= j < |lanes| ensures LaneAt(words', j) == lanes'[j] {
      PacksFirstAt(words, lanes, |lanes|, j);
    }
    PacksFirstIntro(words', lanes', |lanes|);
  }

  /** __ac_fsize */
  function FlagWords(m: nat): nat {
    if m < 16 then 1 else m / 16
  }

  function EmptyLanes(m: nat): seq<Lane> {
    seq(m, _ => Empty)
  }

  /** memset(flags, 0xaa, ...): every lane reads "empty". */
  method MarkAllEmpty(flags: array<bv32>, m: nat)
    requires m <= 16 * flags.Length
    modifies flags
    ensures Packs(flags[..], EmptyLanes(m))
  {
    for w := 0 to flags.Length
      invariant forall u :: 0 <= u < w ==> flags[u] == 0xaaaa_aaaa
    {
      flags[w] := 0xaaaa_aaaa;
    }
    forall i: nat | i < m ensures LaneAt(flags[..], i) == Empty {
      EmptyPattern(i % 16);
    }
    PacksFirstIntro(flags[..], EmptyLanes(m), m);
  }

  lemma FlagWordsSuffice(m: nat)
    requires IsPow2(m)
    ensures m <= 16 * FlagWords(m)
  {
    if m >= 16 {
      Times16(1);
      Pow2Divides(16, m);
    }
  }

  lemma EmptyPattern(k: nat)
    requires k < 16
    ensures WordLane(0xaaaa_aaaa, k) == Empty
  {
    WordLaneIsShift(0xaaaa_aaaa, k);
    EmptyPatternBits(k);
  }

  lemma EmptyPatternBits(k: nat)
    requires k < 16
    ensures Shift(k) < 32 && LaneFrom(0xaaaa_aaaa, Shift(k)) == Empty
  {
  }

  /** __ac_set_isdel_true */
  method SetIsDelTrue(flags: array<bv32>, i: nat, ghost lanes: seq<Lane>)
    requires Packs(flags[..], lanes) && i < |lanes| && lanes[i] == Live
    modifies flags
    ensures Packs(flags[..], lanes[i := Deleted])
  {
    ShiftRange(i);
    ghost var words := flags[..];
    PacksFirstAt(words, lanes, |lanes|, i);
    RaisedLane(words[i / 16], i);
    forall k: nat | k < 16 && k != i % 16
      ensures WordLane(Raised(words[i / 16], Shift(i), 1), k) == WordLane(words[i / 16], k)
    {
      OtherLane(words[i / 16], i, 1, k);
    }
    LaneUpdate(words, lanes, i, Raised(words[i / 16], Shift(i), 1), Deleted);
    flags[i / 16] := Raised(flags[i / 16], Shift(i), 1);
    assert flags[..] == words[i / 16 := Raised(words[i / 16], Shift(i), 1)];
  }

  /** __ac_set_isempty_false */
  method SetIsEmptyFalse(flags: array<bv32>, i: nat, ghost lanes: seq<Lane>)
    requires Packs(flags[..], lanes) && i < |lanes| && lanes[i] == Empty
    modifies flags
    ensures Packs(flags[..], lanes[i := Live])
  {
    ShiftRange(i);
    ghost var words := flags[..];
    PacksFirstAt(words, lanes, |lanes|, i);
    ClearedLane(words[i / 16], i, 2);
    forall k: nat | k < 16 && k != i % 16
      ensures WordLane(Cleared(words[i / 16], Shift(i), 2), k) == WordLane(words[i / 16], k)
    {
      OtherLane(words[i / 16], i, 2, k);
    }
    LaneUpdate(words, lanes, i, Cleared(words[i / 16], Shift(i), 2), Live);
    flags[i / 16] := Cleared(flags[i / 16], Shift(i), 2);
    assert flags[..] == words[i / 16 := Cleared(words[i / 16], Shift(i), 2)];
  }

  /** __ac_set_isboth_false */
  method SetIsBothFalse(flags: array<bv32>, i: nat, ghost lanes: seq<Lane>)
    requires Packs(flags[..], lanes) && i < |lanes|
    modifies flags
    ensures Packs(flags[..], lanes[i := Live])
  {
    ShiftRange(i);
    ghost var words := flags[..];
    PacksFirstAt(words, lanes, |lanes|, i);
    ClearedLane(words[i / 16], i, 3);
    forall k: nat | k < 16 && k != i % 16
      ensures WordLane(Cleared(words[i / 16], Shift(i), 3), k) == WordLane(words[i / 16], k)
    {
      OtherLane(words[i / 16], i, 3, k);
    }
    LaneUpdate(words, lanes, i, Cleared(words[i / 16], Shift(i), 3), Live);
    flags[i / 16] := Cleared(flags[i / 16], Shift(i), 3);
    assert flags[..] == words[i / 16 := Cleared(words[i / 16], Shift(i), 3)];
  }
}
