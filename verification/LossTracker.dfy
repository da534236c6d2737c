/** trpr's LossTracker3: a sliding bitmap of received sequence numbers, across sequence wrap. */
module LossTracking {

  const SPACE: int := 0x1_0000_0000    // 32-bit sequence space: seq_max + 1
  const COUNT_SPACE: int := 0x1_0000_0000_0000_0000    // unsigned long
  const HALF: int := 0x8000_0000       // seq_sign
  const QUARTER: int := 0x3fff_ffff    // seq_qtr
  const WORDS: int := 32               // HISTORY_MAX
  const BITS: int := 1024              // flags in the bitmap

  /** Full sequence cycles below a position, and its 32-bit sequence number. */
  function Cycle(x: int): int {
    x / 0x1_0000_0000
  }

  function Wrap(x: int): (r: int)
    ensures 0 <= r < SPACE && x == 0x1_0000_0000 * Cycle(x) + r
  {
    x % 0x1_0000_0000
  }

  /** SeqDelta on 64-bit longs: the low 32 bits of a - b, sign-extended unless a - b is the sign bit. */
  function SeqDelta(a: int, b: int): int {
    var low := Wrap(a - b);
    if low < HALF then low
    else if a - b != HALF || a < b then low - SPACE
    else a - b
  }

  /** A circular difference: congruent to a - b, within half the space, zero only on equality, and
      antisymmetric even at the tie. */
  lemma SeqDeltaIsCircular(a: int, b: int)
    requires 0 <= a < SPACE && 0 <= b < SPACE
    ensures Wrap(SeqDelta(a, b) - (a - b)) == 0
    ensures -HALF <= SeqDelta(a, b) <= HALF
    ensures SeqDelta(a, b) == 0 <==> a == b
    ensures SeqDelta(a, b) == -SeqDelta(b, a)
  {
  }

  lemma AddBlocks(x: int, m: int)
    ensures (x + 64 * m) % 64 == x % 64
  {
  }

  lemma AddCycles(x: int, m: int)
    ensures Wrap(x + 0x1_0000_0000 * m) == Wrap(x)
  {
  }

  lemma AddWords(x: int, m: int)
    ensures (x + 32 * m) % 32 == x % 32
  {
  }

  /** The tracker with absolute positions: `base` is where the bitmap starts, `seen` what it recorded. */
  datatype Window = Window(base: int, seen: set<int>, last: int, wraps: nat, packets: nat, duplicates: nat)

  datatype Verdict = TooOld | Near | Far | Outage

  function Index(w: Window, sn: int): int {
    SeqDelta(sn, Wrap(w.base))
  }

  function Classify(w: Window, sn: int): Verdict {
    var index := Index(w, sn);
    if index < -QUARTER then Outage
    else if index < 0 then TooOld
    else if index / 32 - WORDS + 1 < WORDS then Near
    else Far
  }

  /** Where a packet lies; a presumed outage moves forward by a whole sequence cycle. */
  function Position(w: Window, sn: int): int {
    w.base + Index(w, sn) + if Classify(w, sn).Outage? then SPACE else 0
  }

  /** Where a bitmap realigned for a packet at `pos` starts. */
  function Realigned(pos: int): int {
    pos - pos % 64 - 32 * (WORDS - 1)
  }

  /** The position whose flag the code sets. */
  function Marked(w: Window, sn: int): int {
    match Classify(w, sn)
    case Outage => Realigned(Position(w, sn)) + 32 * (WORDS - 1) + (Index(w, sn) + SPACE - 1) % 32
    case Far => Realigned(Position(w, sn)) + 32 * (WORDS - 1) + Index(w, sn) % 32
    case _ => Position(w, sn)
  }

  function NextBase(w: Window, sn: int): int {
    match Classify(w, sn)
    case TooOld => w.base
    case Near =>
      var shift := Index(w, sn) / 32 - WORDS + 1;
      if shift > 0 then w.base + 32 * shift else w.base
    case _ => Realigned(Position(w, sn))
  }

  /** One packet. */
  function Observe(w: Window, sn: int): Window {
    var verdict := Classify(w, sn);
    if verdict.TooOld? then w
    else
      var ahead := SeqDelta(sn, Wrap(w.last)) > 0;
      var kept := if verdict.Near? then w.seen else {};
      var repeat := Marked(w, sn) in kept;
      Window(NextBase(w, sn), kept + {Marked(w, sn)},
             if verdict.Outage? || ahead then Position(w, sn) else w.last,
             if !verdict.Outage? && ahead && sn < Wrap(w.last) then w.wraps + 1 else w.wraps,
             if repeat then w.packets else w.packets + 1,
             if repeat then w.duplicates + 1 else w.duplicates)
  }

  /** The window set up by the first packet, before it is recorded. */
  function Start(sn: int, wraps: nat, duplicates: nat): Window {
    Window(Realigned(sn), {}, sn, wraps, 0, duplicates)
  }

  /** What always holds of a window. */
  ghost predicate Sound(w: Window) {
    && w.base % 32 == 0
    && w.base + BITS - 32 <= w.last < w.base + BITS + 32
    && (forall p :: p in w.seen ==> p < w.base + BITS)
  }

  lemma StartSound(sn: int, wraps: nat, duplicates: nat)
    requires 0 <= sn < SPACE
    ensures Sound(Start(sn, wraps, duplicates)) && Classify(Start(sn, wraps, duplicates), sn).Near?
    ensures Position(Start(sn, wraps, duplicates), sn) == sn
  {
    WrapSmall(sn);
    DeltaIsDifference(sn, Realigned(sn));
    RealignedBounds(sn);
    hide SeqDelta, Wrap, Realigned;
  }

  lemma RealignedBounds(pos: int)
    ensures Realigned(pos) % 32 == 0
    ensures Realigned(pos) + BITS - 32 <= pos < Realigned(pos) + BITS + 32
  {
    AddWords(0, 2 * (pos / 64) - WORDS + 1);
  }

  lemma PositionCongruent(w: Window, sn: int)
    requires 0 <= sn < SPACE
    ensures Wrap(Position(w, sn)) == sn
    ensures w.base % 32 == 0 ==> Position(w, sn) % 32 == Index(w, sn) % 32
  {
    var b, index := Wrap(w.base), Index(w, sn);
    SeqDeltaIsCircular(sn, b);
    var k := Cycle(index - (sn - b));
    var extra := if Classify(w, sn).Outage? then 1 else 0;
    assert Position(w, sn) == w.base + index + 0x1_0000_0000 * extra;
    hide *;
    AddCycles(sn, Cycle(w.base) + k + extra);
    WrapSmall(sn);
    if w.base % 32 == 0 {
      AddWords(index, w.base / 32 + 0x800_0000 * extra);
    }
  }

  lemma WrapSmall(x: int)
    requires 0 <= x < SPACE
    ensures Wrap(x) == x
  {
  }

  /** Circular and absolute differences agree within half the space. */
  lemma DeltaIsDifference(x: int, y: int)
    requires -HALF < x - y < HALF
    ensures SeqDelta(Wrap(x), Wrap(y)) == x - y
  {
  }

  /** `last` only moves forward, to packets beyond it. */
  lemma LastMovesForward(w: Window, sn: int)
    requires Sound(w) && 0 <= sn < SPACE && !Classify(w, sn).TooOld?
    ensures !Classify(w, sn).Outage? ==> (SeqDelta(sn, Wrap(w.last)) > 0 <==> Position(w, sn) > w.last)
    ensures Observe(w, sn).last == if Position(w, sn) > w.last then Position(w, sn) else w.last
  {
    PositionCongruent(w, sn);
    SeqDeltaIsCircular(sn, Wrap(w.base));
    if !Classify(w, sn).Outage? {
      DeltaIsDifference(Position(w, sn), w.last);
    }
  }

  lemma NextBaseBounds(w: Window, sn: int)
    requires Sound(w) && 0 <= sn < SPACE && !Classify(w, sn).TooOld?
    ensures var base, pos, mark := NextBase(w, sn), Position(w, sn), Marked(w, sn);
            && base % 32 == 0 && base >= w.base && base <= mark < base + BITS
            && pos < base + BITS + 32
            && (base > w.base ==> base + BITS - 32 <= pos)
            && w.last < base + BITS + 32
            && (Classify(w, sn).Near? || w.last < pos)
  {
    IndexBounds(w, sn);
    if Classify(w, sn).Near? {
      hide SeqDelta, Index, Marked;
      NearBase(w, sn);
    } else {
      MarkInLastWord(w, sn);
      MarkInBlock(Position(w, sn));
      hide *;
      JumpIsForward(w, sn);
    }
  }

  lemma NearBase(w: Window, sn: int)
    requires Sound(w) && Classify(w, sn).Near?
    ensures var base, index := NextBase(w, sn), Index(w, sn);
            && base % 32 == 0 && index >= 0
            && ((base == w.base && index < BITS) || (base > w.base && base + BITS - 32 <= w.base + index < base + BITS))
  {
    hide SeqDelta, Index;
  }

  lemma JumpIsForward(w: Window, sn: int)
    requires Sound(w) && (Classify(w, sn).Far? || Classify(w, sn).Outage?) && -HALF <= Index(w, sn) <= HALF
    ensures Position(w, sn) >= w.base + 2 * BITS - 32
    ensures Realigned(Position(w, sn)) % 32 == 0
    ensures w.base + BITS - 32 <= w.last < w.base + BITS + 32
    ensures Realigned(Position(w, sn)) > w.base
  {
    RealignedBounds(Position(w, sn));
    hide SeqDelta, Index, Realigned;
  }

  lemma IndexBounds(w: Window, sn: int)
    requires 0 <= sn < SPACE
    ensures -HALF <= Index(w, sn) <= HALF
    ensures Classify(w, sn).Near? ==> Marked(w, sn) == w.base + Index(w, sn)
  {
    SeqDeltaIsCircular(sn, Wrap(w.base));
    hide SeqDelta;
  }

  lemma MarkInLastWord(w: Window, sn: int)
    requires 0 <= sn < SPACE && (Classify(w, sn).Far? || Classify(w, sn).Outage?)
    ensures NextBase(w, sn) == Realigned(Position(w, sn))
    ensures NextBase(w, sn) + BITS - 32 <= Marked(w, sn) < NextBase(w, sn) + BITS
  {
    hide SeqDelta, Index, Realigned;
  }

  lemma ObserveSound(w: Window, sn: int)
    requires Sound(w) && 0 <= sn < SPACE
    ensures Sound(Observe(w, sn))
    ensures Observe(w, sn).base >= w.base
    ensures !Classify(w, sn).TooOld? ==> Observe(w, sn).base <= Marked(w, sn) < Observe(w, sn).base + BITS
  {
    if !Classify(w, sn).TooOld? {
      LastMovesForward(w, sn);
      NextBaseBounds(w, sn);
      hide SeqDelta, Index, Classify, Position, Marked, NextBase;
    }
  }

  /** Exactly when a packet's flag stands for the packet: always near the window, after a far jump
      only in the lower half of a 64-sequence block, and never after a presumed outage. */
  lemma MarkedIsPosition(w: Window, sn: int)
    requires Sound(w) && 0 <= sn < SPACE && !Classify(w, sn).TooOld?
    ensures Wrap(Marked(w, sn)) == sn <==>
            Classify(w, sn).Near? || (Classify(w, sn).Far? && sn % 64 < 32)
  {
    PositionCongruent(w, sn);
    MarkedDistance(w, sn);
    var pos := Position(w, sn);
    BlockRemainder(pos, sn);
    SmallDistance(pos, Marked(w, sn) - pos);
    hide *;
  }

  /** How far the flag is from the packet. */
  lemma MarkedDistance(w: Window, sn: int)
    requires Sound(w) && 0 <= sn < SPACE && !Classify(w, sn).TooOld?
    ensures var pos := Position(w, sn);
            && -64 < Marked(w, sn) - pos < 64
            && (Classify(w, sn).Near? ==> Marked(w, sn) == pos)
            && (Classify(w, sn).Far? ==> (Marked(w, sn) == pos <==> pos % 64 < 32))
            && (Classify(w, sn).Outage? ==> Marked(w, sn) != pos)
  {
    PositionCongruent(w, sn);
    var pos, index := Position(w, sn), Index(w, sn);
    MarkInBlock(pos);
    MarkedIs(w, sn);
    hide *;
    if Classify(w, sn).Outage? {
      PreviousBit(pos, index);
    }
  }

  lemma MarkedIs(w: Window, sn: int)
    ensures var start := Realigned(Position(w, sn)) + 32 * (WORDS - 1);
            && (Classify(w, sn).Near? ==> Marked(w, sn) == Position(w, sn))
            && (Classify(w, sn).Far? ==> Marked(w, sn) == start + Index(w, sn) % 32)
            && (Classify(w, sn).Outage? ==> Marked(w, sn) == start + (Index(w, sn) + SPACE - 1) % 32)
  {
  }

  lemma PreviousBit(pos: int, index: int)
    requires pos % 32 == index % 32
    ensures (index + SPACE - 1) % 32 == (pos - 1) % 32
  {
    AddWords(pos - 1, index / 32 - pos / 32 + 0x800_0000);
  }

  lemma MarkInBlock(pos: int)
    ensures var start := Realigned(pos) + 32 * (WORDS - 1);
            && start <= pos < start + 64
            && (start + pos % 32 == pos <==> pos % 64 < 32)
            && start + (pos - 1) % 32 != pos
  {
    HalfBlock(pos);
    HalfBlock(pos - 1);
  }

  lemma HalfBlock(x: int)
    ensures x % 32 == if x % 64 < 32 then x % 64 else x % 64 - 32
  {
  }

  lemma BlockRemainder(pos: int, sn: int)
    requires 0 <= sn < SPACE && Wrap(pos) == sn
    ensures pos % 64 == sn % 64
  {
    var m := Cycle(pos);
    assert pos == sn + 0x1_0000_0000 * m;
    AddBlocks(sn, 0x400_0000 * m);
  }

  lemma SmallDistance(x: int, d: int)
    requires -2 * BITS < d < 2 * BITS
    ensures Wrap(x + d) == Wrap(x) <==> d == 0
  {
  }

  /** A packet near the window counts as a duplicate exactly when its sequence number is flagged. */
  lemma DuplicateIffFlagged(w: Window, sn: int)
    requires Sound(w) && 0 <= sn < SPACE && Classify(w, sn).Near?
    ensures Marked(w, sn) in w.seen <==> exists p :: p in w.seen && w.base <= p && Wrap(p) == sn
  {
    var pos := Position(w, sn);
    PositionCongruent(w, sn);
    NearPosition(w, sn);
    hide *;
    forall p | p in w.seen && w.base <= p && Wrap(p) == sn ensures p == pos {
      SmallDistance(pos, p - pos);
    }
  }

  lemma NearPosition(w: Window, sn: int)
    requires Sound(w) && Classify(w, sn).Near?
    ensures Marked(w, sn) == Position(w, sn)
    ensures w.base <= Position(w, sn) < w.base + 2 * BITS
    ensures forall p :: p in w.seen ==> p < w.base + BITS
  {
    hide SeqDelta, Wrap;
  }

  /** The wrap counter follows the newest packet's absolute position. */
  lemma WrapsCounted(w: Window, sn: int)
    requires Sound(w) && 0 <= sn < SPACE && !Classify(w, sn).Outage?
    ensures Observe(w, sn).wraps - w.wraps == Cycle(Observe(w, sn).last) - Cycle(w.last)
  {
    if !Classify(w, sn).TooOld? {
      LastMovesForward(w, sn);
      PositionCongruent(w, sn);
      SeqDeltaIsCircular(sn, Wrap(w.base));
    }
  }

  function Run(w: Window, seqs: seq<int>): Window {
    if seqs == [] then w else Observe(Run(w, seqs[..|seqs| - 1]), seqs[|seqs| - 1])
  }

  /** Positions of the packets that were not too old, in order of arrival. */
  function Accepted(w: Window, seqs: seq<int>): seq<int> {
    if seqs == [] then []
    else
      var before, s := Run(w, seqs[..|seqs| - 1]), seqs[|seqs| - 1];
      Accepted(w, seqs[..|seqs| - 1]) + if Classify(before, s).TooOld? then [] else [Position(before, s)]
  }

  /** No packet of the run jumps the window by HISTORY_MAX words or looks like an outage. */
  ghost predicate Clean(w: Window, seqs: seq<int>) {
    seqs == [] ||
    (Clean(w, seqs[..|seqs| - 1]) &&
     (Classify(Run(w, seqs[..|seqs| - 1]), seqs[|seqs| - 1]).Near? ||
      Classify(Run(w, seqs[..|seqs| - 1]), seqs[|seqs| - 1]).TooOld?))
  }

  /** In a clean run the tracker has recorded exactly the packets accepted since the first, and its
      counters say how many positions there are and how often one was repeated. */
  lemma {:induction false} CleanRunRecords(first: int, wraps: nat, duplicates: nat, seqs: seq<int>)
    requires 0 <= first < SPACE && forall s :: s in seqs ==> 0 <= s < SPACE
    requires Clean(Start(first, wraps, duplicates), seqs)
    ensures var w, all := Run(Start(first, wraps, duplicates), seqs), Accepted(Start(first, wraps, duplicates), seqs);
            && Sound(w)
            && (forall p :: p in w.seen <==> p in all)
            && w.packets == |w.seen| && w.packets + w.duplicates == duplicates + |all|
            && w.wraps == wraps + Cycle(w.last)
  {
    if seqs == [] {
      StartSound(first, wraps, duplicates);
    } else {
      var front, s := seqs[..|seqs| - 1], seqs[|seqs| - 1];
      assert s in seqs && forall x :: x in front ==> x in seqs;
      CleanRunRecords(first, wraps, duplicates, front);
      var w := Run(Start(first, wraps, duplicates), front);
      ObserveSound(w, s);
      WrapsCounted(w, s);
      RecordStep(w, s);
      AcceptedStep(Start(first, wraps, duplicates), seqs);
      hide *;
    }
  }

  lemma AcceptedStep(start: Window, seqs: seq<int>)
    requires seqs != []
    ensures var front, s := seqs[..|seqs| - 1], seqs[|seqs| - 1];
            var w := Run(start, front);
            && Run(start, seqs) == Observe(w, s)
            && |Accepted(start, seqs)| == |Accepted(start, front)| + (if Classify(w, s).TooOld? then 0 else 1)
            && forall p :: p in Accepted(start, seqs) <==>
                 p in Accepted(start, front) || (!Classify(w, s).TooOld? && p == Position(w, s))
  {
    hide Observe, Classify, Position;
  }

  /** What one packet of a clean run adds. */
  lemma RecordStep(w: Window, sn: int)
    requires Classify(w, sn).Near? || Classify(w, sn).TooOld?
    requires w.packets == |w.seen|
    ensures var next := Observe(w, sn);
            && next.packets == |next.seen|
            && next.seen == (if Classify(w, sn).TooOld? then w.seen else w.seen + {Position(w, sn)})
            && next.packets + next.duplicates ==
               w.packets + w.duplicates + (if Classify(w, sn).TooOld? then 0 else 1)
  {
    MarkedIs(w, sn);
    hide Position, Marked, Classify, NextBase, SeqDelta;
    var mark := Marked(w, sn);
    assert mark in w.seen ==> w.seen + {mark} == w.seen;
    assert mark !in w.seen ==> |w.seen + {mark}| == |w.seen| + 1;
  }

  // ---- packets received, as the caller knows them ----

  /** Where the packets of a run lie, too old ones included. */
  function Positions(w: Window, seqs: seq<int>): (all: seq<int>)
    ensures |all| == |seqs|
  {
    if seqs == [] then []
    else Positions(w, seqs[..|seqs| - 1]) + [Position(Run(w, seqs[..|seqs| - 1]), seqs[|seqs| - 1])]
  }

  /** No outage, and far jumps only to numbers whose flag is the right one. */
  predicate Tame(w: Window, sn: int) {
    var verdict := Classify(w, sn);
    verdict.Near? || verdict.TooOld? || (verdict.Far? && sn % 64 < 32)
  }

  ghost predicate Faithful(w: Window, seqs: seq<int>) {
    seqs == [] || (Faithful(w, seqs[..|seqs| - 1]) && Tame(Run(w, seqs[..|seqs| - 1]), seqs[|seqs| - 1]))
  }

  /** A packet with this number was received whose position is still covered by the bitmap. */
  ghost predicate ReceivedInside(w: Window, seqs: seq<int>, sn: int) {
    exists i :: 0 <= i < |seqs| && seqs[i] == sn && Positions(w, seqs)[i] >= Run(w, seqs).base
  }

  ghost predicate IsStart(w: Window) {
    Sound(w) && w.seen == {}
  }

  ghost predicate InSpace(seqs: seq<int>) {
    forall s :: s in seqs ==> 0 <= s < SPACE
  }

  /** Inside the bitmap the flags of a faithful run are exactly the packets received. */
  lemma {:induction false} FaithfulRunRecords(start: Window, seqs: seq<int>)
    requires IsStart(start) && InSpace(seqs) && Faithful(start, seqs)
    ensures var w := Run(start, seqs);
            Sound(w) && forall p :: p >= w.base ==> (p in w.seen <==> p in Positions(start, seqs))
  {
    if seqs != [] {
      var front, s := seqs[..|seqs| - 1], seqs[|seqs| - 1];
      assert s in seqs && forall x :: x in front ==> x in seqs;
      FaithfulRunRecords(start, front);
      var w := Run(start, front);
      ObserveSound(w, s);
      TameStep(w, s, Positions(start, front));
      hide Observe, Position, Tame, Sound;
    }
  }

  lemma TameStep(w: Window, sn: int, all: seq<int>)
    requires Sound(w) && 0 <= sn < SPACE && Tame(w, sn)
    requires forall p :: p >= w.base ==> (p in w.seen <==> p in all)
    ensures var next := Observe(w, sn);
            forall p :: p >= next.base ==> (p in next.seen <==> p in all + [Position(w, sn)])
  {
    var verdict, pos := Classify(w, sn), Position(w, sn);
    ObserveSound(w, sn);
    if verdict.TooOld? {
      TooOldIsBelow(w, sn);
    } else {
      MarkedDistance(w, sn);
      BlockRemainder(pos, sn) by {
        PositionCongruent(w, sn);
      }
      assert Marked(w, sn) == pos;
      if verdict.Far? {
        FarLeavesAll(w, sn);
      }
    }
    hide Position, Marked, NextBase, SeqDelta, Classify, Wrap;
  }

  lemma TooOldIsBelow(w: Window, sn: int)
    requires Classify(w, sn).TooOld?
    ensures Position(w, sn) < w.base
  {
  }

  /** A far jump to a number with the right flag leaves the old bitmap behind. */
  lemma FarLeavesAll(w: Window, sn: int)
    requires Sound(w) && 0 <= sn < SPACE && Classify(w, sn).Far? && sn % 64 < 32
    ensures NextBase(w, sn) >= w.base + BITS
  {
    var pos := Position(w, sn);
    IndexBounds(w, sn);
    JumpIsForward(w, sn);
    PositionCongruent(w, sn);
    BlockRemainder(pos, sn);
    hide SeqDelta, Wrap, Classify, Position, Index;
    LastBlock(w.base, pos);
  }

  lemma LastBlock(base: int, pos: int)
    requires base % 32 == 0 && pos >= base + 2 * BITS - 32 && pos % 64 < 32
    ensures Realigned(pos) >= base + BITS
  {
    var b := base / 32;
    assert pos - pos % 64 == 64 * (pos / 64) && base == 32 * b;
  }

  lemma {:induction false} PositionsMatch(start: Window, seqs: seq<int>)
    requires InSpace(seqs)
    ensures forall i :: 0 <= i < |seqs| ==> Wrap(Positions(start, seqs)[i]) == seqs[i]
  {
    if seqs != [] {
      var front, s := seqs[..|seqs| - 1], seqs[|seqs| - 1];
      assert s in seqs && forall x :: x in front ==> x in seqs;
      PositionsMatch(start, front);
      PositionCongruent(Run(start, front), s);
      hide Position, Run, Wrap;
    }
  }

  /** After a faithful run, the next packet of any number counts as a duplicate exactly when one with
      that number was received inside the window. */
  lemma DuplicateIffReceived(start: Window, seqs: seq<int>, sn: int)
    requires IsStart(start) && InSpace(seqs) && Faithful(start, seqs) && 0 <= sn < SPACE
    ensures var w := Run(start, seqs);
            Observe(w, sn).duplicates != w.duplicates <==> ReceivedInside(start, seqs, sn)
  {
    var w, all := Run(start, seqs), Positions(start, seqs);
    FaithfulRunRecords(start, seqs);
    PositionsMatch(start, seqs);
    DuplicatesCounted(w, sn);
    hide Observe, Run, Positions;
    if ReceivedInside(start, seqs, sn) {
      var i :| 0 <= i < |seqs| && seqs[i] == sn && all[i] >= w.base;
      assert all[i] in w.seen;
      OnlyNearMeetsFlags(w, sn, all[i]);
    } else if Classify(w, sn).Near? {
      forall p | p in w.seen && w.base <= p ensures Wrap(p) != sn {
        var i :| 0 <= i < |all| && all[i] == p;
      }
    }
  }

  /** Every possible next packet is judged right: a duplicate exactly if received inside the window. */
  ghost predicate JudgesRight(start: Window, seqs: seq<int>) {
    forall sn :: 0 <= sn < SPACE ==>
      (Observe(Run(start, seqs), sn).duplicates != Run(start, seqs).duplicates <==> ReceivedInside(start, seqs, sn))
  }

  /** The first packet that is not tame always breaks this, and no other does. */
  lemma JudgesRightIffTame(start: Window, front: seq<int>, s: int)
    requires IsStart(start) && InSpace(front) && Faithful(start, front) && 0 <= s < SPACE
    ensures JudgesRight(start, front + [s]) <==> Tame(Run(start, front), s)
  {
    var seqs := front + [s];
    assert seqs[..|front|] == front;
    if Tame(Run(start, front), s) {
      forall sn | 0 <= sn < SPACE
        ensures Observe(Run(start, seqs), sn).duplicates != Run(start, seqs).duplicates <==>
                ReceivedInside(start, seqs, sn)
      {
        DuplicateIffReceived(start, seqs, sn);
      }
    } else {
      FaithfulRunRecords(start, front);
      RepeatIsMissed(Run(start, front), s);
      hide Observe, Position, Tame, Run;
      assert Positions(start, seqs)[|front|] == Position(Run(start, front), s);
      assert Run(start, seqs) == Observe(Run(start, front), s) by {
        RunStep(start, front, s);
      }
      assert ReceivedInside(start, seqs, s);
    }
  }

  lemma RunStep(start: Window, front: seq<int>, s: int)
    ensures Run(start, front + [s]) == Observe(Run(start, front), s)
  {
    assert (front + [s])[..|front|] == front;
  }

  /** The repeat of a packet that is not tame is taken for new, though its position is inside. */
  lemma RepeatIsMissed(w: Window, s: int)
    requires Sound(w) && 0 <= s < SPACE && !Tame(w, s)
    ensures var next := Observe(w, s);
            Position(w, s) >= next.base && Observe(next, s).duplicates == next.duplicates
  {
    var next := Observe(w, s);
    MarkedIsPosition(w, s);
    ObserveSound(w, s);
    RealignedBounds(Position(w, s));
    DuplicatesCounted(next, s);
    hide Wrap, SeqDelta, Position, Marked;
  }

  lemma OnlyNearMeetsFlags(w: Window, sn: int, p: int)
    requires Sound(w) && 0 <= sn < SPACE && p in w.seen && p >= w.base && Wrap(p) == sn
    ensures Classify(w, sn).Near?
  {
    var pos := Position(w, sn);
    PositionCongruent(w, sn);
    IndexBounds(w, sn);
    if Classify(w, sn).Far? || Classify(w, sn).Outage? {
      JumpIsForward(w, sn);
    }
    if !Classify(w, sn).Near? {
      assert p != pos && -SPACE < pos - p < SPACE;
      hide *;
      WithinCycle(p, pos - p);
      assert false;
    }
  }

  lemma WithinCycle(x: int, d: int)
    requires -SPACE < d < SPACE && Wrap(x + d) == Wrap(x)
    ensures d == 0
  {
  }

  /** Two far jumps to numbers with the wrong flag: the repeat of 2080 is taken for new, and 2048,
      never received, for a duplicate. */
  lemma FarJumpMisleads(wraps: nat, duplicates: nat)
    ensures var w := Run(Start(0, wraps, duplicates), [0, 2080]);
            && !Tame(Run(Start(0, wraps, duplicates), [0]), 2080)
            && Observe(w, 2080).duplicates == w.duplicates
            && Observe(w, 2048).duplicates == w.duplicates + 1
  {
    var start := Start(0, wraps, duplicates);
    var a := Window(-992, {0}, 0, wraps, 1, duplicates);
    assert Observe(start, 0) == a;
    OneFarJump(a);
    assert [0, 2080][..1] == [0] && [0][..0] == [];
    assert Run(start, []) == start;
    assert Run(start, [0]) == a;
  }

  lemma OneFarJump(a: Window)
    requires a.base == -992 && a.seen == {0} && a.last == 0
    ensures !Tame(a, 2080)
    ensures Observe(a, 2080) == Window(1056, {2048}, 2080, a.wraps, a.packets + 1, a.duplicates)
    ensures var b := Observe(a, 2080);
            Observe(b, 2080).duplicates == a.duplicates && Observe(b, 2048).duplicates == a.duplicates + 1
  {
  }

  // ---- the loss fraction ----

  /** Packets LossFraction expects: the wraps, each counted as one packet less than a cycle, and the
      circular distance, in 64-bit arithmetic. */
  function Expected(wraps: nat, last: int, first: int): int {
    (wraps * (SPACE - 1) + SeqDelta(Wrap(last), Wrap(first)) + 1) % 0x1_0000_0000_0000_0000
  }

  /** It is the number of positions from the first packet to the newest exactly when no wrap was counted
      and they span no more than half the sequence space. */
  lemma ExpectedIffNoWrap(wraps: nat, last: int, first: int)
    requires first <= last && wraps < SPACE && last - first < COUNT_SPACE / 2
    ensures Expected(wraps, last, first) == last - first + 1 <==>
            wraps == 0 && (last - first < HALF || (last - first == HALF && Cycle(last) == Cycle(first)))
  {
    var d, span := SeqDelta(Wrap(last), Wrap(first)), last - first;
    SeqDeltaIsCircular(Wrap(last), Wrap(first));
    var k := Cycle(last) - Cycle(first) - Cycle(d - (Wrap(last) - Wrap(first)));
    assert d == span - 0x1_0000_0000 * k;
    SmallSpan(last, first);
    hide SeqDelta, Wrap, Cycle;
    WithoutOverflow(wraps, d, span, k);
  }

  lemma SmallSpan(last: int, first: int)
    requires first <= last
    ensures SeqDelta(Wrap(last), Wrap(first)) == last - first <==>
            last - first < HALF || (last - first == HALF && Cycle(last) == Cycle(first))
  {
    SeqDeltaIsCircular(Wrap(last), Wrap(first));
    if last - first < HALF {
      DeltaIsDifference(last, first);
    }
  }

  lemma WithoutOverflow(wraps: nat, d: int, span: int, k: int)
    requires wraps < SPACE && -HALF <= d <= HALF && 0 <= span < COUNT_SPACE / 2 && d == span - 0x1_0000_0000 * k
    ensures (wraps * (SPACE - 1) + d + 1) % 0x1_0000_0000_0000_0000 == span + 1 <==> wraps == 0 && d == span
  {
    var raw := wraps * (SPACE - 1) + d + 1;
    assert raw < COUNT_SPACE;
    if raw >= 0 {
      assert raw % 0x1_0000_0000_0000_0000 == raw;
      if raw == span + 1 {
        assert wraps == 0x1_0000_0000 * (wraps - k);
      }
    } else {
      assert raw % 0x1_0000_0000_0000_0000 == raw + COUNT_SPACE;
    }
  }

  /** The positions from `lo` to `hi`. */
  function Interval(lo: int, hi: int): (s: set<int>)
    requires lo <= hi + 1
    ensures forall p :: p in s <==> lo <= p <= hi
    ensures |s| == hi - lo + 1
    decreases hi - lo + 1
  {
    if hi < lo then {} else Interval(lo, hi - 1) + {hi}
  }

  lemma {:induction false} NewestIsLast(start: Window, seqs: seq<int>)
    requires IsStart(start) && InSpace(seqs) && Clean(start, seqs)
    ensures Sound(Run(start, seqs)) && forall p :: p in Run(start, seqs).seen ==> p <= Run(start, seqs).last
    ensures Run(start, seqs).last >= start.last
  {
    if seqs != [] {
      var front, s := seqs[..|seqs| - 1], seqs[|seqs| - 1];
      assert s in seqs && forall x :: x in front ==> x in seqs;
      NewestIsLast(start, front);
      var w := Run(start, front);
      ObserveSound(w, s);
      if Classify(w, s).Near? {
        LastMovesForward(w, s);
        MarkedDistance(w, s);
      }
      hide SeqDelta, Wrap, NextBase, Sound;
    }
  }

  /** After a clean run without a wrap, the packets expected but not counted are the positions missing
      between the first and the newest, less those recorded from before the first. */
  lemma LossIsMissing(first: int, duplicates: nat, seqs: seq<int>)
    requires 0 <= first < SPACE && InSpace(seqs) && Clean(Start(first, 0, duplicates), seqs)
    requires var w := Run(Start(first, 0, duplicates), seqs);
             Cycle(w.last) == 0 && w.last - first <= HALF
    ensures var w := Run(Start(first, 0, duplicates), seqs);
            && w.last >= first && Expected(w.wraps, w.last, first) == w.last - first + 1
            && |Interval(first, w.last) - w.seen| ==
               Expected(w.wraps, w.last, first) - w.packets + |w.seen - Interval(first, w.last)|
  {
    var start := Start(first, 0, duplicates);
    StartSound(first, 0, duplicates);
    NewestIsLast(start, seqs);
    CleanRunRecords(first, 0, duplicates, seqs);
    var w := Run(start, seqs);
    assert Cycle(first) == 0;
    hide *;
    ExpectedIffNoWrap(0, w.last, first);
    Overlap(Interval(first, w.last), w.seen);
  }

  lemma Overlap(a: set<int>, b: set<int>)
    ensures |a - b| - |b - a| == |a| - |b|
  {
    assert a == (a - b) + a * b && b == (b - a) + a * b;
  }

  /** A wrap enters twice: after the two packets 2^32 - 1 and 0, 2^32 + 1 are expected. */
  lemma WrapCountsTwice(duplicates: nat)
    ensures var w := Run(Start(SPACE - 1, 0, duplicates), [SPACE - 1, 0]);
            w.packets == 2 && w.last == SPACE && Expected(w.wraps, w.last, SPACE - 1) == SPACE + 1
  {
    var start := Start(SPACE - 1, 0, duplicates);
    LastOfCycle(duplicates);
    FirstOfCycle(Observe(start, SPACE - 1));
    ExpectedAcrossWrap();
    RunStep(start, [], SPACE - 1);
    RunStep(start, [SPACE - 1], 0);
    assert [] + [SPACE - 1] == [SPACE - 1] && [SPACE - 1] + [0] == [SPACE - 1, 0];
    assert Run(start, []) == start;
    hide *;
  }

  lemma LastOfCycle(duplicates: nat)
    ensures Observe(Start(SPACE - 1, 0, duplicates), SPACE - 1) ==
            Window(SPACE - 1024, {SPACE - 1}, SPACE - 1, 0, 1, duplicates)
  {
    assert Realigned(SPACE - 1) == SPACE - 1056;
    var w := Window(SPACE - 1056, {}, SPACE - 1, 0, 0, duplicates);
    hide *;
    LastIndex(w);
    StartIs(SPACE - 1, 0, duplicates);
    NearStep(w, SPACE - 1, 1055);
  }

  lemma StartIs(sn: int, wraps: nat, duplicates: nat)
    ensures Start(sn, wraps, duplicates) == Window(Realigned(sn), {}, sn, wraps, 0, duplicates)
  {
  }

  lemma LastIndex(w: Window)
    requires w.base == SPACE - 1056
    ensures Index(w, SPACE - 1) == 1055 && SeqDelta(SPACE - 1, Wrap(SPACE - 1)) == 0
  {
  }

  /** A packet just beyond an empty bitmap moves it by one word. */
  lemma NearStep(w: Window, sn: int, index: int)
    requires Index(w, sn) == index && 1024 <= index < 1056 && SeqDelta(sn, Wrap(w.last)) == 0 && w.seen == {}
    ensures Observe(w, sn) == Window(w.base + 32, {w.base + index}, w.last, w.wraps, w.packets + 1, w.duplicates)
  {
    hide SeqDelta, Index;
  }

  lemma FirstOfCycle(a: Window)
    requires a.base == SPACE - 1024 && a.seen == {SPACE - 1} && a.last == SPACE - 1
    ensures Observe(a, 0) == Window(SPACE - 992, {SPACE - 1, SPACE}, SPACE, a.wraps + 1, a.packets + 1, a.duplicates)
  {
  }

  lemma ExpectedAcrossWrap()
    ensures Expected(1, SPACE, SPACE - 1) == SPACE + 1
  {
  }

  /** What the flags depend on; the counters can be reset without changing them. */
  ghost predicate SameFlags(a: Window, b: Window) {
    a.base == b.base && a.seen == b.seen && a.last == b.last
  }

  lemma SameStep(a: Window, start: Window, log: seq<int>, sn: int)
    requires SameFlags(a, Run(start, log))
    ensures SameFlags(Observe(a, sn), Run(start, log + [sn]))
    ensures Observe(a, sn).duplicates != a.duplicates <==>
            Observe(Run(start, log), sn).duplicates != Run(start, log).duplicates
  {
    assert (log + [sn])[..|log|] == log;
    hide SeqDelta, Wrap;
  }

  /** Flag k stands for absolute position base + k. */
  ghost predicate Represents(flags: seq<bool>, base: int, seen: set<int>) {
    |flags| == BITS && forall k :: 0 <= k < BITS ==> (flags[k] <==> base + k in seen)
  }

  ghost predicate Shifted(flags: seq<bool>, shifted: seq<bool>, dist: nat) {
    && |flags| == |shifted| == BITS
    && forall k :: 0 <= k < BITS ==> shifted[k] == (k + dist < BITS && flags[k + dist])
  }

  /** Shifting the words moves the window; what leaves it is forgotten. */
  lemma ShiftRepresents(flags: seq<bool>, shifted: seq<bool>, base: int, seen: set<int>, dist: nat)
    requires Represents(flags, base, seen) && |shifted| == BITS && dist <= BITS
    requires forall p :: p in seen ==> p < base + BITS
    requires Shifted(flags, shifted, dist)
    ensures Represents(shifted, base + dist, seen)
  {
    forall k | 0 <= k < BITS ensures shifted[k] <==> base + dist + k in seen {
      assert k + dist < BITS ==> (flags[k + dist] <==> base + (k + dist) in seen);
    }
  }

  /** The index Update computes with, after its correction for an outage. */
  function CodeIndex(w: Window, sn: int): int {
    Index(w, sn) + if Classify(w, sn).Outage? then SPACE - 1 else 0
  }

  function CodeWord(w: Window, sn: int): int {
    if CodeIndex(w, sn) / 32 >= WORDS then WORDS - 1 else CodeIndex(w, sn) / 32
  }

  lemma CodeIndexRange(w: Window, sn: int)
    requires 0 <= sn < SPACE && !Classify(w, sn).TooOld?
    ensures CodeIndex(w, sn) >= 0
    ensures Classify(w, sn).Near? <==> CodeIndex(w, sn) / 32 - WORDS + 1 < WORDS
    ensures 0 <= 32 * CodeWord(w, sn) + CodeIndex(w, sn) % 32 < BITS
  {
    SeqDeltaIsCircular(sn, Wrap(w.base));
  }

  /** Word and bit numbers of the code, as a flag of the moved bitmap. */
  lemma FlagOfPacket(w: Window, sn: int)
    requires 0 <= sn < SPACE && !Classify(w, sn).TooOld?
    ensures 32 * CodeWord(w, sn) + CodeIndex(w, sn) % 32 == Marked(w, sn) - NextBase(w, sn)
  {
    CodeIndexRange(w, sn);
    hide SeqDelta;
  }

  lemma RealignedOffset(pos: int, sn: int)
    requires 0 <= sn < SPACE && Wrap(pos) == sn
    ensures Wrap(Realigned(pos)) == Wrap(sn - sn % 64 - 32 * (WORDS - 1))
  {
    BlockRemainder(pos, sn);
    var m := Cycle(pos);
    assert pos == sn + 0x1_0000_0000 * m;
    AddCycles(sn - sn % 64 - 32 * (WORDS - 1), m);
  }

  lemma OffsetOfBase(w: Window, sn: int)
    requires 0 <= sn < SPACE && !Classify(w, sn).TooOld?
    ensures var index := CodeIndex(w, sn);
            Wrap(NextBase(w, sn)) ==
            if index / 32 < WORDS then Wrap(w.base)
            else if index / 32 - WORDS + 1 < WORDS then Wrap(Wrap(w.base) + 32 * (index / 32 - WORDS + 1))
            else Wrap(sn - sn % 64 - 32 * (WORDS - 1))
  {
    CodeIndexRange(w, sn);
    PositionCongruent(w, sn);
    RealignedOffset(Position(w, sn), sn);
    hide SeqDelta, Realigned, Position;
    if Classify(w, sn).Near? {
      ShiftedOffset(w.base, CodeIndex(w, sn) / 32 - WORDS + 1);
    }
  }

  lemma ShiftedOffset(base: int, shift: int)
    ensures Wrap(base + 32 * shift) == Wrap(Wrap(base) + 32 * shift)
  {
    AddCycles(Wrap(base) + 32 * shift, Cycle(base));
  }

  lemma RepresentsSize(flags: seq<bool>, base: int, seen: set<int>)
    requires Represents(flags, base, seen)
    ensures |flags| == BITS
  {
  }

  lemma EmptyRepresents(flags: seq<bool>)
    requires |flags| == BITS && forall k :: 0 <= k < BITS ==> !flags[k]
    ensures forall any :: Represents(flags, any, {})
  {
  }

  lemma CodeWordIs(w: Window, sn: int)
    ensures CodeWord(w, sn) == if CodeIndex(w, sn) / 32 >= WORDS then WORDS - 1 else CodeIndex(w, sn) / 32
    ensures CodeIndex(w, sn) == SeqDelta(sn, Wrap(w.base)) +
                                  if SeqDelta(sn, Wrap(w.base)) < -QUARTER then SPACE - 1 else 0
  {
  }

  lemma NextBaseIs(w: Window, sn: int)
    requires 0 <= sn < SPACE
    ensures Classify(w, sn).Near? ==>
              NextBase(w, sn) ==
              w.base + if CodeIndex(w, sn) / 32 >= WORDS then 32 * (CodeIndex(w, sn) / 32 - WORDS + 1) else 0
  {
  }

  /** The abstract step, in the terms of the code's tests. */
  lemma ObserveFields(w: Window, sn: int)
    requires Sound(w) && 0 <= sn < SPACE
    ensures Sound(Observe(w, sn))
    ensures var index, ahead := SeqDelta(sn, Wrap(w.base)), SeqDelta(sn, Wrap(w.last)) > 0;
            && (Classify(w, sn).Outage? <==> index < -QUARTER)
            && (Classify(w, sn).TooOld? <==> -QUARTER <= index < 0)
            && (Classify(w, sn).TooOld? ==> Observe(w, sn) == w)
            && (!Classify(w, sn).TooOld? ==>
                  var next, kept := Observe(w, sn), if Classify(w, sn).Near? then w.seen else {};
                  && next.base == NextBase(w, sn) && next.seen == kept + {Marked(w, sn)}
                  && Wrap(next.last) == (if index < -QUARTER || ahead then sn else Wrap(w.last))
                  && next.wraps == w.wraps + (if index >= 0 && ahead && sn < Wrap(w.last) then 1 else 0)
                  && next.packets == w.packets + (if Marked(w, sn) in kept then 0 else 1)
                  && next.duplicates == w.duplicates + (if Marked(w, sn) in kept then 1 else 0))
  {
    ObserveSound(w, sn);
    PositionCongruent(w, sn);
    hide SeqDelta, Position, Marked, NextBase, Sound;
  }

  // ---- one packet in terms of the code's own fields ----

  /** The fields Update works on. */
  datatype Fields = Fields(offset: int, flags: seq<bool>, newest: int, wraps: nat, packets: nat, duplicates: nat)

  /** `sn` follows `newest` in the circular order; at the tie of half the space the larger number does. */
  predicate Follows(sn: int, newest: int) {
    var d := (sn - newest) % 0x1_0000_0000;
    0 < d < 0x8000_0000 || (d == 0x8000_0000 && newest < sn)
  }

  /** The bitmap holds this one flag. */
  ghost predicate OnlyFlag(flags: seq<bool>, k: int) {
    |flags| == 1024 && forall j :: 0 <= j < 1024 ==> (flags[j] <==> j == k)
  }

  /** The flags moved by `shift` to the front, with the packet's own flag set. */
  ghost predicate MovedFlags(before: seq<bool>, flags: seq<bool>, shift: int, mark: int) {
    && |before| == |flags| == 1024
    && forall j :: 0 <= j < 1024 ==>
         (flags[j] <==> j == mark || (0 <= j + shift < 1024 && before[j + shift]))
  }

  /** A packet up to 0x3fffffff numbers behind the bitmap changes nothing. */
  ghost predicate Ignored(a: Fields, sn: int) {
    1 <= (a.offset - sn) % 0x1_0000_0000 <= 0x3fff_ffff
  }

  /** One further behind is taken for the first after an outage. */
  ghost predicate AfterOutage(a: Fields, sn: int) {
    var behind := (a.offset - sn) % 0x1_0000_0000;
    0x3fff_ffff < behind < 0x8000_0000 || (behind == 0x8000_0000 && sn < a.offset)
  }

  /** The bitmap starts anew, with the packet in its last word. */
  ghost predicate Restarts(sn: int, b: Fields, flag: int) {
    b.offset == (sn - sn % 64 - 992) % 0x1_0000_0000 && OnlyFlag(b.flags, 992 + flag)
  }

  /** What Update does to its fields with packet `sn`. */
  ghost predicate Moves(a: Fields, sn: int, b: Fields)
    requires |a.flags| == 1024
  {
    if Ignored(a, sn) then b == a
    else if AfterOutage(a, sn) then
      && Restarts(sn, b, (sn + 31) % 32) && b.newest == sn && b.wraps == a.wraps
      && b.packets == a.packets + 1 && b.duplicates == a.duplicates
    else
      var ahead, newer := (sn - a.offset) % 0x1_0000_0000, Follows(sn, a.newest);
      var repeat := ahead < 1024 && a.flags[ahead];
      var shift := if ahead < 1024 then 0 else 32 * (ahead / 32 - 31);
      && b.newest == (if newer then sn else a.newest)
      && b.wraps == a.wraps + (if newer && sn < a.newest then 1 else 0)
      && b.packets == a.packets + (if repeat then 0 else 1)
      && b.duplicates == a.duplicates + (if repeat then 1 else 0)
      && (ahead < 2016 ==> b.offset == (a.offset + shift) % 0x1_0000_0000 &&
                           MovedFlags(a.flags, b.flags, shift, ahead - shift))
      && (ahead >= 2016 ==> Restarts(sn, b, sn % 32))
  }

  /** The fields as the first packet sets them, before it is recorded. */
  function FirstFields(sn: int, wraps: nat, duplicates: nat): (a: Fields)
    ensures |a.flags| == 1024
  {
    Fields((sn - sn % 64 - 992) % 0x1_0000_0000, seq(1024, _ => false), sn, wraps, 0, duplicates)
  }

  /** The fields of a window. */
  ghost predicate IsWindow(w: Window, a: Fields) {
    && Represents(a.flags, w.base, w.seen) && a.offset == Wrap(w.base) && a.newest == Wrap(w.last)
    && a.wraps == w.wraps && a.packets == w.packets && a.duplicates == w.duplicates
  }

  /** SeqDelta by the distance around the circle. */
  lemma DeltaByDistance(a: int, b: int)
    requires 0 <= a < SPACE && 0 <= b < SPACE
    ensures var d := (a - b) % 0x1_0000_0000;
            && SeqDelta(a, b) == (if d < 0x8000_0000 || (d == 0x8000_0000 && b < a) then d else d - 0x1_0000_0000)
            && (b - a) % 0x1_0000_0000 == if d == 0 then 0 else 0x1_0000_0000 - d
  {
  }

  lemma ClassifyByDistance(w: Window, sn: int, a: Fields)
    requires 0 <= sn < SPACE && a.offset == Wrap(w.base)
    ensures var ahead := (sn - a.offset) % 0x1_0000_0000;
            && (Classify(w, sn).TooOld? <==> Ignored(a, sn))
            && (Classify(w, sn).Outage? <==> AfterOutage(a, sn))
            && (!Ignored(a, sn) && !AfterOutage(a, sn) ==> Index(w, sn) == ahead)
            && (Classify(w, sn).Near? <==> !Ignored(a, sn) && !AfterOutage(a, sn) && ahead < 2016)
            && (AfterOutage(a, sn) ==> Index(w, sn) == ahead - 0x1_0000_0000)
  {
    DeltaByDistance(sn, a.offset);
    hide SeqDelta, Wrap;
  }

  lemma NewestByDistance(a: int, b: int)
    requires 0 <= a < SPACE && 0 <= b < SPACE
    ensures SeqDelta(a, b) > 0 <==> Follows(a, b)
  {
    DeltaByDistance(a, b);
    hide SeqDelta;
  }

  /** Remainders by 32 survive the way around the circle. */
  lemma DistanceBits(sn: int, base: int)
    requires base % 32 == 0
    ensures (sn - Wrap(base)) % 0x1_0000_0000 % 32 == sn % 32
    ensures ((sn - Wrap(base)) % 0x1_0000_0000 - 1) % 32 == (sn + 31) % 32
  {
    var d := (sn - Wrap(base)) % 0x1_0000_0000;
    var m := (sn - Wrap(base)) / 0x1_0000_0000;
    assert d == sn - base + 0x1_0000_0000 * (Cycle(base) - m);
    AddWords(sn, 0x800_0000 * (Cycle(base) - m) - base / 32);
    AddWords(sn + 31, 0x800_0000 * (Cycle(base) - m) - base / 32 - 1);
  }

  /** Where the packet's flag is in the bitmap as it has been moved. */
  lemma FlagByDistance(w: Window, sn: int, a: Fields)
    requires Sound(w) && 0 <= sn < SPACE && a.offset == Wrap(w.base) && !Ignored(a, sn)
    ensures var ahead := (sn - a.offset) % 0x1_0000_0000;
            var shift := if ahead < 1024 then 0 else 32 * (ahead / 32 - 31);
            var flag := Marked(w, sn) - NextBase(w, sn);
            && (AfterOutage(a, sn) ==> flag == 992 + (sn + 31) % 32)
            && (!AfterOutage(a, sn) && ahead >= 2016 ==> flag == 992 + sn % 32)
            && (!AfterOutage(a, sn) && ahead < 2016 ==> flag == ahead - shift && NextBase(w, sn) == w.base + shift)
  {
    var ahead := (sn - a.offset) % 0x1_0000_0000;
    ClassifyByDistance(w, sn, a);
    DistanceBits(sn, w.base);
    FlagOfPacket(w, sn);
    NextBaseIs(w, sn);
    assert CodeIndex(w, sn) == if AfterOutage(a, sn) then ahead - 1 else ahead;
    assert AfterOutage(a, sn) ==> ahead >= 0x8000_0000;
    hide SeqDelta, Classify, Index, Marked, NextBase, AfterOutage, Ignored, CodeIndex, Wrap, Sound;
  }

  lemma OffsetByDistance(w: Window, sn: int, a: Fields)
    requires Sound(w) && 0 <= sn < SPACE && a.offset == Wrap(w.base) && !Ignored(a, sn)
    ensures var ahead := (sn - a.offset) % 0x1_0000_0000;
            var shift := if ahead < 1024 then 0 else 32 * (ahead / 32 - 31);
            Wrap(NextBase(w, sn)) == if AfterOutage(a, sn) || ahead >= 2016 then (sn - sn % 64 - 992) % 0x1_0000_0000
                                     else (a.offset + shift) % 0x1_0000_0000
  {
    var ahead := (sn - a.offset) % 0x1_0000_0000;
    ClassifyByDistance(w, sn, a);
    OffsetOfBase(w, sn);
    assert CodeIndex(w, sn) == if AfterOutage(a, sn) then ahead - 1 else ahead;
    assert AfterOutage(a, sn) ==> ahead >= 0x8000_0000;
    WrapSmall(a.offset);
    hide SeqDelta, Classify, Index, NextBase, AfterOutage, Ignored, CodeIndex, Sound;
  }

  lemma OneFlag(flags: seq<bool>, base: int, mark: int)
    requires Represents(flags, base, {mark})
    ensures OnlyFlag(flags, mark - base)
  {
  }

  lemma FlagsMoved(before: seq<bool>, base: int, seen: set<int>, flags: seq<bool>, shift: nat, mark: int)
    requires Represents(before, base, seen) && Represents(flags, base + shift, seen + {mark})
    requires forall p :: p in seen ==> p < base + 1024
    ensures MovedFlags(before, flags, shift, mark - (base + shift))
  {
    forall j | 0 <= j < 1024
      ensures flags[j] <==> j == mark - (base + shift) || (0 <= j + shift < 1024 && before[j + shift])
    {
      assert flags[j] <==> base + shift + j in seen + {mark};
      assert j + shift < 1024 ==> (before[j + shift] <==> base + (j + shift) in seen);
    }
  }

  /** The flags after a step. */
  lemma FlagsByDistance(w: Window, a: Fields, sn: int, flags: seq<bool>)
    requires Sound(w) && 0 <= sn < SPACE && IsWindow(w, a) && !Ignored(a, sn)
    requires var kept := if Classify(w, sn).Near? then w.seen else {};
             Represents(flags, NextBase(w, sn), kept + {Marked(w, sn)})
    ensures var ahead := (sn - a.offset) % 0x1_0000_0000;
            var shift := if ahead < 1024 then 0 else 32 * (ahead / 32 - 31);
            && (AfterOutage(a, sn) ==> OnlyFlag(flags, 992 + (sn + 31) % 32))
            && (!AfterOutage(a, sn) && ahead >= 2016 ==> OnlyFlag(flags, 992 + sn % 32))
            && (!AfterOutage(a, sn) && ahead < 2016 ==> MovedFlags(a.flags, flags, shift, ahead - shift))
  {
    hide *;
    IsWindowMeans(w, a);
    FlagByDistance(w, sn, a);
    ClassifyByDistance(w, sn, a);
    var ahead, mark := (sn - a.offset) % 0x1_0000_0000, Marked(w, sn);
    if AfterOutage(a, sn) || ahead >= 2016 {
      assert {} + {mark} == {mark};
      OneFlag(flags, NextBase(w, sn), mark);
    } else {
      FlagsMoved(a.flags, w.base, w.seen, flags, if ahead < 1024 then 0 else 32 * (ahead / 32 - 31), mark);
    }
  }

  lemma IsWindowMeans(w: Window, a: Fields)
    requires Sound(w) && IsWindow(w, a)
    ensures Represents(a.flags, w.base, w.seen) && forall p :: p in w.seen ==> p < w.base + 1024
    ensures a.offset == Wrap(w.base) && |a.flags| == 1024
    ensures forall k :: 0 <= k < 1024 ==> (a.flags[k] <==> w.base + k in w.seen)
  {
  }

  /** Whether the packet's flag was set already. */
  lemma RepeatByDistance(w: Window, a: Fields, sn: int)
    requires Sound(w) && 0 <= sn < SPACE && IsWindow(w, a) && !Ignored(a, sn)
    ensures |a.flags| == 1024
    ensures var ahead := (sn - a.offset) % 0x1_0000_0000;
            Classify(w, sn).Near? && Marked(w, sn) in w.seen <==>
            !AfterOutage(a, sn) && ahead < 1024 && a.flags[ahead]
  {
    hide *;
    IsWindowMeans(w, a);
    FlagByDistance(w, sn, a);
    ClassifyByDistance(w, sn, a);
  }

  /** The abstract step is what the code does to its fields. */
  lemma ObserveMoves(w: Window, a: Fields, sn: int, b: Fields)
    requires Sound(w) && 0 <= sn < SPACE && IsWindow(w, a) && IsWindow(Observe(w, sn), b)
    ensures |a.flags| == 1024 && Moves(a, sn, b)
  {
    ObserveFields(w, sn);
    ClassifyByDistance(w, sn, a);
    if Ignored(a, sn) {
      hide Ignored, Observe, Classify;
      SameFields(w, a, b);
    } else {
      NewestByDistance(sn, Wrap(w.last));
      OffsetByDistance(w, sn, a);
      RepeatByDistance(w, a, sn);
      hide SeqDelta, Classify, Position, Marked, NextBase, Index, Observe, Ignored, AfterOutage, Wrap,
           OnlyFlag, MovedFlags, Follows, Represents, Sound;
      FlagsByDistance(w, a, sn, b.flags);
    }
  }

  lemma FirstIs(w: Window, a: Fields, sn: int)
    requires 0 <= sn < SPACE && IsWindow(w, a) && w == Start(sn, w.wraps, w.duplicates)
    ensures a == FirstFields(sn, w.wraps, w.duplicates)
  {
    WrapSmall(sn);
    assert a.flags == seq(1024, _ => false);
  }

  lemma SameFields(w: Window, a: Fields, b: Fields)
    requires IsWindow(w, a) && IsWindow(w, b)
    ensures a == b
  {
    assert a.flags == b.flags;
  }

  lemma CurrentFields(t: LossTracker3)
    requires t.Valid() && !t.init
    ensures t.history.Length == BITS && Represents(t.history[..], t.window.base, t.window.seen)
    ensures Sound(t.window) && forall p :: p in t.window.seen ==> p < t.window.base + BITS
    ensures t.offset == Wrap(t.window.base) && t.seqLast == Wrap(t.window.last)
    ensures t.wrapCount == t.window.wraps && t.packetCount == t.window.packets
    ensures t.duplicateCount == t.window.duplicates && t.Logged()
  {
  }

  lemma FieldsCurrent(t: LossTracker3)
    requires t.history.Length == BITS && Represents(t.history[..], t.window.base, t.window.seen) && Sound(t.window)
    requires t.offset == Wrap(t.window.base) && t.seqLast == Wrap(t.window.last)
    requires t.wrapCount == t.window.wraps && t.packetCount == t.window.packets
    requires t.duplicateCount == t.window.duplicates && t.Logged()
    ensures t.Valid()
  {
  }

  class LossTracker3 {
    var init: bool
    var history: array<bool>      // 32 words of 32 flags
    var offset: int
    var seqFirst: int
    var seqLast: int
    var wrapCount: nat
    var packetCount: nat
    var duplicateCount: nat
    var windowSize: real
    var timeFirst: real
    var timeLast: real
    ghost var window: Window
    ghost var start: Window       // the window of the first packet
    ghost var log: seq<int>       // every packet since
    ghost var first: int          // position of the first packet, or of the newest at the last reset

    ghost predicate Valid()
      reads this, history
    {
      && history.Length == BITS
      && window.duplicates == duplicateCount && window.wraps == wrapCount
      && (!init ==> Current() && Logged())
    }

    /** The window is that of the packets received. */
    ghost predicate Logged()
      reads this
    {
      && IsStart(start) && InSpace(log) && SameFlags(window, Run(start, log))
      && seqFirst == Wrap(first) && first <= window.last
    }

    /** The fields are those of the abstract window. */
    ghost predicate Current()
      reads this, history
    {
      && Sound(window) && Represents(history[..], window.base, window.seen)
      && offset == Wrap(window.base) && seqLast == Wrap(window.last)
      && wrapCount == window.wraps && packetCount == window.packets && duplicateCount == window.duplicates
    }

    /** Neither the constructor nor Init sets `wrap_count` and `duplicate_count`, so any value may be there. */
    constructor (windowSize: real, wrapCount: nat, duplicateCount: nat)
      ensures Valid() && init && this.windowSize == windowSize
      ensures window.wraps == wrapCount && window.duplicates == duplicateCount
    {
      init, this.windowSize, this.wrapCount, this.duplicateCount := true, windowSize, wrapCount, duplicateCount;
      history := new bool[BITS](_ => false);
      offset, seqFirst, seqLast, packetCount, timeFirst, timeLast := 0, 0, 0, 0, 0.0, 0.0;
      window := Window(0, {}, 0, wrapCount, 0, duplicateCount);
      start, log, first := window, [], 0;
    }

    /** The first packet aligns the bitmap. */
    method Begin(theTime: real, theSeq: int)
      requires Valid() && init && 0 <= theSeq < SPACE
      modifies this, history
      ensures Valid() && !init && history == old(history) && windowSize == old(windowSize)
      ensures window == Start(theSeq, old(window.wraps), old(window.duplicates))
      ensures start == window && log == [] && first == theSeq
      ensures timeFirst == timeLast == theTime
    {
      ghost var wraps, duplicates := window.wraps, window.duplicates;
      StartFields(theSeq, wraps, duplicates);
      hide *;
      Clear();
      SetFirst(theTime, theSeq, Start(theSeq, wraps, duplicates));
      BeginFields();
    }

    /** The fields of the first packet. */
    method SetFirst(theTime: real, theSeq: int, ghost w: Window)
      modifies this`offset, this`packetCount, this`seqFirst, this`seqLast, this`timeFirst, this`timeLast, this`init,
               this`window, this`start, this`log, this`first
      ensures offset == Wrap(theSeq - theSeq % 64 - 32 * (WORDS - 1)) && packetCount == 0 && !init
      ensures seqFirst == seqLast == theSeq && timeFirst == timeLast == theTime
      ensures window == start == w && log == [] && first == theSeq
    {
      offset := Wrap(theSeq - theSeq % 64 - 32 * (WORDS - 1));
      packetCount := 0;
      seqFirst, seqLast, timeFirst, timeLast := theSeq, theSeq, theTime, theTime;
      init := false;
      window, start, log, first := w, w, [], theSeq;
    }

    lemma BeginFields()
      requires history.Length == BITS && Represents(history[..], window.base, {}) && window.seen == {}
      requires Sound(window) && IsStart(window) && InSpace([]) && SameFlags(window, Run(window, []))
      requires start == window && log == [] && first == window.last && seqFirst == seqLast == Wrap(first)
      requires offset == Wrap(window.base)
      requires wrapCount == window.wraps && packetCount == window.packets && duplicateCount == window.duplicates
      ensures Valid()
    {
      hide Run, Wrap, InSpace, Sound, SameFlags;
    }

    /** The fields before the first packet, and the window it starts. */
    lemma StartFields(theSeq: int, wraps: nat, duplicates: nat)
      requires Valid() && init && 0 <= theSeq < SPACE && wraps == window.wraps && duplicates == window.duplicates
      ensures history.Length == BITS && wrapCount == wraps && duplicateCount == duplicates
      ensures var w := Start(theSeq, wraps, duplicates);
              && Sound(w) && IsStart(w) && InSpace([]) && SameFlags(w, Run(w, []))
              && w.seen == {} && w.packets == 0 && w.wraps == wraps && w.duplicates == duplicates && w.last == theSeq
              && Wrap(w.base) == Wrap(theSeq - theSeq % 64 - 32 * (WORDS - 1)) && Wrap(theSeq) == theSeq
    {
      WrapSmall(theSeq);
      StartSound(theSeq, wraps, duplicates);
    }

    /** memset of the whole bitmap. */
    method Clear()
      requires history.Length == BITS
      modifies history
      ensures forall any :: Represents(history[..], any, {})
    {
      forall k | 0 <= k < BITS { history[k] := false; }
      EmptyRepresents(history[..]);
    }

    /** memmove of the words to the front, and memset of the rest. */
    method MoveFlags(dist: nat)
      requires history.Length == BITS && dist <= BITS
      modifies history
      ensures Shifted(old(history[..]), history[..], dist)
    {
      ghost var before := history[..];
      var kept := BITS - dist;
      for k := 0 to kept
        invariant forall j :: k <= j < BITS ==> history[j] == before[j]
        invariant forall j :: 0 <= j < k ==> history[j] == before[j + dist]
      {
        history[k] := history[k + dist];
      }
      for k := kept to BITS
        invariant forall j :: 0 <= j < kept ==> history[j] == before[j + dist]
        invariant forall j :: kept <= j < k ==> !history[j]
      {
        history[k] := false;
      }
    }

    /** Makes room for a word beyond the bitmap. */
    method Shift(wordShift: nat, theSeq: int, ghost base: int, ghost seen: set<int>)
      requires history.Length == BITS && 0 < wordShift && 0 <= theSeq < SPACE && 0 <= offset < SPACE
      requires Represents(history[..], base, seen) && forall p :: p in seen ==> p < base + BITS
      modifies this`offset, history
      ensures offset == if wordShift < WORDS then Wrap(old(offset) + 32 * wordShift)
                        else Wrap(theSeq - theSeq % 64 - 32 * (WORDS - 1))
      ensures wordShift < WORDS ==> Represents(history[..], base + 32 * wordShift, seen)
      ensures wordShift >= WORDS ==> forall any :: Represents(history[..], any, {})
    {
      ghost var before := history[..];
      RepresentsSize(before, base, seen);
      hide *;
      if wordShift < WORDS {
        MoveFlags(32 * wordShift);
        offset := Wrap(offset + 32 * wordShift);
        ShiftRepresents(before, history[..], base, seen, 32 * wordShift);
      } else {
        Clear();
        offset := Wrap(theSeq - theSeq % 64 - 32 * (WORDS - 1));
      }
    }

    /** Tests and sets the flag of a packet. */
    method Record(flag: nat, ghost base: int, ghost kept: set<int>)
      requires history.Length == BITS && flag < BITS && Represents(history[..], base, kept)
      modifies history, this`packetCount, this`duplicateCount
      ensures Represents(history[..], base, kept + {base + flag})
      ensures packetCount == old(packetCount) + if base + flag in kept then 0 else 1
      ensures duplicateCount == old(duplicateCount) + if base + flag in kept then 1 else 0
    {
      if history[flag] {
        duplicateCount := duplicateCount + 1;
      } else {
        packetCount := packetCount + 1;
        history[flag] := true;
      }
    }

    /** Moves the bitmap if needed and records the packet. */
    method Store(index: int, theSeq: int, ghost w: Window)
      requires history.Length == BITS && 0 <= theSeq < SPACE && Sound(w) && !Classify(w, theSeq).TooOld?
      requires offset == Wrap(w.base) && Represents(history[..], w.base, w.seen)
      requires forall p :: p in w.seen ==> p < w.base + BITS
      requires index == CodeIndex(w, theSeq)
      modifies history, this`offset, this`packetCount, this`duplicateCount
      ensures offset == Wrap(NextBase(w, theSeq))
      ensures var kept := if Classify(w, theSeq).Near? then w.seen else {};
              && Represents(history[..], NextBase(w, theSeq), kept + {Marked(w, theSeq)})
              && packetCount == old(packetCount) + (if Marked(w, theSeq) in kept then 0 else 1)
              && duplicateCount == old(duplicateCount) + (if Marked(w, theSeq) in kept then 1 else 0)
    {
      hide *;
      CodeIndexRange(w, theSeq);
      FlagOfPacket(w, theSeq);
      OffsetOfBase(w, theSeq);
      CodeWordIs(w, theSeq);
      NextBaseIs(w, theSeq);
      var word := index / 32;
      ghost var kept := w.seen;
      if word >= WORDS {
        Shift(word - WORDS + 1, theSeq, w.base, w.seen);
        if word - WORDS + 1 >= WORDS {
          kept := {};
        }
        word := WORDS - 1;
      }
      Record(32 * word + index % 32, NextBase(w, theSeq), kept);
    }

    /** The packet's index relative to the bitmap, negative if it is too old; newer packets move the
        last sequence number and the wrap counter. */
    method Locate(theSeq: int, ghost w: Window) returns (index: int)
      requires 0 <= theSeq < SPACE && offset == Wrap(w.base) && seqLast == Wrap(w.last)
      modifies this`seqLast, this`wrapCount
      ensures index < 0 <==> Classify(w, theSeq).TooOld?
      ensures index < 0 ==> seqLast == old(seqLast) && wrapCount == old(wrapCount)
      ensures index >= 0 ==>
                var delta, ahead := SeqDelta(theSeq, Wrap(w.base)), SeqDelta(theSeq, Wrap(w.last)) > 0;
                && index == CodeIndex(w, theSeq)
                && seqLast == (if delta < -QUARTER || ahead then theSeq else Wrap(w.last))
                && wrapCount == old(wrapCount) + (if delta >= 0 && ahead && theSeq < Wrap(w.last) then 1 else 0)
    {
      index := SeqDelta(theSeq, offset);
      SeqDeltaIsCircular(theSeq, offset);
      hide SeqDelta, Wrap;
      if index < -QUARTER {
        index := index + SPACE - 1;
        seqLast := theSeq;
      } else if index < 0 {
        return;
      } else if SeqDelta(theSeq, seqLast) > 0 {
        if theSeq < seqLast {
          wrapCount := wrapCount + 1;
        }
        seqLast := theSeq;
      }
    }

    /** The window the next packet meets. */
    ghost function Before(theSeq: int): Window
      reads this
    {
      if init then Start(theSeq, window.wraps, window.duplicates) else window
    }

    ghost function StartBefore(theSeq: int): Window
      reads this
    {
      if init then Start(theSeq, window.wraps, window.duplicates) else start
    }

    ghost function LogBefore(): seq<int>
      reads this
    {
      if init then [] else log
    }

    ghost function Now(): Fields
      reads this, history
    {
      Fields(offset, history[..], seqLast, wrapCount, packetCount, duplicateCount)
    }

    lemma NowIs()
      requires Valid() && !init
      ensures IsWindow(window, Now()) && Sound(window)
    {
    }

    /** Update. The flags, counters and offsets move as the code's tests on sequence numbers say, which is
        exactly as the abstract window does. */
    method Update(theTime: real, theSeq: int) returns (result: int)
      requires Valid() && 0 <= theSeq < SPACE
      modifies this, history
      ensures Valid() && !init && history == old(history) && windowSize == old(windowSize)
      ensures window == Observe(old(Before(theSeq)), theSeq)
      ensures start == old(StartBefore(theSeq)) && log == old(LogBefore()) + [theSeq]
      ensures |old(Now().flags)| == 1024
      ensures Moves(if old(init) then FirstFields(theSeq, old(wrapCount), old(duplicateCount)) else old(Now()),
                    theSeq, Now())
      ensures !old(init) && Ignored(old(Now()), theSeq) ==> result == 0 && timeLast == old(timeLast)
      ensures first == if old(init) then theSeq else old(first)
      ensures timeFirst == if old(init) then theTime else old(timeFirst)
      ensures Classify(old(Before(theSeq)), theSeq).TooOld? ==> result == 0 && !old(init) && timeLast == old(timeLast)
      ensures !Classify(old(Before(theSeq)), theSeq).TooOld? ==>
                timeLast == theTime && result == if windowSize > 0.0 && theTime - timeFirst >= windowSize then 1 else 0
    {
      if init {
        StartSound(theSeq, window.wraps, window.duplicates);
        hide *;
        Begin(theTime, theSeq);
        ghost var w, a := window, Now();
        NowIs();
        FirstIs(w, a, theSeq);
        result := Take(theTime, theSeq);
        assert [] + [theSeq] == [theSeq];
        NowIs();
        ObserveMoves(w, a, theSeq, Now());
      } else {
        hide *;
        ghost var w, a := window, Now();
        NowIs();
        ClassifyByDistance(w, theSeq, a);
        result := Take(theTime, theSeq);
        NowIs();
        ObserveMoves(w, a, theSeq, Now());
      }
    }

    /** Update past its initial block. */
    method Take(theTime: real, theSeq: int) returns (result: int)
      requires Valid() && !init && 0 <= theSeq < SPACE
      modifies this, history
      ensures Valid() && !init && history == old(history) && windowSize == old(windowSize)
      ensures window == Observe(old(window), theSeq) && start == old(start) && log == old(log) + [theSeq]
      ensures first == old(first) && timeFirst == old(timeFirst)
      ensures Classify(old(window), theSeq).TooOld? ==> result == 0 && timeLast == old(timeLast)
      ensures !Classify(old(window), theSeq).TooOld? ==>
                timeLast == theTime && result == if windowSize > 0.0 && theTime - timeFirst >= windowSize then 1 else 0
    {
      ghost var w := window;
      CurrentFields(this);
      hide *;
      LogFields(theSeq);
      var tooOld := Move(theSeq, w);
      window := Observe(w, theSeq);
      log := log + [theSeq];
      FieldsLogged();
      FieldsCurrent(this);
      if tooOld {
        return 0;
      }
      result := Elapsed(theTime);
    }

    /** Locates a packet and records it unless it is too old: the fields become those of the next window. */
    method Move(theSeq: int, ghost w: Window) returns (tooOld: bool)
      requires history.Length == BITS && 0 <= theSeq < SPACE && Sound(w)
      requires Represents(history[..], w.base, w.seen) && forall p :: p in w.seen ==> p < w.base + BITS
      requires offset == Wrap(w.base) && seqLast == Wrap(w.last)
      requires wrapCount == w.wraps && packetCount == w.packets && duplicateCount == w.duplicates
      modifies history, this`offset, this`seqLast, this`wrapCount, this`packetCount, this`duplicateCount
      ensures tooOld <==> Classify(w, theSeq).TooOld?
      ensures var next := Observe(w, theSeq);
              && Sound(next) && Represents(history[..], next.base, next.seen)
              && offset == Wrap(next.base) && seqLast == Wrap(next.last)
              && wrapCount == next.wraps && packetCount == next.packets && duplicateCount == next.duplicates
    {
      hide *;
      ObserveFields(w, theSeq);
      var index := Locate(theSeq, w);
      if index < 0 {
        return true;
      }
      Store(index, theSeq, w);
      return false;
    }

    /** The end of Update: has the time window passed? */
    method Elapsed(theTime: real) returns (result: int)
      requires Valid()
      modifies this`timeLast
      ensures Valid() && timeLast == theTime
      ensures result == if windowSize > 0.0 && theTime - timeFirst >= windowSize then 1 else 0
    {
      result := 0;
      if windowSize > 0.0 {
        if theTime - timeFirst >= windowSize {
          result := 1;
        }
      }
      timeLast := theTime;
    }

    /** What recording the packet does to the log. */
    lemma LogFields(theSeq: int)
      requires Logged() && Sound(window) && 0 <= theSeq < SPACE
      ensures IsStart(start) && InSpace(log + [theSeq])
      ensures SameFlags(Observe(window, theSeq), Run(start, log + [theSeq]))
      ensures seqFirst == Wrap(first) && first <= Observe(window, theSeq).last
      ensures Classify(window, theSeq).TooOld? ==> Observe(window, theSeq) == window
    {
      SameStep(window, start, log, theSeq);
      if !Classify(window, theSeq).TooOld? {
        LastMovesForward(window, theSeq);
      }
      hide Wrap, SeqDelta, Position, Sound, SameFlags;
    }

    lemma FieldsLogged()
      requires IsStart(start) && InSpace(log) && SameFlags(window, Run(start, log))
      requires seqFirst == Wrap(first) && first <= window.last
      ensures Logged()
    {
    }

    /** Reset: counting starts anew at the newest packet. */
    method Reset()
      requires Valid() && !init
      modifies this
      ensures Valid() && !init && history == old(history) && windowSize == old(windowSize)
      ensures window == old(window).(packets := 1, wraps := 0) && start == old(start) && log == old(log)
      ensures first == old(window).last && timeFirst == timeLast == old(timeLast)
    {
      packetCount, wrapCount := 1, 0;
      seqFirst, timeFirst := seqLast, timeLast;
      window := window.(packets := 1, wraps := 0);
      first := window.last;
    }

    /** LossFraction, of the packets it expects. Before the first packet it reads fields nobody has set. */
    method LossFraction() returns (defined: bool, loss: real)
      requires Valid()
      ensures defined <==> !init
      ensures defined ==>
                var expected := Expected(window.wraps, window.last, first);
                loss == if window.packets < expected then 1.0 - window.packets as real / expected as real else 0.0
    {
      hide SeqDelta, Wrap, Run;
      if init {
        return false, 0.0;
      }
      var pktsExpected := (wrapCount * (SPACE - 1) + SeqDelta(seqLast, seqFirst) + 1) % 0x1_0000_0000_0000_0000;
      assert pktsExpected == Expected(window.wraps, window.last, first);
      loss := if packetCount < pktsExpected then 1.0 - packetCount as real / pktsExpected as real else 0.0;
      return true, loss;
    }

    /** IsDuplicate: near the window, exactly when a packet of that sequence number is recorded in it; and
        after a faithful run, exactly when such a packet was received inside the window. */
    method IsDuplicate(theTime: real, theSeq: int) returns (duplicate: bool)
      requires Valid() && 0 <= theSeq < SPACE
      modifies this, history
      ensures Valid() && !init && window == Observe(old(Before(theSeq)), theSeq)
      ensures duplicate ==> Classify(old(Before(theSeq)), theSeq).Near?
      ensures Classify(old(Before(theSeq)), theSeq).Near? ==>
                var w := old(Before(theSeq));
                duplicate <==> exists p :: p in w.seen && w.base <= p && Wrap(p) == theSeq
      ensures Faithful(old(StartBefore(theSeq)), old(LogBefore())) ==>
                (duplicate <==> ReceivedInside(old(StartBefore(theSeq)), old(LogBefore()), theSeq))
    {
      ghost var w, s, l := Before(theSeq), StartBefore(theSeq), LogBefore();
      BeforeIsSound(theSeq);
      var oldDupCount := duplicateCount;
      hide *;
      var _ := Update(theTime, theSeq);
      DuplicatesCounted(w, theSeq);
      SameStep(w, s, l, theSeq);
      if Faithful(s, l) {
        DuplicateIffReceived(s, l, theSeq);
      }
      CountIsCurrent();
      return oldDupCount != duplicateCount;
    }

    lemma CountIsCurrent()
      requires Valid()
      ensures duplicateCount == window.duplicates
    {
    }

    lemma BeforeIsSound(theSeq: int)
      requires Valid() && 0 <= theSeq < SPACE
      ensures Sound(Before(theSeq)) && Before(theSeq).duplicates == duplicateCount
      ensures IsStart(StartBefore(theSeq)) && InSpace(LogBefore())
      ensures SameFlags(Before(theSeq), Run(StartBefore(theSeq), LogBefore()))
    {
      StartSound(theSeq, window.wraps, window.duplicates);
    }
  }

  lemma DuplicatesCounted(w: Window, sn: int)
    requires Sound(w) && 0 <= sn < SPACE
    ensures Observe(w, sn).duplicates != w.duplicates ==> Classify(w, sn).Near?
    ensures Classify(w, sn).Near? ==>
              (Observe(w, sn).duplicates != w.duplicates <==>
               exists p :: p in w.seen && w.base <= p && Wrap(p) == sn)
  {
    if Classify(w, sn).Near? {
      DuplicateIffFlagged(w, sn);
    }
    hide Wrap, Marked, NextBase, Position;
  }
}
