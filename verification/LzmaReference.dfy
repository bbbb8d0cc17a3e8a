/**
 The parts of the LZMA format that spelling and decoding share, said a second time in another way: the
 state by the kinds of the latest packets, the distances by the packets that gave them, and each context
 by the array and index that it stands for.
 */
module LzmaReference {
  import opened BitArithmetic
  import opened RangeCoder
  import opened RangeDecoding
  import opened LzDictionary
  import opened LzmaPackets
  import LzmaUnique

  // ----- the state -----

  /** What a packet is to the state; before the first packet it is as if literals had gone on for ever. */
  datatype Kind = Lit | Mat | Long | Short

  function KindOf(p: Packet): Kind {
    match p
    case Literal(_) => Lit
    case Match(_, _) => Mat
    case ShortRep => Short
    case LongRep(_, _) => Long
  }

  /** The kind of the packet `back` places before the last. */
  function Ago(ps: Packets, back: nat): Kind {
    match ps
    case NoPackets => Lit
    case Add(prev, p) => if back == 0 then KindOf(p) else Ago(prev, back - 1)
  }

  /** A repeat of which the state remembers only that: a long one, or a short one behind another copy. */
  predicate PlainRepeat(ps: Packets, back: nat) {
    Ago(ps, back) == Long || (Ago(ps, back) == Short && Ago(ps, back + 1) != Lit)
  }

  /** A short repeat behind a literal. */
  predicate LoneShort(ps: Packets, back: nat) {
    Ago(ps, back) == Short && Ago(ps, back + 1) == Lit
  }

  /** Each of the twelve states, told by the kinds of the latest packets. */
  ghost predicate Told(state: nat, ps: Packets) {
    && state < 12
    && (state == 0 <==> Ago(ps, 0) == Lit && Ago(ps, 1) == Lit && Ago(ps, 2) == Lit)
    && (state == 1 <==> Ago(ps, 0) == Lit && Ago(ps, 1) == Lit && Ago(ps, 2) == Mat)
    && (state == 2 <==> Ago(ps, 0) == Lit && Ago(ps, 1) == Lit && PlainRepeat(ps, 2))
    && (state == 3 <==> Ago(ps, 0) == Lit && Ago(ps, 1) == Lit && LoneShort(ps, 2))
    && (state == 4 <==> Ago(ps, 0) == Lit && Ago(ps, 1) == Mat)
    && (state == 5 <==> Ago(ps, 0) == Lit && PlainRepeat(ps, 1))
    && (state == 6 <==> Ago(ps, 0) == Lit && LoneShort(ps, 1))
    && (state == 7 <==> Ago(ps, 0) == Mat && Ago(ps, 1) == Lit)
    && (state == 8 <==> Ago(ps, 0) == Long && Ago(ps, 1) == Lit)
    && (state == 9 <==> LoneShort(ps, 0))
    && (state == 10 <==> Ago(ps, 0) == Mat && Ago(ps, 1) != Lit)
    && (state == 11 <==> (Ago(ps, 0) == Long || Ago(ps, 0) == Short) && Ago(ps, 1) != Lit)
  }

  lemma ToldStep(state: nat, ps: Packets, p: Packet)
    requires Told(state, ps)
    ensures Told(NextState(state, p), Add(ps, p))
  {
    AgoBack(Add(ps, p), 1);
    AgoBack(Add(ps, p), 2);
    AgoBack(Add(ps, p), 3);
  }

  lemma AgoBack(ps: Packets, back: nat)
    requires ps.Add? && back > 0
    ensures Ago(ps, back) == Ago(ps.prev, back - 1)
  {
  }

  /** Whatever packets are played, the state is told by them and those that came before. */
  lemma {:induction false} StateTold(s: Session, before: Packets, ps: Packets)
    requires Legal(s, ps) && Told(s.coder.state, before)
    ensures Told(Play(s, ps).coder.state, Join(before, ps))
    decreases ps
  {
    hide Expand, Readable, Told;
    if ps.Add? {
      StateTold(s, before, ps.prev);
      ToldStep(Play(s, ps.prev).coder.state, Join(before, ps.prev), ps.last);
    }
  }

  lemma FreshTold()
    ensures Told(0, NoPackets)
  {
  }

  // ----- the distances -----

  /** The distance that a packet copies from, and what becomes of the four that are remembered, place by place. */
  lemma DistancesTold(c: Coder, h: seq<byte>, p: Packet)
    requires ValidCoder(c) && ValidPacket(p)
    ensures var r := After(c, p).reps;
            && |r| == 4
            && (p.Literal? || p.ShortRep? ==> r == c.reps)
            && (p.Match? ==> r[0] == p.dist && r[1] == c.reps[0] && r[2] == c.reps[1] && r[3] == c.reps[2])
            && (p.LongRep? ==>
                  && r[0] == c.reps[p.index]
                  && (forall j :: 0 <= j < p.index ==> r[j + 1] == c.reps[j])
                  && (forall j :: p.index < j < 4 ==> r[j] == c.reps[j]))
    ensures Readable(c, h, p) && !p.Literal? ==>
              var d := if p.Match? then p.dist else if p.ShortRep? then c.reps[0] else c.reps[p.index];
              d < |h| && Expand(c, h, p) == LzCopy(h, d, PacketLength(p))
  {
    hide LzCopy;
  }

  /** Going back to the distance before the last twice changes nothing. */
  lemma BackAndForth(c: Coder, n: nat)
    requires ValidCoder(c) && 2 <= n <= 273
    ensures NextReps(NextReps(c.reps, LongRep(1, n)), LongRep(1, n)) == c.reps
  {
  }

  lemma Pushed(r: seq<nat>, d: nat, n: nat)
    requires |r| == 4 && ValidPacket(Match(d, n))
    ensures var q := NextReps(r, Match(d, n));
            |q| == 4 && q[0] == d && q[1] == r[0] && q[2] == r[1] && q[3] == r[2]
  {
  }

  /** After four matches a repeat of index i copies from the i-th latest of them. */
  lemma Recalled(c: Coder, d: seq<nat>, n: nat, i: nat)
    requires ValidCoder(c) && |d| == 4 && i < 4 && 2 <= n <= 273 && forall k :: 0 <= k < 4 ==> d[k] < WORD
    ensures var c1 := After(c, Match(d[3], n));
            var c2 := After(c1, Match(d[2], n));
            var c3 := After(c2, Match(d[1], n));
            var c4 := After(c3, Match(d[0], n));
            c4.reps == d && After(c4, LongRep(i, n)).reps[0] == d[i]
  {
    Pushed(c.reps, d[3], n);
    var r1 := NextReps(c.reps, Match(d[3], n));
    Pushed(r1, d[2], n);
    var r2 := NextReps(r1, Match(d[2], n));
    Pushed(r2, d[1], n);
    var r3 := NextReps(r2, Match(d[1], n));
    Pushed(r3, d[0], n);
    assert NextReps(r3, Match(d[0], n)) == d;
  }

  // ----- probabilities -----

  /** A probability moves by a 32nd of its way to the end that the bit points at, rounded down. */
  lemma AdaptTold(p: nat, bit: bool)
    requires p <= 2048
    ensures var q, end := Adapt(p, bit), if bit then 0 else 2048;
            var moved, way := if bit then p - q else q - p, if bit then p - end else end - p;
            0 <= 32 * moved <= way < 32 * moved + 32
  {
  }

  /** The share of the range for a zero bit, in 2048ths rounded down. */
  lemma ShareTold(range: nat, p: nat)
    ensures 2048 * Bound(range, p) == p * (range - range % 2048)
  {
    TimesIsProduct(range / MODEL_TOTAL, p);
    assert range == MODEL_TOTAL * (range / MODEL_TOTAL) + range % MODEL_TOTAL;
    Regrouped(p, range / MODEL_TOTAL);
  }

  lemma Regrouped(p: nat, q: nat)
    ensures 2048 * (q * p) == p * (2048 * q)
  {
  }

  /** A byte is read exactly if the range is below 2^24, and brings a range of at least 2^16 up to that. */
  lemma NormalizeTold(rc: Rc, input: seq<byte>)
    requires CanNormalize(rc, input) && rc.code < 0x1_0000_0000
    ensures var n := Normalize(rc, input);
            && n.pos == rc.pos + (if rc.range < 0x100_0000 then 1 else 0)
            && (rc.range >= 0x1_0000 ==> n.range >= 0x100_0000)
            && (rc.range < 0x100_0000 ==> n.range == 256 * rc.range && n.code % 256 == input[rc.pos])
  {
    if rc.range < TOP {
      LastByte(rc.code, input[rc.pos]);
    }
  }

  lemma LastByte(code: nat, b: byte)
    requires code < 0x1_0000_0000
    ensures (code * 256 + b) % 0x1_0000_0000 % 256 == b
  {
  }

  // ----- contexts -----

  /** The probability arrays of the decoder, and an element of each. */
  datatype Context =
    | IsMatch(state: nat, pos: nat)
    | IsRep(state: nat)
    | IsRep0(state: nat)
    | IsRep1(state: nat)
    | IsRep2(state: nat)
    | IsRep0Long(state: nat, pos: nat)
    | Slot(lengthState: nat, node: nat)
    | Special(index: nat)
    | Align(node: nat)
    | Choice(rep: bool)
    | Choice2(rep: bool)
    | Low(rep: bool, pos: nat, node: nat)
    | Mid(rep: bool, pos: nat, node: nat)
    | High(rep: bool, node: nat)
    | Coded(coder: nat, node: nat)

  predicate ValidContext(x: Context) {
    match x
    case IsMatch(s, p) => s < 12 && p < 16
    case IsRep(s) => s < 12
    case IsRep0(s) => s < 12
    case IsRep1(s) => s < 12
    case IsRep2(s) => s < 12
    case IsRep0Long(s, p) => s < 12 && p < 16
    case Slot(l, n) => l < 4 && n < 64
    case Special(i) => i < 114
    case Align(n) => n < 16
    case Choice(_) => true
    case Choice2(_) => true
    case Low(_, p, n) => p < 16 && n < 8
    case Mid(_, p, n) => p < 16 && n < 8
    case High(_, n) => n < 256
    case Coded(k, n) => k < 16 && n < 0x300
  }

  /** The arrays one behind the other: each begins where the sizes of those before it add up to. */
  function Flat(x: Context): nat {
    match x
    case IsMatch(s, p) => 16 * s + p
    case IsRep(s) => 12 * 16 + s
    case IsRep0(s) => 12 * 16 + 12 + s
    case IsRep1(s) => 12 * 16 + 2 * 12 + s
    case IsRep2(s) => 12 * 16 + 3 * 12 + s
    case IsRep0Long(s, p) => 12 * 16 + 4 * 12 + 16 * s + p
    case Slot(l, n) => 2 * 12 * 16 + 4 * 12 + 64 * l + n
    case Special(i) => 2 * 12 * 16 + 4 * 12 + 4 * 64 + i
    case Align(n) => 2 * 12 * 16 + 4 * 12 + 4 * 64 + 114 + n
    case Choice(rep) => Lengths(rep)
    case Choice2(rep) => Lengths(rep) + 1
    case Low(rep, p, n) => Lengths(rep) + 2 + 8 * p + n
    case Mid(rep, p, n) => Lengths(rep) + 2 + 16 * 8 + 8 * p + n
    case High(rep, n) => Lengths(rep) + 2 + 2 * 16 * 8 + n
    case Coded(k, n) => 2 * 12 * 16 + 4 * 12 + 4 * 64 + 114 + 16 + 2 * (2 + 2 * 16 * 8 + 256) + 0x300 * k + n
  }

  function Lengths(rep: bool): nat {
    2 * 12 * 16 + 4 * 12 + 4 * 64 + 114 + 16 + if rep then 2 + 2 * 16 * 8 + 256 else 0
  }

  /** The context whose probability lies at index i. */
  function At(i: nat): Context {
    if i < 192 then IsMatch(i / 16, i % 16)
    else if i < 204 then IsRep(i - 192)
    else if i < 216 then IsRep0(i - 204)
    else if i < 228 then IsRep1(i - 216)
    else if i < 240 then IsRep2(i - 228)
    else if i < 432 then IsRep0Long((i - 240) / 16, (i - 240) % 16)
    else if i < 688 then Slot((i - 432) / 64, (i - 432) % 64)
    else if i < 802 then Special(i - 688)
    else if i < 818 then Align(i - 802)
    else if i < 1332 then LengthAt(false, i - 818)
    else if i < 1846 then LengthAt(true, i - 1332)
    else Coded((i - 1846) / 0x300, (i - 1846) % 0x300)
  }

  function LengthAt(rep: bool, i: nat): Context {
    if i == 0 then Choice(rep)
    else if i == 1 then Choice2(rep)
    else if i < 130 then Low(rep, (i - 2) / 8, (i - 2) % 8)
    else if i < 258 then Mid(rep, (i - 130) / 8, (i - 130) % 8)
    else High(rep, i - 258)
  }

  lemma LengthEach(x: Context)
    requires ValidContext(x) && (x.Choice? || x.Choice2? || x.Low? || x.Mid? || x.High?)
    ensures Lengths(x.rep) <= Flat(x) < Lengths(x.rep) + 514 && LengthAt(x.rep, Flat(x) - Lengths(x.rep)) == x
  {
    if x.Low? || x.Mid? {
      assert (8 * x.pos + x.node) / 8 == x.pos && (8 * x.pos + x.node) % 8 == x.node;
    }
  }

  lemma Parted(q: nat, r: nat)
    ensures r < 16 ==> (16 * q + r) / 16 == q && (16 * q + r) % 16 == r
    ensures r < 64 ==> (64 * q + r) / 64 == q && (64 * q + r) % 64 == r
    ensures r < 0x300 ==> (0x300 * q + r) / 0x300 == q && (0x300 * q + r) % 0x300 == r
  {
  }

  /** The decoder has as many probabilities as there are contexts, one for each. */
  lemma OneProbabilityEach(x: Context)
    requires ValidContext(x)
    ensures Flat(x) < PROBS_TOTAL && At(Flat(x)) == x
  {
    hide LengthAt;
    match x
    case IsMatch(s, p) => Parted(s, p);
    case IsRep0Long(s, p) => Parted(s, p);
    case Slot(l, n) => Parted(l, n);
    case Coded(k, n) => Parted(k, n);
    case Choice(_) => LengthEach(x);
    case Choice2(_) => LengthEach(x);
    case Low(_, _, _) => LengthEach(x);
    case Mid(_, _, _) => LengthEach(x);
    case High(_, _) => LengthEach(x);
    case _ =>
  }

  lemma OneContextEach(i: nat)
    requires i < PROBS_TOTAL
    ensures ValidContext(At(i)) && Flat(At(i)) == i
  {
  }

  // ----- spelling, bit by bit from the front -----

  /** The first j of the k bits of v, highest first; each is coded at a 1 followed by the bits before it. */
  function TreeTold(t: Bits, at: nat -> Context, k: nat, v: nat, j: nat): Bits
    requires j <= k
  {
    if j == 0 then t
    else
      Then(TreeTold(t, at, k, v, j - 1),
           Modelled(Flat(at(Pow2(j - 1) + ShiftRight(v, k - j + 1))), BitOf(v, k - j) == 1))
  }

  /** A 1 followed by the lowest j bits of v, lowest first. */
  function LowFirst(v: nat, j: nat): nat {
    if j == 0 then 1 else 2 * LowFirst(v, j - 1) + BitOf(v, j - 1)
  }

  /** The lowest j bits of v, lowest first, coded in the same way. */
  function ReverseTold(t: Bits, at: nat -> Context, v: nat, j: nat): Bits {
    if j == 0 then t
    else Then(ReverseTold(t, at, v, j - 1), Modelled(Flat(at(LowFirst(v, j - 1))), BitOf(v, j - 1) == 1))
  }

  /** The first j of the k bits of v, highest first, without a model. */
  function DirectTold(t: Bits, k: nat, v: nat, j: nat): Bits
    requires j <= k
  {
    if j == 0 then t else Then(DirectTold(t, k, v, j - 1), Direct(BitOf(v, k - j) == 1))
  }

  /** The first j bits of a literal after a copy: while they agree with the byte copied from, its next bit counts. */
  function MatchedTold(t: Bits, coder: nat, m: byte, b: byte, j: nat): Bits
    requires j <= 8
  {
    if j == 0 then t
    else
      var agree := ShiftRight(b, 9 - j) == ShiftRight(m, 9 - j);
      var part := if agree then 0x100 + 0x100 * BitOf(m, 8 - j) else 0;
      Then(MatchedTold(t, coder, m, b, j - 1),
           Modelled(Flat(Coded(coder, part + Pow2(j - 1) + ShiftRight(b, 9 - j))), BitOf(b, 8 - j) == 1))
  }

  function LengthTold(t: Bits, rep: bool, pos: nat, len: nat): Bits
    requires 2 <= len <= 273
  {
    var first := Then(t, Modelled(Flat(Choice(rep)), len >= 10));
    var second := Then(first, Modelled(Flat(Choice2(rep)), len >= 18));
    if len < 10 then TreeTold(first, (n: nat) => Low(rep, pos, n), 3, len - 2, 3)
    else if len < 18 then TreeTold(second, (n: nat) => Mid(rep, pos, n), 3, len - 10, 3)
    else TreeTold(second, (n: nat) => High(rep, n), 8, len - 18, 8)
  }

  /** Slot, then what lies below it: few bits modelled by the slot, many but the last four direct. */
  function DistanceTold(t: Bits, len: nat, dist: nat): Bits
    requires len >= 2
  {
    var slot, group := DistSlot(dist), if len < 5 then len - 2 else 3;
    SlotBounds(dist);
    var low := dist - SlotBase(slot);
    var told := TreeTold(t, (n: nat) => Slot(group, n), 6, slot, 6);
    if slot < 4 then told
    else if slot < 14 then
      SlotAtLeast(slot);
      ReverseTold(told, (n: nat) => Special(SpecialIndex(slot, n)), low, slot / 2 - 1)
    else ReverseTold(DirectTold(told, slot / 2 - 5, low / 16, slot / 2 - 5), (n: nat) => Align(n), low % 16, 4)
  }

  function SpecialIndex(slot: nat, n: nat): nat {
    if SlotBase(slot) + n > slot then SlotBase(slot) + n - slot - 1 else 0
  }

  /** Which coder a literal has: the low bits of the position above the high bits of the byte before. */
  function CoderOf(props: Props, h: seq<byte>): nat
    requires ValidProps(props)
  {
    var before := if h == [] then 0 else h[|h| - 1];
    ShiftLeft(Truncate(|h|, props.lp), props.lc) + ShiftRight(before, 8 - props.lc)
  }

  function LiteralTold(t: Bits, props: Props, c: Coder, h: seq<byte>, b: byte): Bits
    requires ValidProps(props) && ValidCoder(c) && (c.state >= 7 ==> c.reps[0] < |h|)
  {
    var coder := CoderOf(props, h);
    if c.state < 7 then TreeTold(t, (n: nat) => Coded(coder, n), 8, b, 8)
    else MatchedTold(t, coder, h[|h| - 1 - c.reps[0]], b, 8)
  }

  /** A packet, spelled from its context. */
  function PacketTold(t: Bits, props: Props, c: Coder, h: seq<byte>, p: Packet): Bits
    requires ValidProps(props) && ValidCoder(c) && ValidPacket(p)
    requires c.state >= 7 ==> c.reps[0] < |h|
  {
    var pos, s := Truncate(|h|, props.pb), c.state;
    var isMatch := Then(t, Modelled(Flat(IsMatch(s, pos)), !p.Literal?));
    var isRep := Then(isMatch, Modelled(Flat(IsRep(s)), !p.Match?));
    match p
    case Literal(b) => LiteralTold(isMatch, props, c, h, b)
    case Match(dist, len) => DistanceTold(LengthTold(isRep, false, pos, len), len, dist)
    case ShortRep =>
      Then(Then(isRep, Modelled(Flat(IsRep0(s)), false)), Modelled(Flat(IsRep0Long(s, pos)), false))
    case LongRep(i, len) =>
      var rep0 := Then(isRep, Modelled(Flat(IsRep0(s)), i > 0));
      var chosen :=
        if i == 0 then Then(rep0, Modelled(Flat(IsRep0Long(s, pos)), true))
        else
          var rep1 := Then(rep0, Modelled(Flat(IsRep1(s)), i > 1));
          if i == 1 then rep1 else Then(rep1, Modelled(Flat(IsRep2(s)), i > 2));
      LengthTold(chosen, true, pos, len)
  }

  // ----- the two spellings are one -----

  lemma TreeStep(t: Bits, base: nat, k: nat, v: nat, j: nat)
    requires 0 < j <= k
    ensures var node := Pow2(j - 1) + ShiftRight(v, k - j + 1);
            TreePath(t, base, Pow2(j) + ShiftRight(v, k - j))
            == Then(TreePath(t, base, node), Modelled(base + node, BitOf(v, k - j) == 1))
  {
    hide ShiftLeft, Truncate;
    HalfOfSum(ShiftRight(v, k - j), Pow2(j - 1));
  }

  lemma {:induction false} TreeIsTold(t: Bits, base: nat, at: nat -> Context, k: nat, v: nat, j: nat)
    requires v < Pow2(k) && j <= k && forall n: nat :: n > 0 ==> Flat(at(n)) == base + n
    ensures TreePath(t, base, Pow2(j) + ShiftRight(v, k - j)) == TreeTold(t, at, k, v, j)
    decreases j
  {
    hide Flat, ShiftRight, Pow2, BitOf, TreePath;
    if j == 0 {
      ShiftedOut(v, k);
      TreeRoot(t, base);
    } else {
      TreeIsTold(t, base, at, k, v, j - 1);
      TreeStep(t, base, k, v, j);
    }
  }

  lemma TreeRoot(t: Bits, base: nat)
    ensures Pow2(0) == 1 && TreePath(t, base, 1) == t
  {
  }

  lemma {:induction false} DirectIsTold(t: Bits, k: nat, v: nat, j: nat)
    requires j <= k
    ensures DirectPath(t, j, ShiftRight(v, k - j)) == DirectTold(t, k, v, j)
    decreases j
  {
    if j > 0 {
      DirectIsTold(t, k, v, j - 1);
    }
  }

  lemma {:induction false} SameLow(t: Bits, at: nat -> Context, v: nat, k: nat, j: nat)
    requires j <= k
    ensures LowFirst(v % Pow2(k), j) == LowFirst(v, j)
    ensures ReverseTold(t, at, v % Pow2(k), j) == ReverseTold(t, at, v, j)
    decreases j
  {
    hide Flat, Pow2, BitOf;
    if j > 0 {
      SameLow(t, at, v, k, j - 1);
      BitsBelow(v, k, j - 1);
    }
  }

  lemma {:induction false} ReverseIsTold(t: Bits, base: nat, at: nat -> Context, k: nat, v: nat)
    requires forall n: nat :: n > 0 ==> Flat(at(n)) == base + n
    ensures ReverseNode(k, v) == LowFirst(v, k) > 0
    ensures ReversePath(t, base, k, v) == ReverseTold(t, at, v, k)
    decreases k
  {
    hide Flat, Pow2, ShiftRight;
    if k > 0 {
      ReverseIsTold(t, base, at, k - 1, v % Pow2(k - 1));
      SameLow(t, at, v, k - 1, k - 1);
      DivisionShifts(v, k - 1);
    }
  }

  lemma {:induction false} TopBits(b: byte, i: nat)
    requires i <= 8
    ensures NodeOf(b, i) == Pow2(i) + ShiftRight(b, 8 - i)
    ensures i < 8 ==> TopBit(b, i) == BitOf(b, 7 - i)
  {
    TopBitIs(b, i);
    if i > 0 {
      TopBits(b, i - 1);
    } else {
      ShiftedOut(b, 8);
    }
  }

  lemma TopBitIs(b: byte, i: nat)
    ensures i < 8 ==> TopBit(b, i) == BitOf(b, 7 - i)
  {
    hide ShiftLeft, ShiftRight;
    if i < 8 {
      DivisionShifts(ShiftLeft(b, i + 1), 8);
      ShiftTwice(ShiftLeft(b, i + 1), i + 1, 7 - i);
      ShiftedBack(b, i + 1);
    }
  }

  lemma OffsetTold(m: byte, b: byte, j: nat)
    requires 0 < j <= 8
    ensures MatchedOffset(m, j - 1, Pow2(j - 1) + ShiftRight(b, 9 - j))
            == if ShiftRight(b, 9 - j) == ShiftRight(m, 9 - j) then 0x100 + 0x100 * BitOf(m, 8 - j) else 0
  {
    hide NodeOf, TopBit, BitOf, ShiftRight;
    TopBits(m, j - 1);
  }

  lemma NoShift(v: nat)
    ensures ShiftRight(v, 0) == v
  {
  }

  lemma {:induction false} MatchedIsTold(t: Bits, coder: nat, m: byte, b: byte, j: nat)
    requires j <= 8
    ensures MatchedPath(t, Flat(Coded(coder, 0)), m, j, Pow2(j) + ShiftRight(b, 8 - j))
            == MatchedTold(t, coder, m, b, j)
    decreases j
  {
    hide MatchedOffset;
    if j > 0 {
      MatchedIsTold(t, coder, m, b, j - 1);
      OffsetTold(m, b, j);
      HalfOfSum(ShiftRight(b, 8 - j), Pow2(j - 1));
    }
  }

  lemma LengthIsTold(t: Bits, rep: bool, pos: nat, len: nat)
    requires 2 <= len <= 273
    ensures LengthBits(t, if rep then REP_LEN else MATCH_LEN, pos, len) == LengthTold(t, rep, pos, len)
  {
    hide TreePath, TreeTold, ShiftRight, Pow2;
    Powers();
    var base := if rep then REP_LEN else MATCH_LEN;
    var first := Then(t, Modelled(base, len >= 10));
    var second := Then(first, Modelled(base + 1, len >= 18));
    if len < 10 {
      TreeWhole(first, base + 2 + 8 * pos, (n: nat) => Low(rep, pos, n), 3, len - 2);
    } else if len < 18 {
      TreeWhole(second, base + 130 + 8 * pos, (n: nat) => Mid(rep, pos, n), 3, len - 10);
    } else {
      TreeWhole(second, base + 258, (n: nat) => High(rep, n), 8, len - 18);
    }
  }

  lemma Powers()
    ensures Pow2(3) == 8 && Pow2(6) == 64 && Pow2(8) == 0x100
  {
  }

  lemma TreeWhole(t: Bits, base: nat, at: nat -> Context, k: nat, v: nat)
    requires v < Pow2(k) && forall n: nat :: n > 0 ==> Flat(at(n)) == base + n
    ensures TreePath(t, base, Pow2(k) + v) == TreeTold(t, at, k, v, k)
  {
    TreeIsTold(t, base, at, k, v, k);
  }

  lemma {:induction false} SlotAbove(slot: nat)
    requires slot >= 4
    ensures SlotBase(slot) >= slot
    decreases slot
  {
    if slot >= 6 {
      SlotUp(slot - 2);
      SlotAbove(slot - 2);
    } else {
      assert ShiftLeft(2 + slot % 2, 1) == 2 * ShiftLeft(2 + slot % 2, 0);
    }
  }

  lemma FooterIsTold(t: Bits, slot: nat, low: nat)
    ensures slot < 4 ==> FooterPath(t, slot, low) == t
    ensures 4 <= slot < 14 ==>
              FooterPath(t, slot, low)
              == ReverseTold(t, (n: nat) => Special(SpecialIndex(slot, n)), low, slot / 2 - 1)
    ensures slot >= 14 ==>
              FooterPath(t, slot, low)
              == ReverseTold(DirectTold(t, slot / 2 - 5, low / 16, slot / 2 - 5), (n: nat) => Align(n), low % 16, 4)
  {
    hide SlotBase, ReversePath, ReverseTold, DirectPath, DirectTold;
    if slot >= 14 {
      DirectIsTold(t, slot / 2 - 5, low / 16, slot / 2 - 5);
      ReverseIsTold(DirectPath(t, slot / 2 - 5, low / 16), DIST_ALIGN, (n: nat) => Align(n), 4, low % 16);
    } else if slot >= 4 {
      SlotAbove(slot);
      ReverseIsTold(t, DIST_SPECIAL + SlotBase(slot) - slot - 1, (n: nat) => Special(SpecialIndex(slot, n)),
                    slot / 2 - 1, low);
    }
  }

  lemma DistanceIsTold(t: Bits, len: nat, dist: nat)
    requires len >= 2 && DistSlot(dist) < 64
    ensures DistanceBits(t, len, dist) == DistanceTold(t, len, dist)
  {
    hide TreePath, TreeTold, ReverseTold, DirectTold, FooterPath, DistSlot, SlotBase;
    SlotBounds(dist);
    var slot, group := DistSlot(dist), LengthState(len);
    assert Pow2(6) == 64;
    TreeWhole(t, DIST_SLOT + 64 * group, (n: nat) => Slot(group, n), 6, slot);
    FooterIsTold(TreePath(t, DIST_SLOT + 64 * group, 64 + slot), slot, dist - SlotBase(slot));
  }

  lemma LiteralIsTold(t: Bits, props: Props, c: Coder, h: seq<byte>, b: byte)
    requires ValidProps(props) && ValidCoder(c) && (c.state >= 7 ==> c.reps[0] < |h|)
    ensures LiteralBits(t, props, c, h, b) == LiteralTold(t, props, c, h, b)
  {
    hide TreePath, TreeTold, MatchedPath, MatchedTold, ShiftRight, ShiftLeft, Truncate, BitAnd;
    AndIsTruncate(|h|, props.lp);
    var coder := CoderOf(props, h);
    assert Pow2(8) == 0x100;
    if c.state < 7 {
      TreeWhole(t, LiteralBase(props, h), (n: nat) => Coded(coder, n), 8, b);
    } else {
      MatchedIsTold(t, coder, h[|h| - 1 - c.reps[0]], b, 8);
      NoShift(b);
    }
  }

  /** Every packet is spelled as told. */
  lemma SpelledAsTold(t: Bits, props: Props, c: Coder, h: seq<byte>, p: Packet)
    requires ValidProps(props) && ValidCoder(c) && ValidPacket(p) && (c.state >= 7 ==> c.reps[0] < |h|)
    ensures PacketBits(t, props, c, h, p) == PacketTold(t, props, c, h, p)
  {
    hide LiteralBits, LiteralTold, LengthBits, LengthTold, DistanceBits, DistanceTold, DistSlot, Truncate, BitAnd;
    AndIsTruncate(|h|, props.pb);
    var pos := Truncate(|h|, props.pb);
    var isMatch := Then(t, Modelled(Flat(IsMatch(c.state, pos)), !p.Literal?));
    var isRep := Then(isMatch, Modelled(Flat(IsRep(c.state)), !p.Match?));
    match p
    case Literal(b) => LiteralIsTold(isMatch, props, c, h, b);
    case Match(dist, len) =>
      LengthIsTold(isRep, false, pos, len);
      LzmaUnique.WordSlots(dist);
      DistanceIsTold(LengthTold(isRep, false, pos, len), len, dist);
    case ShortRep =>
    case LongRep(i, len) => LengthIsTold(RepBits(isRep, c.state, pos, i), true, pos, len);
  }
}
