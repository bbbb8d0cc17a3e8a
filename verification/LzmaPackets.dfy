/**
 LZMA packets: what a decoded symbol means (`After`, `Expand`) and how an encoder spells
 it in bits (`PacketBits`). Nothing here decodes; the decoder is checked against it.
 */
module LzmaPackets {
  import opened BitArithmetic
  import opened RangeCoder
  import opened RangeDecoding
  import opened LzDictionary

  // The flat layout of the probability arrays of struct lzma_dec.
  const IS_MATCH := 0
  const IS_REP := 192
  const IS_REP0 := 204
  const IS_REP1 := 216
  const IS_REP2 := 228
  const IS_REP0_LONG := 240
  const DIST_SLOT := 432
  const DIST_SPECIAL := 688
  const DIST_ALIGN := 802
  const MATCH_LEN := 818
  const REP_LEN := 1332
  const LITERAL := 1846

  const LIT_STATES := 7

  datatype Packet =
    | Literal(b: byte)
    | Match(dist: nat, len: nat)
    | ShortRep
    | LongRep(index: nat, len: nat)

  /** The lc, lp and pb properties of a stream. */
  datatype Props = Props(lc: nat, lp: nat, pb: nat)

  predicate ValidProps(props: Props) {
    props.lc + props.lp <= 4 && props.pb <= 4
  }

  /** How properties are written. */
  function PropsByte(props: Props): byte
    requires ValidProps(props)
  {
    (props.pb * 5 + props.lp) * 9 + props.lc
  }

  lemma PropsByteInverts(p: Props, q: Props)
    requires ValidProps(p) && ValidProps(q) && PropsByte(p) == PropsByte(q)
    ensures p == q
  {
    assert p.pb * 5 + p.lp == q.pb * 5 + q.lp && p.lc == q.lc;
  }

  /** The byte is not the spelling of any valid properties. */
  ghost predicate NoProps(x: byte) {
    forall props :: ValidProps(props) ==> PropsByte(props) != x
  }

  lemma TooLarge(x: byte)
    requires x > (4 * 5 + 4) * 9 + 8
    ensures NoProps(x)
  {
  }

  /** A byte splits into three digits in one way, so if those are too large there are no others. */
  lemma BadDigits(x: byte, lc: nat, lp: nat, pb: nat)
    requires x == (pb * 5 + lp) * 9 + lc && lc < 9 && lp < 5 && lc + lp > 4
    ensures NoProps(x)
  {
    forall q: Props | ValidProps(q)
      ensures PropsByte(q) != x
    {
      OneSplit(pb * 5 + lp, lc, q.pb * 5 + q.lp, q.lc);
    }
  }

  lemma OneSplit(a: nat, c: nat, b: nat, d: nat)
    requires c < 9 && d < 9
    ensures a * 9 + c == b * 9 + d ==> a == b && c == d
  {
  }

  /** Which kinds of symbol came last (state) and the four latest distances, latest first. */
  datatype Coder = Coder(state: nat, reps: seq<nat>)

  predicate ValidCoder(c: Coder) {
    c.state < 12 && |c.reps| == 4
  }

  predicate ValidPacket(p: Packet) {
    match p
    case Literal(_) => true
    case Match(dist, len) => dist < WORD && 2 <= len <= 273
    case ShortRep => true
    case LongRep(index, len) => index < 4 && 2 <= len <= 273
  }

  // ----- meaning -----

  function StateLiteral(state: nat): nat {
    if state <= 3 then 0 else if state <= 9 then state - 3 else state - 6
  }

  function NextState(state: nat, p: Packet): nat {
    match p
    case Literal(_) => StateLiteral(state)
    case Match(_, _) => if state < LIT_STATES then 7 else 10
    case ShortRep => if state < LIT_STATES then 9 else 11
    case LongRep(_, _) => if state < LIT_STATES then 8 else 11
  }

  /** A match pushes its distance; a long repeat moves the distance it used to the front. */
  function NextReps(reps: seq<nat>, p: Packet): seq<nat>
    requires |reps| == 4 && ValidPacket(p)
  {
    match p
    case Literal(_) => reps
    case Match(dist, _) => [dist] + reps[..3]
    case ShortRep => reps
    case LongRep(i, _) => [reps[i]] + reps[..i] + reps[i + 1..]
  }

  function After(c: Coder, p: Packet): Coder
    requires ValidCoder(c) && ValidPacket(p)
  {
    Coder(NextState(c.state, p), NextReps(c.reps, p))
  }

  function PacketLength(p: Packet): nat {
    match p
    case Literal(_) => 1
    case Match(_, len) => len
    case ShortRep => 1
    case LongRep(_, len) => len
  }

  /** A packet that copies from before the beginning of the history is corrupt. */
  predicate Readable(c: Coder, h: seq<byte>, p: Packet)
    requires ValidCoder(c) && ValidPacket(p)
  {
    p.Literal? || After(c, p).reps[0] < |h|
  }

  /** The history after a packet. */
  function Expand(c: Coder, h: seq<byte>, p: Packet): seq<byte>
    requires ValidCoder(c) && ValidPacket(p) && Readable(c, h, p)
  {
    if p.Literal? then h + [p.b] else LzCopy(h, After(c, p).reps[0], PacketLength(p))
  }

  /** The lowest seven states are exactly those entered by a literal. */
  lemma LiteralStates(c: Coder, p: Packet)
    requires ValidCoder(c) && ValidPacket(p)
    ensures ValidCoder(After(c, p))
    ensures After(c, p).state < LIT_STATES <==> p.Literal?
  {
  }

  // ----- spelling -----

  function PosState(props: Props, h: seq<byte>): nat {
    BitAnd(|h|, Pow2(props.pb) - 1)
  }

  function LiteralIndex(before: byte, position: nat, lc: nat): nat
    requires lc <= 8
  {
    ShiftRight(before, 8 - lc) + ShiftLeft(position, lc)
  }

  /** The coder chosen for a literal: high bits of the byte before, low bits of the position. */
  function LiteralBase(props: Props, h: seq<byte>): nat
    requires ValidProps(props)
  {
    var before := if h == [] then 0 else h[|h| - 1];
    LITERAL + 0x300 * LiteralIndex(before, BitAnd(|h|, Pow2(props.lp) - 1), props.lc)
  }

  /** Bit `i` of a byte, counted from the top. */
  function TopBit(b: byte, i: nat): nat {
    ShiftLeft(b, i + 1) / 0x100 % 2
  }

  /** The tree node the top `i` bits of a byte lead to. */
  function NodeOf(b: byte, i: nat): nat {
    if i == 0 then 1 else 2 * NodeOf(b, i - 1) + TopBit(b, i - 1)
  }

  /** After a match, a literal's bits are predicted by the byte at the last distance while they agree. */
  function MatchedOffset(matchByte: byte, i: nat, node: nat): nat {
    if node == NodeOf(matchByte, i) then 0x100 + 0x100 * TopBit(matchByte, i) else 0
  }

  function MatchedPath(t: Bits, base: nat, matchByte: byte, k: nat, symbol: nat): Bits {
    if k == 0 then t
    else Then(MatchedPath(t, base, matchByte, k - 1, symbol / 2),
              Modelled(base + MatchedOffset(matchByte, k - 1, symbol / 2) + symbol / 2, symbol % 2 == 1))
  }

  function LiteralBits(t: Bits, props: Props, c: Coder, h: seq<byte>, b: byte): Bits
    requires ValidProps(props) && ValidCoder(c) && (c.state >= LIT_STATES ==> c.reps[0] < |h|)
  {
    if c.state < LIT_STATES then TreePath(t, LiteralBase(props, h), 0x100 + b)
    else MatchedPath(t, LiteralBase(props, h), h[|h| - 1 - c.reps[0]], 8, 0x100 + b)
  }

  /** Lengths 2-9, 10-17 and 18-273 behind one or two choice bits. */
  function LengthBits(t: Bits, base: nat, posState: nat, len: nat): Bits
    requires 2 <= len <= 273
  {
    if len < 10 then
      TreePath(Then(t, Modelled(base, false)), base + 2 + 8 * posState, 8 + len - 2)
    else if len < 18 then
      TreePath(Then(Then(t, Modelled(base, true)), Modelled(base + 1, false)), base + 130 + 8 * posState, 8 + len - 10)
    else
      TreePath(Then(Then(t, Modelled(base, true)), Modelled(base + 1, true)), base + 258, 256 + len - 18)
  }

  function LengthState(len: nat): nat
    requires len >= 2
  {
    if len < 6 then len - 2 else 3
  }

  /** The slot of a distance: twice the index of its top bit, plus the bit below it. */
  function DistSlot(dist: nat): nat {
    if dist < 4 then dist else 2 + DistSlot(dist / 2)
  }

  function FooterBits(slot: nat): nat {
    if slot < 4 then 0 else slot / 2 - 1
  }

  /** The lowest distance of a slot. */
  function SlotBase(slot: nat): nat {
    if slot < 4 then slot else ShiftLeft(2 + slot % 2, slot / 2 - 1)
  }

  /** The bits below a slot's two: modelled if few, else direct ones above four modelled. */
  function FooterPath(t: Bits, slot: nat, low: nat): Bits {
    var k := FooterBits(slot);
    if slot < 4 then t
    else if slot < 14 then
      SlotAtLeast(slot);
      ReversePath(t, DIST_SPECIAL + SlotBase(slot) - slot - 1, k, low)
    else ReversePath(DirectPath(t, k - 4, low / 16), DIST_ALIGN, 4, low % 16)
  }

  function DistanceBits(t: Bits, len: nat, dist: nat): Bits
    requires len >= 2
  {
    var slot := DistSlot(dist);
    SlotBounds(dist);
    FooterPath(TreePath(t, DIST_SLOT + 64 * LengthState(len), 64 + slot), slot, dist - SlotBase(slot))
  }

  function RepBits(t: Bits, state: nat, posState: nat, index: nat): Bits
    requires index < 4
  {
    if index == 0 then
      Then(Then(t, Modelled(IS_REP0 + state, false)), Modelled(IS_REP0_LONG + 16 * state + posState, true))
    else
      var t' := Then(t, Modelled(IS_REP0 + state, true));
      if index == 1 then Then(t', Modelled(IS_REP1 + state, false))
      else Then(Then(t', Modelled(IS_REP1 + state, true)), Modelled(IS_REP2 + state, index == 3))
  }

  /** A match or repeat, after the bit that says it is not a literal. */
  function CopyBits(t: Bits, state: nat, posState: nat, p: Packet): Bits
    requires ValidPacket(p) && !p.Literal?
  {
    var isRep := Then(t, Modelled(IS_REP + state, !p.Match?));
    match p
    case Match(dist, len) => DistanceBits(LengthBits(isRep, MATCH_LEN, posState, len), len, dist)
    case ShortRep =>
      Then(Then(isRep, Modelled(IS_REP0 + state, false)), Modelled(IS_REP0_LONG + 16 * state + posState, false))
    case LongRep(i, len) => LengthBits(RepBits(isRep, state, posState, i), REP_LEN, posState, len)
  }

  /** The bits of a packet, in the context of the packets before it. */
  function PacketBits(t: Bits, props: Props, c: Coder, h: seq<byte>, p: Packet): Bits
    requires ValidProps(props) && ValidCoder(c) && ValidPacket(p)
    requires c.state >= LIT_STATES ==> c.reps[0] < |h|
  {
    var ps := PosState(props, h);
    var isMatch := Then(t, Modelled(IS_MATCH + 16 * c.state + ps, !p.Literal?));
    if p.Literal? then LiteralBits(isMatch, props, c, h, p.b) else CopyBits(isMatch, c.state, ps, p)
  }

  // ----- sequences of packets -----

  /** Packets in order, latest last. */
  datatype Packets = NoPackets | Add(prev: Packets, last: Packet)

  datatype Session = Session(coder: Coder, history: seq<byte>)

  /** A state after a match or repeat has a byte at its last distance. */
  predicate Grounded(s: Session) {
    ValidCoder(s.coder) && (s.coder.state >= LIT_STATES ==> s.coder.reps[0] < |s.history|)
  }

  predicate Legal(s: Session, ps: Packets)
    decreases ps, 0
  {
    match ps
    case NoPackets => Grounded(s)
    case Add(prev, p) =>
      && Legal(s, prev) && ValidPacket(p) && Grounded(Play(s, prev))
      && Readable(Play(s, prev).coder, Play(s, prev).history, p)
  }

  /** The LZ77 meaning of a packet sequence. */
  function Play(s: Session, ps: Packets): Session
    requires Legal(s, ps)
    decreases ps, 1
  {
    match ps
    case NoPackets => s
    case Add(prev, p) =>
      var t := Play(s, prev);
      Session(After(t.coder, p), Expand(t.coder, t.history, p))
  }

  /** The bits of a packet sequence. */
  function SessionBits(t: Bits, props: Props, s: Session, ps: Packets): Bits
    requires ValidProps(props) && Legal(s, ps)
  {
    match ps
    case NoPackets => t
    case Add(prev, p) =>
      PacketBits(SessionBits(t, props, s, prev), props, Play(s, prev).coder, Play(s, prev).history, p)
  }

  function Join(ps: Packets, qs: Packets): Packets {
    match qs
    case NoPackets => ps
    case Add(prev, q) => Add(Join(ps, prev), q)
  }

  /** Decoding packets in two runs is decoding them in one. */
  lemma {:induction false} JoinRuns(t: Bits, props: Props, s: Session, ps: Packets, qs: Packets)
    requires ValidProps(props) && Legal(s, ps) && Legal(Play(s, ps), qs)
    ensures Legal(s, Join(ps, qs)) && Play(s, Join(ps, qs)) == Play(Play(s, ps), qs)
    ensures SessionBits(t, props, s, Join(ps, qs)) == SessionBits(SessionBits(t, props, s, ps), props, Play(s, ps), qs)
  {
    if qs.Add? {
      JoinRuns(t, props, s, ps, qs.prev);
    }
  }

  lemma Extend(t: Bits, props: Props, s: Session, ps: Packets, p: Packet)
    requires ValidProps(props) && Legal(s, ps) && ValidPacket(p) && Grounded(Play(s, ps))
    requires Readable(Play(s, ps).coder, Play(s, ps).history, p)
    ensures Legal(s, Add(ps, p))
    ensures Play(s, Add(ps, p))
            == Session(After(Play(s, ps).coder, p), Expand(Play(s, ps).coder, Play(s, ps).history, p))
    ensures SessionBits(t, props, s, Add(ps, p))
            == PacketBits(SessionBits(t, props, s, ps), props, Play(s, ps).coder, Play(s, ps).history, p)
  {
  }

  lemma NoneYet(t: Bits, props: Props, s: Session)
    requires ValidProps(props) && Grounded(s)
    ensures Legal(s, NoPackets) && Play(s, NoPackets) == s && SessionBits(t, props, s, NoPackets) == t
  {
  }

  /** The packet copies from within the last `size` bytes of the history. */
  predicate InWindow(s: Session, p: Packet, size: nat)
    requires ValidCoder(s.coder) && ValidPacket(p)
  {
    p.Literal? || (After(s.coder, p).reps[0] < |s.history| && After(s.coder, p).reps[0] < size)
  }

  /** Every copy stays within the last `size` bytes. */
  predicate Windowed(s: Session, ps: Packets, size: nat)
    requires Legal(s, ps)
  {
    ps.Add? ==> Windowed(s, ps.prev, size) && InWindow(Play(s, ps.prev), ps.last, size)
  }

  lemma ExtendWindowed(s: Session, ps: Packets, p: Packet, size: nat)
    requires Legal(s, ps) && Legal(s, Add(ps, p)) && Windowed(s, ps, size) && InWindow(Play(s, ps), p, size)
    ensures Windowed(s, Add(ps, p), size)
  {
  }

  lemma {:induction false} JoinWindowed(s: Session, ps: Packets, qs: Packets, props: Props, size: nat)
    requires ValidProps(props) && Legal(s, ps) && Legal(Play(s, ps), qs) && Windowed(s, ps, size)
    requires Windowed(Play(s, ps), qs, size)
    ensures Legal(s, Join(ps, qs)) && Windowed(s, Join(ps, qs), size)
    decreases qs
  {
    if qs.Add? {
      JoinWindowed(s, ps, qs.prev, props, size);
      JoinRuns(Start, props, s, ps, qs.prev);
      JoinRuns(Start, props, s, ps, qs);
    }
  }

  /** `trace` spells legal packets, and after them one that copies from outside the window. */
  predicate Strays(t: Bits, props: Props, s: Session, ps: Packets, size: nat, trace: Bits)
    requires ValidProps(props)
  {
    && ps.Add? && Legal(s, ps.prev) && Grounded(Play(s, ps.prev)) && ValidPacket(ps.last)
    && !InWindow(Play(s, ps.prev), ps.last, size)
    && trace == PacketBits(SessionBits(t, props, s, ps.prev), props, Play(s, ps.prev).coder,
                           Play(s, ps.prev).history, ps.last)
  }

  lemma JoinStrays(t: Bits, props: Props, s: Session, ps: Packets, qs: Packets, size: nat, trace: Bits)
    requires ValidProps(props) && Legal(s, ps)
    requires Strays(SessionBits(t, props, s, ps), props, Play(s, ps), qs, size, trace)
    ensures Strays(t, props, s, Join(ps, qs), size, trace) && Play(s, Join(ps, qs).prev) == Play(Play(s, ps), qs.prev)
  {
    JoinRuns(t, props, s, ps, qs.prev);
  }

  lemma {:induction false} SlotBounds(dist: nat)
    ensures SlotBase(DistSlot(dist)) <= dist < SlotBase(DistSlot(dist)) + Pow2(FooterBits(DistSlot(dist)))
    decreases dist
  {
    if dist >= 4 {
      SlotBounds(dist / 2);
      SlotUp(DistSlot(dist / 2));
      assert DistSlot(dist / 2) >= 2;
    }
  }

  lemma SlotUp(slot: nat)
    requires slot >= 2
    ensures SlotBase(slot + 2) == 2 * SlotBase(slot)
    ensures Pow2(FooterBits(slot + 2)) == 2 * Pow2(FooterBits(slot))
  {
    if slot < 4 {
      assert ShiftLeft(2 + slot % 2, 1) == 2 * ShiftLeft(2 + slot % 2, 0);
      assert Pow2(1) == 2 * Pow2(0);
    } else {
      assert (slot + 2) / 2 == slot / 2 + 1 && (slot + 2) % 2 == slot % 2;
    }
  }

  /** Every distance of a slot has that slot. */
  lemma {:induction false} SlotOf(slot: nat, low: nat)
    requires low < Pow2(FooterBits(slot))
    ensures DistSlot(SlotBase(slot) + low) == slot
    decreases slot
  {
    if slot >= 4 {
      SlotUp(slot - 2);
      SlotOf(slot - 2, low / 2);
      assert (SlotBase(slot) + low) / 2 == SlotBase(slot - 2) + low / 2;
      SlotAtLeast(slot);
    }
  }

  lemma {:induction false} SlotAtLeast(slot: nat)
    requires slot >= 4
    ensures SlotBase(slot) >= 4
    decreases slot
  {
    if slot >= 6 {
      SlotUp(slot - 2);
      SlotAtLeast(slot - 2);
    } else {
      assert ShiftLeft(2 + slot % 2, 1) == 2 * ShiftLeft(2 + slot % 2, 0);
    }
  }
}
