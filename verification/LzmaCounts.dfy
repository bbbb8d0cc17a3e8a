/** How many bits a packet is spelled with, and which packets have the most. */
module LzmaCounts {
  import opened BitArithmetic
  import opened RangeCoder
  import opened RangeDecoding
  import opened LzmaPackets
  import opened LzmaDecoding
  import LzmaUnique

  // ----- formulas -----

  function LengthModelled(len: nat): nat {
    if len < 10 then 4 else if len < 18 then 5 else 10
  }

  /** The modelled bits of a distance below its slot. */
  function FooterModelled(slot: nat): nat {
    if slot < 4 then 0 else if slot < 14 then slot / 2 - 1 else 4
  }

  function PacketModelled(p: Packet): nat {
    match p
    case Literal(_) => 9
    case Match(dist, len) => 8 + LengthModelled(len) + FooterModelled(DistSlot(dist))
    case ShortRep => 4
    case LongRep(index, len) => (if index < 2 then 4 else 5) + LengthModelled(len)
  }

  function PacketDirect(p: Packet): nat {
    if p.Match? && DistSlot(p.dist) >= 14 then DistSlot(p.dist) / 2 - 5 else 0
  }

  /** `t` is longer than `s` by `m` modelled and `d` direct bits. */
  ghost predicate Longer(s: Bits, t: Bits, m: nat, d: nat) {
    ModelledCount(t) == ModelledCount(s) + m && DirectCount(t) == DirectCount(s) + d
  }

  // ----- the parts of a spelling -----

  lemma {:induction false} TreeCount(t: Bits, base: nat, symbol: nat, k: nat)
    requires Pow2(k) <= symbol < 2 * Pow2(k)
    ensures Longer(t, TreePath(t, base, symbol), k, 0)
    decreases k
  {
    if k > 0 {
      TreeCount(t, base, symbol / 2, k - 1);
    }
  }

  lemma {:induction false} MatchedCount(t: Bits, base: nat, matchByte: byte, k: nat, symbol: nat)
    ensures Longer(t, MatchedPath(t, base, matchByte, k, symbol), k, 0)
    decreases k
  {
    hide MatchedOffset;
    if k > 0 {
      MatchedCount(t, base, matchByte, k - 1, symbol / 2);
    }
  }

  lemma {:induction false} ReverseCount(t: Bits, base: nat, k: nat, v: nat)
    ensures Longer(t, ReversePath(t, base, k, v), k, 0)
    decreases k
  {
    hide ReverseNode;
    if k > 0 {
      ReverseCount(t, base, k - 1, v % Pow2(k - 1));
    }
  }

  lemma {:induction false} DirectPathCount(t: Bits, k: nat, v: nat)
    ensures Longer(t, DirectPath(t, k, v), 0, k)
    decreases k
  {
    if k > 0 {
      DirectPathCount(t, k - 1, v / 2);
    }
  }

  lemma OneMore(t: Bits, ctx: nat, bit: bool)
    ensures Longer(t, Then(t, Modelled(ctx, bit)), 1, 0)
  {
  }

  lemma LengthCount(t: Bits, base: nat, posState: nat, len: nat)
    requires 2 <= len <= 273
    ensures Longer(t, LengthBits(t, base, posState, len), LengthModelled(len), 0)
  {
    hide TreePath, Pow2, ModelledCount, DirectCount;
    SmallPowers();
    OneMore(t, base, len >= 10);
    OneMore(Then(t, Modelled(base, true)), base + 1, len >= 18);
    if len < 10 {
      TreeCount(Then(t, Modelled(base, false)), base + 2 + 8 * posState, 8 + len - 2, 3);
    } else if len < 18 {
      TreeCount(Then(Then(t, Modelled(base, true)), Modelled(base + 1, false)), base + 130 + 8 * posState, 8 + len - 10,
          3);
    } else {
      TreeCount(Then(Then(t, Modelled(base, true)), Modelled(base + 1, true)), base + 258, 256 + len - 18, 8);
    }
  }

  lemma FooterCount(t: Bits, slot: nat, low: nat)
    ensures Longer(t, FooterPath(t, slot, low), FooterModelled(slot), if slot >= 14 then slot / 2 - 5 else 0)
  {
    hide ReversePath, DirectPath, SlotBase;
    var k := FooterBits(slot);
    if 4 <= slot < 14 {
      SlotAtLeast(slot);
      ReverseCount(t, DIST_SPECIAL + SlotBase(slot) - slot - 1, k, low);
    } else if slot >= 14 {
      DirectPathCount(t, k - 4, low / 16);
      ReverseCount(DirectPath(t, k - 4, low / 16), DIST_ALIGN, 4, low % 16);
    }
  }

  lemma DistanceCount(t: Bits, len: nat, dist: nat)
    requires len >= 2 && dist < WORD
    ensures var slot := DistSlot(dist);
            Longer(t, DistanceBits(t, len, dist), 6 + FooterModelled(slot), if slot >= 14 then slot / 2 - 5 else 0)
  {
    hide TreePath, FooterPath, DistSlot, SlotBase, Pow2, ModelledCount, DirectCount;
    SmallPowers();
    SlotBounds(dist);
    LzmaUnique.WordSlots(dist);
    var slot, base := DistSlot(dist), DIST_SLOT + 64 * LengthState(len);
    TreeCount(t, base, 64 + slot, 6);
    FooterCount(TreePath(t, base, 64 + slot), slot, dist - SlotBase(slot));
  }

  /** Every packet is spelled with as many bits as the formulas say, wherever it stands. */
  lemma PacketCount(t: Bits, props: Props, c: Coder, h: seq<byte>, p: Packet)
    requires ValidProps(props) && ValidCoder(c) && ValidPacket(p) && (c.state >= LIT_STATES ==> c.reps[0] < |h|)
    ensures Longer(t, PacketBits(t, props, c, h, p), PacketModelled(p), PacketDirect(p))
  {
    hide TreePath, MatchedPath, LengthBits, DistanceBits, LiteralBase, PosState, DistSlot, Pow2, RepBits, ModelledCount,
      DirectCount;
    SmallPowers();
    var posState := PosState(props, h);
    var isMatch := Then(t, Modelled(IS_MATCH + 16 * c.state + posState, !p.Literal?));
    var isRep := Then(isMatch, Modelled(IS_REP + c.state, !p.Match?));
    OneMore(t, IS_MATCH + 16 * c.state + posState, !p.Literal?);
    OneMore(isMatch, IS_REP + c.state, !p.Match?);
    match p
    case Literal(b) =>
      if c.state < LIT_STATES {
        TreeCount(isMatch, LiteralBase(props, h), 0x100 + b, 8);
      } else {
        MatchedCount(isMatch, LiteralBase(props, h), h[|h| - 1 - c.reps[0]], 8, 0x100 + b);
      }
    case Match(dist, len) =>
      LengthCount(isRep, MATCH_LEN, posState, len);
      DistanceCount(LengthBits(isRep, MATCH_LEN, posState, len), len, dist);
    case ShortRep =>
      OneMore(isRep, IS_REP0 + c.state, false);
      OneMore(Then(isRep, Modelled(IS_REP0 + c.state, false)), IS_REP0_LONG + 16 * c.state + posState, false);
    case LongRep(index, len) =>
      RepCount(isRep, c.state, posState, index);
      LengthCount(RepBits(isRep, c.state, posState, index), REP_LEN, posState, len);
  }

  lemma RepCount(t: Bits, state: nat, posState: nat, index: nat)
    requires index < 4
    ensures Longer(t, RepBits(t, state, posState, index), if index < 2 then 2 else 3, 0)
  {
    var t' := Then(t, Modelled(IS_REP0 + state, true));
    assert Longer(t, t', 1, 0);
    assert Longer(t', Then(t', Modelled(IS_REP1 + state, true)), 1, 0);
  }

  // ----- the dearest packets -----

  /** The slots of the distances from 64 to 127. */
  lemma TwelfthSlots(dist: nat)
    ensures DistSlot(dist) == 12 || DistSlot(dist) == 13 <==> 64 <= dist < 128
  {
    hide DistSlot;
    if 64 <= dist < 128 {
      SmallPowers();
      TopBitSlot(dist, 6);
    } else {
      SmallPowers();
      SlotBounds(dist);
      ModelledFits(12);
      ModelledFits(13);
      assert ShiftLeft(2, 5) == 4 * ShiftLeft(2, 3) == 16 * ShiftLeft(2, 1) == 64;
      assert ShiftLeft(3, 5) == 4 * ShiftLeft(3, 3) == 16 * ShiftLeft(3, 1) == 96;
    }
  }

  lemma {:induction false} TopBitSlot(dist: nat, k: nat)
    requires k >= 1 && Pow2(k) <= dist < 2 * Pow2(k)
    ensures DistSlot(dist) / 2 == k
    decreases k
  {
    if k > 1 {
      Pow2Monotone(1, k - 1);
      TopBitSlot(dist / 2, k - 1);
    }
  }

  /**
   More than 22 modelled bits, which the comment on the input bound takes for the most there are, have
   exactly the long matches at a distance from 64 to 127: they have 23, and no direct one.
   */
  lemma MoreThanTwentyTwo(p: Packet)
    requires ValidPacket(p)
    ensures PacketModelled(p) > 22 <==> p.Match? && p.len >= 18 && 64 <= p.dist < 128
    ensures PacketModelled(p) > 22 ==> PacketModelled(p) == 23 && PacketDirect(p) == 0
  {
    hide DistSlot;
    if p.Match? {
      TwelfthSlots(p.dist);
      assert FooterModelled(DistSlot(p.dist)) == 5 <==> DistSlot(p.dist) == 12 || DistSlot(p.dist) == 13;
    }
  }

  /** One of them, spelled out at the start of a stream. */
  lemma TwentyThreeBits()
    ensures ModelledCount(PacketBits(Start, Props(0, 0, 0), Coder(0, [0, 0, 0, 0]), [], Match(64, 18))) == 23
  {
    hide PacketBits, DistSlot;
    PacketCount(Start, Props(0, 0, 0), Coder(0, [0, 0, 0, 0]), [], Match(64, 18));
    MoreThanTwentyTwo(Match(64, 18));
  }

  /** The bits of every packet are within what a symbol's budget of input allows. */
  lemma EveryPacketAffordable(p: Packet)
    requires ValidPacket(p)
    ensures Affordable(PacketModelled(p), PacketDirect(p))
  {
    hide DistSlot;
    MoreThanTwentyTwo(p);
    if p.Match? {
      LzmaUnique.WordSlots(p.dist);
    }
  }
}
