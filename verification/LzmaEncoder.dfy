/**
 Every legal sequence of packets has an encoding: its contexts exist, and the encoder's low end can
 be written out.
 */
module LzmaEncoder {
  import opened BitArithmetic
  import opened RangeCoder
  import opened RangeDecoding
  import opened LzmaPackets
  import opened LzmaDecoding
  import opened LzmaUnique
  import opened LzmaComplete

  /** All contexts are among the probabilities. */
  ghost predicate Bounded(t: Bits) {
    t.Then? ==> Bounded(t.prev) && (t.last.Modelled? ==> t.last.ctx < PROBS_TOTAL)
  }

  lemma {:induction false} TreeBounded(t: Bits, base: nat, symbol: nat, k: nat)
    requires Bounded(t) && symbol < 2 * Pow2(k) && base + Pow2(k) <= PROBS_TOTAL
    ensures Bounded(TreePath(t, base, symbol))
    decreases k
  {
    if symbol > 1 {
      Pow2Monotone(k - 1, k);
      TreeBounded(t, base, symbol / 2, k - 1);
    }
  }

  lemma {:induction false} MatchedBounded(t: Bits, base: nat, matchByte: byte, k: nat, symbol: nat)
    requires Bounded(t) && symbol < 0x200 && base + 0x300 <= PROBS_TOTAL
    ensures Bounded(MatchedPath(t, base, matchByte, k, symbol))
    decreases k
  {
    hide NodeOf, TopBit;
    if k > 0 {
      BitOfByte(matchByte, k - 1);
      MatchedBounded(t, base, matchByte, k - 1, symbol / 2);
    }
  }

  lemma BitOfByte(b: byte, i: nat)
    ensures TopBit(b, i) <= 1
  {
  }

  lemma {:induction false} DirectBounded(t: Bits, k: nat, v: nat)
    requires Bounded(t)
    ensures Bounded(DirectPath(t, k, v))
    decreases k
  {
    if k > 0 {
      DirectBounded(t, k - 1, v / 2);
    }
  }

  lemma {:induction false} ReverseBounded(t: Bits, base: nat, k: nat, v: nat)
    requires Bounded(t) && base + Pow2(k) <= PROBS_TOTAL
    ensures Bounded(ReversePath(t, base, k, v))
    decreases k
  {
    if k > 0 {
      Pow2Monotone(k - 1, k);
      ReverseNodeRange(k - 1, v % Pow2(k - 1));
      ReverseBounded(t, base, k - 1, v % Pow2(k - 1));
    }
  }

  lemma LiteralBounded(t: Bits, props: Props, c: Coder, h: seq<byte>, b: byte)
    requires Bounded(t) && ValidProps(props) && ValidCoder(c) && (c.state >= LIT_STATES ==> c.reps[0] < |h|)
    ensures Bounded(LiteralBits(t, props, c, h, b))
  {
    hide Pow2, TreePath, MatchedPath, LiteralIndex;
    SmallPowers();
    var before := if h == [] then 0 else h[|h| - 1];
    var position := BitAnd(|h|, Pow2(props.lp) - 1);
    LowBits(|h|, props.lp);
    LiteralCoders(before, position, props.lc, props.lp);
    if c.state < LIT_STATES {
      TreeBounded(t, LiteralBase(props, h), 0x100 + b, 8);
    } else {
      MatchedBounded(t, LiteralBase(props, h), h[|h| - 1 - c.reps[0]], 8, 0x100 + b);
    }
  }

  lemma {:induction false} LowBits(v: nat, k: nat)
    ensures BitAnd(v, Pow2(k) - 1) < Pow2(k)
  {
    if k > 0 {
      LowBits(v / 2, k - 1);
    }
  }

  lemma LengthBounded(t: Bits, base: nat, posState: nat, len: nat)
    requires Bounded(t) && (base == MATCH_LEN || base == REP_LEN) && posState < 16 && 2 <= len <= 273
    ensures Bounded(LengthBits(t, base, posState, len))
  {
    hide Pow2, TreePath;
    SmallPowers();
    if len < 10 {
      TreeBounded(Then(t, Modelled(base, false)), base + 2 + 8 * posState, 8 + len - 2, 3);
    } else if len < 18 {
      TreeBounded(Then(Then(t, Modelled(base, true)), Modelled(base + 1, false)), base + 130 + 8 * posState,
          8 + len - 10, 3);
    } else {
      TreeBounded(Then(Then(t, Modelled(base, true)), Modelled(base + 1, true)), base + 258, 256 + len - 18, 8);
    }
  }

  lemma FooterBounded(t: Bits, slot: nat, low: nat)
    requires Bounded(t) && slot < 64
    ensures Bounded(FooterPath(t, slot, low))
  {
    hide Pow2, ReversePath, DirectPath, SlotBase;
    SmallPowers();
    if 4 <= slot < 14 {
      SlotAtLeast(slot);
      ModelledFits(slot);
      ReverseBounded(t, DIST_SPECIAL + SlotBase(slot) - slot - 1, FooterBits(slot), low);
    } else if slot >= 14 {
      DirectBounded(t, FooterBits(slot) - 4, low / 16);
      ReverseBounded(DirectPath(t, FooterBits(slot) - 4, low / 16), DIST_ALIGN, 4, low % 16);
    }
  }

  lemma DistanceBounded(t: Bits, len: nat, dist: nat)
    requires Bounded(t) && len >= 2 && dist < WORD
    ensures Bounded(DistanceBits(t, len, dist))
  {
    hide Pow2, TreePath, FooterPath, DistSlot, SlotBase;
    SmallPowers();
    SlotBounds(dist);
    WordSlots(dist);
    var slot, base := DistSlot(dist), DIST_SLOT + 64 * LengthState(len);
    TreeBounded(t, base, 64 + slot, 6);
    FooterBounded(TreePath(t, base, 64 + slot), slot, dist - SlotBase(slot));
  }

  lemma CopyBounded(t: Bits, state: nat, posState: nat, p: Packet)
    requires Bounded(t) && state < 12 && posState < 16 && ValidPacket(p) && !p.Literal?
    ensures Bounded(CopyBits(t, state, posState, p))
  {
    hide LengthBits, DistanceBits;
    var isRep := Then(t, Modelled(IS_REP + state, !p.Match?));
    match p
    case Match(dist, len) =>
      LengthBounded(isRep, MATCH_LEN, posState, len);
      DistanceBounded(LengthBits(isRep, MATCH_LEN, posState, len), len, dist);
    case ShortRep =>
      assert Bounded(Then(isRep, Modelled(IS_REP0 + state, false)));
    case LongRep(i, len) =>
      RepBounded(isRep, state, posState, i);
      LengthBounded(RepBits(isRep, state, posState, i), REP_LEN, posState, len);
  }

  lemma RepBounded(t: Bits, state: nat, posState: nat, index: nat)
    requires Bounded(t) && state < 12 && posState < 16 && index < 4
    ensures Bounded(RepBits(t, state, posState, index))
  {
    assert Bounded(Then(t, Modelled(IS_REP0 + state, true)));
    assert Bounded(Then(Then(t, Modelled(IS_REP0 + state, true)), Modelled(IS_REP1 + state, true)));
  }

  lemma {:induction false} SessionBounded(t: Bits, props: Props, s: Session, ps: Packets)
    requires Bounded(t) && ValidProps(props) && Legal(s, ps)
    ensures Bounded(SessionBits(t, props, s, ps))
    decreases ps
  {
    hide LiteralBits, CopyBits, PosState, Expand, After;
    if ps.Add? {
      SessionBounded(t, props, s, ps.prev);
      var u := Play(s, ps.prev);
      PosStateSmall(props, u.history);
      var isMatch := Then(SessionBits(t, props, s, ps.prev),
                          Modelled(IS_MATCH + 16 * u.coder.state + PosState(props, u.history), !ps.last.Literal?));
      if ps.last.Literal? {
        LiteralBounded(isMatch, props, u.coder, u.history, ps.last.b);
      } else {
        CopyBounded(isMatch, u.coder.state, PosState(props, u.history), ps.last);
      }
    }
  }

  lemma PosStateSmall(props: Props, h: seq<byte>)
    requires ValidProps(props)
    ensures PosState(props, h) < 16
  {
    LowBits(|h|, props.pb);
    SmallPowers();
    Pow2Monotone(props.pb, 4);
  }

  // ----- writing the encoding out -----

  function Pow256(n: nat): (p: nat)
    ensures p > 0
  {
    if n == 0 then 1 else 256 * Pow256(n - 1)
  }

  /** An encoder's interval lies inside the one it started from. */
  ghost predicate Inside(e: Interval) {
    e.low + e.range <= Pow256(e.shifts) * (WORD - 1)
  }

  lemma WidenInside(e: Interval)
    requires Inside(e)
    ensures Inside(Widen(e))
  {
    if e.range < TOP {
      assert Pow256(e.shifts + 1) * (WORD - 1) == 256 * (Pow256(e.shifts) * (WORD - 1));
    }
  }

  lemma {:induction false} EncodeInside(probs: seq<nat>, bits: Bits)
    requires |probs| == PROBS_TOTAL && WellModelled(probs) && Bounded(bits)
    ensures var e := Encode(Interval(0, WORD - 1, 0, probs), bits);
            e.Some? && Inside(e.value) && |e.value.probs| == PROBS_TOTAL && WellModelled(e.value.probs)
            && e.value.range * 67 >= TOP && e.value.range < WORD
    decreases bits
  {
    var start := Interval(0, WORD - 1, 0, probs);
    if bits.Then? {
      EncodeInside(probs, bits.prev);
      var f := Encode(start, bits.prev).value;
      WidenInside(f);
      ChooseShrinks(Widen(f), bits.last);
      EncodeValid(start, bits);
    } else {
      assert Pow256(0) * (WORD - 1) == WORD - 1;
    }
  }

  lemma {:induction false} SamePrefix(rc: Rc, input: seq<byte>, more: seq<byte>, n: nat)
    requires rc.pos + n <= |input|
    ensures StreamValue(rc, input + more, n) == StreamValue(rc, input, n)
    decreases n
  {
    if n > 0 {
      SamePrefix(rc, input, more, n - 1);
    }
  }

  /** A number as a leading word and n bytes. */
  lemma {:induction false} WriteOut(v: nat, n: nat, range: nat, probs: seq<nat>) returns (code: nat, payload: seq<byte>)
    requires v < Pow256(n) * range
    ensures code < range && |payload| == n && StreamValue(Rc(range, code, 0, probs), payload, n) == v
    decreases n
  {
    if n == 0 {
      code, payload := v, [];
    } else {
      assert Pow256(n) * range == 256 * (Pow256(n - 1) * range);
      var front;
      code, front := WriteOut(v / 256, n - 1, range, probs);
      payload := front + [v % 256];
      SamePrefix(Rc(range, code, 0, probs), front, [v % 256], n - 1);
    }
  }

  /** Every legal sequence of packets is encoded by some first word and payload. */
  lemma EverythingEncodes(probs: seq<nat>, props: Props, s: Session, ps: Packets) returns (origin: Rc,
      payload: seq<byte>)
    requires |probs| == PROBS_TOTAL && WellModelled(probs) && ValidProps(props) && Legal(s, ps)
    ensures ValidRc(origin) && origin.range == WORD - 1 && origin.probs == probs
    ensures Encodes(origin, payload, props, s, ps)
  {
    hide SessionBits, Encode, Legal, Play, Pow256;
    var bits := SessionBits(Start, props, s, ps);
    assert Bounded(Start);
    SessionBounded(Start, props, s, ps);
    EncodeInside(probs, bits);
    var e := Encode(Interval(0, WORD - 1, 0, probs), bits).value;
    WidenInside(e);
    var code;
    code, payload := WriteOut(Widen(e).low, Widen(e).shifts, WORD - 1, probs);
    origin := Rc(WORD - 1, code, 0, probs);
  }
}
