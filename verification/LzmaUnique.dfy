/**
 LZMA's spelling is unambiguous: different packets fork at a bit that the same context decides,
 so one stream of bytes decodes to one sequence of packets. Decoding therefore inverts encoding.
 */
module LzmaUnique {
  import opened BitArithmetic
  import opened Options
  import opened RangeCoder
  import opened RangeDecoding
  import opened LzDictionary
  import opened LzmaPackets

  // ----- forks -----

  /** Two values of the same bit. */
  predicate Rival(d: Decision, e: Decision) {
    d.bit != e.bit && match d { case Direct(_) => e.Direct? case Modelled(ctx, _) => e.Modelled? && e.ctx == ctx }
  }

  /** Two spellings agree up to some bit, and there one has a zero where the other has a one. */
  ghost predicate Forked(a: Bits, b: Bits)
    decreases a, b
  {
    || (a.Then? && b.Then? && a.prev == b.prev && Rival(a.last, b.last))
    || (a.Then? && Forked(a.prev, b))
    || (b.Then? && Forked(a, b.prev))
  }

  /** A stream decodes to at most one side of a fork. */
  lemma {:induction false} ForkDecides(origin: Rc, input: seq<byte>, a: Bits, b: Bits)
    requires Forked(a, b)
    ensures Replay(origin, input, a) == None || Replay(origin, input, b) == None
    decreases a, b
  {
    hide Narrow, Normalize;
    if a.Then? && b.Then? && a.prev == b.prev && Rival(a.last, b.last) {
    } else if a.Then? && Forked(a.prev, b) {
      ForkDecides(origin, input, a.prev, b);
    } else {
      ForkDecides(origin, input, a, b.prev);
    }
  }

  lemma {:induction false} ForkStays(a: Bits, b: Bits, longerA: Bits, longerB: Bits)
    requires Forked(a, b) && Extends(a, longerA) && Extends(b, longerB)
    ensures Forked(longerA, longerB)
    decreases longerA, longerB
  {
    if a != longerA {
      ForkStays(a, b, longerA.prev, longerB);
    } else if b != longerB {
      ForkStays(a, b, longerA, longerB.prev);
    }
  }

  lemma {:induction false} ExtendsAgain(a: Bits, b: Bits, c: Bits)
    requires Extends(a, b) && Extends(b, c)
    ensures Extends(a, c)
    decreases c
  {
    if b != c {
      ExtendsAgain(a, b, c.prev);
    }
  }

  // ----- bit trees -----

  function Halved(v: nat, k: nat): nat
    decreases k
  {
    if k == 0 then v else Halved(v / 2, k - 1)
  }

  lemma {:induction false} HalvedOnce(v: nat, k: nat)
    requires Pow2(k) <= v < 2 * Pow2(k)
    ensures Halved(v, k) == 1
    decreases k
  {
    if k > 0 {
      HalvedOnce(v / 2, k - 1);
    }
  }

  lemma {:induction false} HalvedAway(v: nat, k: nat)
    requires v < Pow2(k)
    ensures Halved(v, k) == 0
    decreases k
  {
    if k > 0 {
      HalvedAway(v / 2, k - 1);
    }
  }

  lemma {:induction false} HalvedRoot(v: nat, k: nat)
    requires Halved(v, k) == 1 && k > 0
    ensures v > 1
    decreases k
  {
    if k > 1 {
      HalvedRoot(v / 2, k - 1);
    }
  }

  lemma {:induction false} TreeExtends(t: Bits, base: nat, symbol: nat)
    ensures Extends(t, TreePath(t, base, symbol))
    decreases symbol
  {
    if symbol > 1 {
      TreeExtends(t, base, symbol / 2);
    }
  }

  lemma {:induction false} TreeForks(t: Bits, base: nat, a: nat, b: nat, k: nat)
    requires a != b && Halved(a, k) == Halved(b, k) == 1
    ensures Forked(TreePath(t, base, a), TreePath(t, base, b))
    decreases k
  {
    if k > 0 {
      HalvedRoot(a, k);
      HalvedRoot(b, k);
      if a / 2 != b / 2 {
        TreeForks(t, base, a / 2, b / 2, k - 1);
        var pa, pb := TreePath(t, base, a), TreePath(t, base, b);
        assert pa.prev == TreePath(t, base, a / 2) && pb.prev == TreePath(t, base, b / 2);
        OneMore(pa, pb);
      }
    }
  }

  lemma OneMore(a: Bits, b: Bits)
    requires a.Then? && b.Then? && Forked(a.prev, b.prev)
    ensures Forked(a, b)
  {
    ForkStays(a.prev, b.prev, a, b);
  }

  lemma {:induction false} MatchedForks(t: Bits, base: nat, matchByte: byte, k: nat, a: nat, b: nat)
    requires a != b && Halved(a, k) == Halved(b, k)
    ensures Forked(MatchedPath(t, base, matchByte, k, a), MatchedPath(t, base, matchByte, k, b))
    decreases k
  {
    hide MatchedOffset;
    if a / 2 != b / 2 {
      MatchedForks(t, base, matchByte, k - 1, a / 2, b / 2);
      OneMore(MatchedPath(t, base, matchByte, k, a), MatchedPath(t, base, matchByte, k, b));
    }
  }

  lemma {:induction false} DirectExtends(t: Bits, k: nat, v: nat)
    ensures Extends(t, DirectPath(t, k, v))
    decreases k
  {
    if k > 0 {
      DirectExtends(t, k - 1, v / 2);
    }
  }

  lemma {:induction false} DirectForks(t: Bits, k: nat, a: nat, b: nat)
    requires a != b && Halved(a, k) == Halved(b, k)
    ensures Forked(DirectPath(t, k, a), DirectPath(t, k, b))
    decreases k
  {
    if a / 2 != b / 2 {
      DirectForks(t, k - 1, a / 2, b / 2);
      OneMore(DirectPath(t, k, a), DirectPath(t, k, b));
    }
  }

  lemma {:induction false} ReverseExtends(t: Bits, base: nat, k: nat, v: nat)
    ensures Extends(t, ReversePath(t, base, k, v))
    decreases k
  {
    if k > 0 {
      ReverseExtends(t, base, k - 1, v % Pow2(k - 1));
    }
  }

  lemma TopOf(v: nat, p: nat)
    requires v < 2 * p
    ensures v / p == (if v < p then 0 else 1) && v % p == (if v < p then v else v - p)
  {
    if v < p {
      assert v == p * 0 + v;
    } else {
      AddHighBit(p, v - p, 1);
    }
  }

  lemma {:induction false} ReverseForks(t: Bits, base: nat, k: nat, a: nat, b: nat)
    requires a != b && a < Pow2(k) && b < Pow2(k)
    ensures Forked(ReversePath(t, base, k, a), ReversePath(t, base, k, b))
    decreases k
  {
    if k > 0 {
      var p := Pow2(k - 1);
      TopOf(a, p);
      TopOf(b, p);
      if a % p != b % p {
        ReverseForks(t, base, k - 1, a % p, b % p);
        OneMore(ReversePath(t, base, k, a), ReversePath(t, base, k, b));
      }
    }
  }

  // ----- the parts of a packet -----

  lemma Powers()
    ensures Pow2(3) == 8 && Pow2(4) == 16 && Pow2(6) == 64 && Pow2(8) == 256
  {
    assert Pow2(3) == 8 && Pow2(4) == 16;
    Pow2Adds(3, 3);
    Pow2Adds(4, 4);
  }

  lemma LevelForks(t: Bits, base: nat, a: nat, b: nat, k: nat)
    requires a != b && Pow2(k) <= a < 2 * Pow2(k) && Pow2(k) <= b < 2 * Pow2(k)
    ensures Forked(TreePath(t, base, a), TreePath(t, base, b))
  {
    HalvedOnce(a, k);
    HalvedOnce(b, k);
    TreeForks(t, base, a, b, k);
  }

  lemma LiteralForks(t: Bits, props: Props, c: Coder, h: seq<byte>, a: byte, b: byte)
    requires ValidProps(props) && ValidCoder(c) && (c.state >= LIT_STATES ==> c.reps[0] < |h|) && a != b
    ensures Forked(LiteralBits(t, props, c, h, a), LiteralBits(t, props, c, h, b))
  {
    hide Pow2, TreePath, MatchedPath, LiteralBase;
    Powers();
    if c.state < LIT_STATES {
      LevelForks(t, LiteralBase(props, h), 0x100 + a, 0x100 + b, 8);
    } else {
      HalvedOnce(0x100 + a, 8);
      HalvedOnce(0x100 + b, 8);
      MatchedForks(t, LiteralBase(props, h), h[|h| - 1 - c.reps[0]], 8, 0x100 + a, 0x100 + b);
    }
  }

  /** The choice bits in front of a length. */
  function LengthChoice(t: Bits, base: nat, len: nat): Bits
    requires 2 <= len <= 273
  {
    if len < 10 then Then(t, Modelled(base, false))
    else Then(Then(t, Modelled(base, true)), Modelled(base + 1, len >= 18))
  }

  lemma LengthChoiceExtends(t: Bits, base: nat, posState: nat, len: nat)
    requires 2 <= len <= 273
    ensures Extends(LengthChoice(t, base, len), LengthBits(t, base, posState, len))
    ensures Extends(t, LengthChoice(t, base, len)) && Extends(t, LengthBits(t, base, posState, len))
  {
    hide TreePath;
    TreeExtends(Then(t, Modelled(base, false)), base + 2 + 8 * posState, 8 + len - 2);
    if 10 <= len < 18 {
      TreeExtends(Then(Then(t, Modelled(base, true)), Modelled(base + 1, false)), base + 130 + 8 * posState,
          8 + len - 10);
    } else if 18 <= len {
      TreeExtends(Then(Then(t, Modelled(base, true)), Modelled(base + 1, true)), base + 258, 256 + len - 18);
    }
    var choice := LengthChoice(t, base, len);
    assert Extends(t, t);
    assert Extends(t, Then(t, Modelled(base, true)));
    assert Extends(t, choice);
    ExtendsAgain(t, choice, LengthBits(t, base, posState, len));
  }

  lemma LengthForks(t: Bits, base: nat, posState: nat, a: nat, b: nat)
    requires 2 <= a <= 273 && 2 <= b <= 273 && a != b
    ensures Forked(LengthBits(t, base, posState, a), LengthBits(t, base, posState, b))
  {
    hide Pow2, TreePath;
    Powers();
    if a < 10 && b < 10 {
      LevelForks(Then(t, Modelled(base, false)), base + 2 + 8 * posState, 8 + a - 2, 8 + b - 2, 3);
    } else if 10 <= a < 18 && 10 <= b < 18 {
      LevelForks(Then(Then(t, Modelled(base, true)), Modelled(base + 1, false)), base + 130 + 8 * posState, 8 + a - 10,
          8 + b - 10, 3);
    } else if 18 <= a && 18 <= b {
      LevelForks(Then(Then(t, Modelled(base, true)), Modelled(base + 1, true)), base + 258, 256 + a - 18, 256 + b - 18,
          8);
    } else {
      LengthChoiceExtends(t, base, posState, a);
      LengthChoiceExtends(t, base, posState, b);
      ChoiceForks(t, base, a, b);
      ForkStays(LengthChoice(t, base, a), LengthChoice(t, base, b), LengthBits(t, base, posState, a),
          LengthBits(t, base, posState, b));
    }
  }

  lemma ChoiceForks(t: Bits, base: nat, a: nat, b: nat)
    requires 2 <= a <= 273 && 2 <= b <= 273 && ((a < 10) != (b < 10) || (a < 18) != (b < 18))
    ensures Forked(LengthChoice(t, base, a), LengthChoice(t, base, b))
  {
    assert Forked(Then(t, Modelled(base, true)), Then(t, Modelled(base, false)));
    assert Forked(Then(t, Modelled(base, false)), Then(t, Modelled(base, true)));
  }

  /** Distances of 32 bits have slots below 64. */
  lemma {:induction false} SlotBelow(dist: nat, k: nat)
    requires k >= 2 && dist < Pow2(k)
    ensures DistSlot(dist) < 2 * k
    decreases k
  {
    assert Pow2(2) == 4;
    if dist >= 4 {
      SlotBelow(dist / 2, k - 1);
    }
  }

  lemma WordSlots(dist: nat)
    requires dist < WORD
    ensures DistSlot(dist) < 64
  {
    hide Pow2;
    Powers();
    Pow2Adds(8, 8);
    Pow2Adds(16, 16);
    SlotBelow(dist, 32);
  }

  lemma FooterExtends(t: Bits, slot: nat, low: nat)
    ensures Extends(t, FooterPath(t, slot, low))
  {
    hide ReversePath, DirectPath, SlotBase;
    if 4 <= slot < 14 {
      SlotAtLeast(slot);
      ReverseExtends(t, DIST_SPECIAL + SlotBase(slot) - slot - 1, FooterBits(slot), low);
    } else if slot >= 14 {
      var direct := DirectPath(t, FooterBits(slot) - 4, low / 16);
      DirectExtends(t, FooterBits(slot) - 4, low / 16);
      ReverseExtends(direct, DIST_ALIGN, 4, low % 16);
      ExtendsAgain(t, direct, FooterPath(t, slot, low));
    }
  }

  lemma FooterForks(t: Bits, slot: nat, a: nat, b: nat)
    requires a != b && a < Pow2(FooterBits(slot)) && b < Pow2(FooterBits(slot))
    ensures Forked(FooterPath(t, slot, a), FooterPath(t, slot, b))
  {
    hide ReversePath, DirectPath, SlotBase;
    var k := FooterBits(slot);
    assert Pow2(0) == 1;
    if 4 <= slot < 14 {
      SlotAtLeast(slot);
      ReverseForks(t, DIST_SPECIAL + SlotBase(slot) - slot - 1, k, a, b);
    } else if slot >= 14 {
      AlignedForks(t, k, a, b);
    }
  }

  lemma AlignedForks(t: Bits, k: nat, a: nat, b: nat)
    requires k >= 4 && a != b && a < Pow2(k) && b < Pow2(k)
    ensures Forked(ReversePath(DirectPath(t, k - 4, a / 16), DIST_ALIGN, 4, a % 16),
                   ReversePath(DirectPath(t, k - 4, b / 16), DIST_ALIGN, 4, b % 16))
  {
    hide ReversePath, DirectPath, Pow2;
    Powers();
    Pow2Adds(4, k - 4);
    var ta, tb := DirectPath(t, k - 4, a / 16), DirectPath(t, k - 4, b / 16);
    if a / 16 != b / 16 {
      HalvedAway(a / 16, k - 4);
      HalvedAway(b / 16, k - 4);
      DirectForks(t, k - 4, a / 16, b / 16);
      ReverseExtends(ta, DIST_ALIGN, 4, a % 16);
      ReverseExtends(tb, DIST_ALIGN, 4, b % 16);
      ForkStays(ta, tb, ReversePath(ta, DIST_ALIGN, 4, a % 16), ReversePath(tb, DIST_ALIGN, 4, b % 16));
    } else {
      ReverseForks(ta, DIST_ALIGN, 4, a % 16, b % 16);
    }
  }

  lemma DistanceExtends(t: Bits, len: nat, dist: nat)
    requires len >= 2
    ensures Extends(t, DistanceBits(t, len, dist))
  {
    hide TreePath, FooterPath, DistSlot, SlotBase;
    var slot := DistSlot(dist);
    SlotBounds(dist);
    var tree := TreePath(t, DIST_SLOT + 64 * LengthState(len), 64 + slot);
    TreeExtends(t, DIST_SLOT + 64 * LengthState(len), 64 + slot);
    FooterExtends(tree, slot, dist - SlotBase(slot));
    ExtendsAgain(t, tree, DistanceBits(t, len, dist));
  }

  lemma DistanceForks(t: Bits, len: nat, a: nat, b: nat)
    requires len >= 2 && a < WORD && b < WORD && a != b
    ensures Forked(DistanceBits(t, len, a), DistanceBits(t, len, b))
  {
    hide TreePath, FooterPath, DistSlot, SlotBase, Pow2;
    Powers();
    var sa, sb, base := DistSlot(a), DistSlot(b), DIST_SLOT + 64 * LengthState(len);
    SlotBounds(a);
    SlotBounds(b);
    WordSlots(a);
    WordSlots(b);
    var ta, tb := TreePath(t, base, 64 + sa), TreePath(t, base, 64 + sb);
    if sa != sb {
      LevelForks(t, base, 64 + sa, 64 + sb, 6);
      FooterExtends(ta, sa, a - SlotBase(sa));
      FooterExtends(tb, sb, b - SlotBase(sb));
      ForkStays(ta, tb, DistanceBits(t, len, a), DistanceBits(t, len, b));
    } else {
      FooterForks(ta, sa, a - SlotBase(sa), b - SlotBase(sb));
    }
  }

  lemma RepExtends(t: Bits, state: nat, posState: nat, index: nat)
    requires index < 4
    ensures Extends(t, RepBits(t, state, posState, index))
  {
    assert Extends(t, t);
    assert Extends(t, Then(t, Modelled(IS_REP0 + state, index != 0)));
    assert Extends(t, Then(Then(t, Modelled(IS_REP0 + state, true)), Modelled(IS_REP1 + state, true)));
  }

  lemma RepForks(t: Bits, state: nat, posState: nat, i: nat, j: nat)
    requires i < 4 && j < 4 && i != j
    ensures Forked(RepBits(t, state, posState, i), RepBits(t, state, posState, j))
  {
    assert Forked(Then(t, Modelled(IS_REP0 + state, i != 0)), Then(t, Modelled(IS_REP0 + state, j != 0))) ||
           (i != 0 && j != 0);
    var t' := Then(t, Modelled(IS_REP0 + state, true));
    assert Forked(Then(t', Modelled(IS_REP1 + state, i != 1)), Then(t', Modelled(IS_REP1 + state, j != 1))) ||
           i == 0 || j == 0 || (i > 1 && j > 1);
  }

  /** What a packet spells beyond the bit that tells copies from literals. */
  lemma CopyExtends(t: Bits, state: nat, posState: nat, p: Packet)
    requires ValidPacket(p) && !p.Literal?
    ensures Extends(Then(t, Modelled(IS_REP + state, !p.Match?)), CopyBits(t, state, posState, p))
  {
    hide LengthBits, DistanceBits, RepBits;
    var isRep := Then(t, Modelled(IS_REP + state, !p.Match?));
    match p
    case Match(dist, len) =>
      var length := LengthBits(isRep, MATCH_LEN, posState, len);
      LengthChoiceExtends(isRep, MATCH_LEN, posState, len);
      DistanceExtends(length, len, dist);
      ExtendsAgain(isRep, length, CopyBits(t, state, posState, p));
    case ShortRep =>
      assert Extends(isRep, isRep);
      assert Extends(isRep, Then(isRep, Modelled(IS_REP0 + state, false)));
    case LongRep(i, len) =>
      var rep := RepBits(isRep, state, posState, i);
      RepExtends(isRep, state, posState, i);
      LengthChoiceExtends(rep, REP_LEN, posState, len);
      ExtendsAgain(isRep, rep, CopyBits(t, state, posState, p));
  }

  lemma MatchForks(t: Bits, state: nat, posState: nat, p: Packet, q: Packet)
    requires ValidPacket(p) && ValidPacket(q) && p.Match? && q.Match? && p != q
    ensures Forked(CopyBits(t, state, posState, p), CopyBits(t, state, posState, q))
  {
    hide LengthBits, DistanceBits;
    var isRep := Then(t, Modelled(IS_REP + state, false));
    var a, b := LengthBits(isRep, MATCH_LEN, posState, p.len), LengthBits(isRep, MATCH_LEN, posState, q.len);
    if p.len != q.len {
      LengthForks(isRep, MATCH_LEN, posState, p.len, q.len);
      DistanceExtends(a, p.len, p.dist);
      DistanceExtends(b, q.len, q.dist);
      ForkStays(a, b, CopyBits(t, state, posState, p), CopyBits(t, state, posState, q));
    } else {
      DistanceForks(a, p.len, p.dist, q.dist);
    }
  }

  lemma LongRepForks(t: Bits, state: nat, posState: nat, p: Packet, q: Packet)
    requires ValidPacket(p) && ValidPacket(q) && p.LongRep? && q.LongRep? && p != q
    ensures Forked(CopyBits(t, state, posState, p), CopyBits(t, state, posState, q))
  {
    hide LengthBits, RepBits;
    var isRep := Then(t, Modelled(IS_REP + state, true));
    var a, b := RepBits(isRep, state, posState, p.index), RepBits(isRep, state, posState, q.index);
    if p.index != q.index {
      RepForks(isRep, state, posState, p.index, q.index);
      LengthChoiceExtends(a, REP_LEN, posState, p.len);
      LengthChoiceExtends(b, REP_LEN, posState, q.len);
      ForkStays(a, b, CopyBits(t, state, posState, p), CopyBits(t, state, posState, q));
    } else {
      LengthForks(a, REP_LEN, posState, p.len, q.len);
    }
  }

  lemma ShortRepForks(t: Bits, state: nat, posState: nat, i: nat, len: nat)
    requires ValidPacket(LongRep(i, len))
    ensures Forked(CopyBits(t, state, posState, ShortRep), CopyBits(t, state, posState, LongRep(i, len)))
    ensures Forked(CopyBits(t, state, posState, LongRep(i, len)), CopyBits(t, state, posState, ShortRep))
  {
    hide LengthBits;
    var isRep := Then(t, Modelled(IS_REP + state, true));
    var short, rep := CopyBits(t, state, posState, ShortRep), RepBits(isRep, state, posState, i);
    ShortOrLong(isRep, state, posState, i);
    LengthChoiceExtends(rep, REP_LEN, posState, len);
    assert Extends(short, short);
    ForkStays(short, rep, short, CopyBits(t, state, posState, LongRep(i, len)));
    ForkStays(rep, short, CopyBits(t, state, posState, LongRep(i, len)), short);
  }

  lemma ShortOrLong(t: Bits, state: nat, posState: nat, i: nat)
    requires i < 4
    ensures var short := Then(Then(t, Modelled(IS_REP0 + state, false)),
        Modelled(IS_REP0_LONG + 16 * state + posState, false));
            Forked(short, RepBits(t, state, posState, i)) && Forked(RepBits(t, state, posState, i), short)
  {
    var no, yes := Then(t, Modelled(IS_REP0 + state, false)), Then(t, Modelled(IS_REP0 + state, true));
    var short := Then(no, Modelled(IS_REP0_LONG + 16 * state + posState, false));
    if i > 0 {
      var rep := RepBits(t, state, posState, i);
      assert Forked(no, yes) && Forked(yes, no);
      assert Extends(no, no) && Extends(no, short);
      assert Extends(yes, yes) && Extends(yes, Then(yes, Modelled(IS_REP1 + state, i != 1))) && Extends(yes, rep);
      ForkStays(no, yes, short, rep);
      ForkStays(yes, no, rep, short);
    }
  }

  lemma CopyForks(t: Bits, state: nat, posState: nat, p: Packet, q: Packet)
    requires ValidPacket(p) && ValidPacket(q) && !p.Literal? && !q.Literal? && p != q
    ensures Forked(CopyBits(t, state, posState, p), CopyBits(t, state, posState, q))
  {
    hide CopyBits;
    if p.Match? != q.Match? {
      var a, b := Then(t, Modelled(IS_REP + state, !p.Match?)), Then(t, Modelled(IS_REP + state, !q.Match?));
      CopyExtends(t, state, posState, p);
      CopyExtends(t, state, posState, q);
      assert Forked(a, b);
      ForkStays(a, b, CopyBits(t, state, posState, p), CopyBits(t, state, posState, q));
    } else if p.Match? {
      MatchForks(t, state, posState, p, q);
    } else if p.LongRep? && q.LongRep? {
      LongRepForks(t, state, posState, p, q);
    } else if p.LongRep? {
      ShortRepForks(t, state, posState, p.index, p.len);
    } else {
      ShortRepForks(t, state, posState, q.index, q.len);
    }
  }

  lemma LiteralExtends(t: Bits, props: Props, c: Coder, h: seq<byte>, b: byte)
    requires ValidProps(props) && ValidCoder(c) && (c.state >= LIT_STATES ==> c.reps[0] < |h|)
    ensures Extends(t, LiteralBits(t, props, c, h, b))
  {
    hide TreePath, MatchedPath, LiteralBase;
    if c.state < LIT_STATES {
      TreeExtends(t, LiteralBase(props, h), 0x100 + b);
    } else {
      MatchedExtends(t, LiteralBase(props, h), h[|h| - 1 - c.reps[0]], 8, 0x100 + b);
    }
  }

  lemma {:induction false} MatchedExtends(t: Bits, base: nat, matchByte: byte, k: nat, symbol: nat)
    ensures Extends(t, MatchedPath(t, base, matchByte, k, symbol))
    decreases k
  {
    hide MatchedOffset;
    if k > 0 {
      MatchedExtends(t, base, matchByte, k - 1, symbol / 2);
    }
  }

  lemma PacketExtends(t: Bits, props: Props, c: Coder, h: seq<byte>, p: Packet)
    requires ValidProps(props) && ValidCoder(c) && ValidPacket(p) && (c.state >= LIT_STATES ==> c.reps[0] < |h|)
    ensures Extends(Then(t, Modelled(IS_MATCH + 16 * c.state + PosState(props, h), !p.Literal?)),
                    PacketBits(t, props, c, h, p))
    ensures Extends(t, PacketBits(t, props, c, h, p))
  {
    hide LiteralBits, CopyBits, PosState;
    var isMatch := Then(t, Modelled(IS_MATCH + 16 * c.state + PosState(props, h), !p.Literal?));
    if p.Literal? {
      LiteralExtends(isMatch, props, c, h, p.b);
    } else {
      var isRep := Then(isMatch, Modelled(IS_REP + c.state, !p.Match?));
      CopyExtends(isMatch, c.state, PosState(props, h), p);
      assert Extends(isMatch, isMatch) && Extends(isMatch, isRep);
      ExtendsAgain(isMatch, isRep, PacketBits(t, props, c, h, p));
    }
    assert Extends(t, t) && Extends(t, isMatch);
    ExtendsAgain(t, isMatch, PacketBits(t, props, c, h, p));
  }

  /** Different packets in the same place fork. */
  lemma PacketForks(t: Bits, props: Props, c: Coder, h: seq<byte>, p: Packet, q: Packet)
    requires ValidProps(props) && ValidCoder(c) && (c.state >= LIT_STATES ==> c.reps[0] < |h|)
    requires ValidPacket(p) && ValidPacket(q) && p != q
    ensures Forked(PacketBits(t, props, c, h, p), PacketBits(t, props, c, h, q))
  {
    hide LiteralBits, CopyBits, PosState;
    var ctx := IS_MATCH + 16 * c.state + PosState(props, h);
    if p.Literal? != q.Literal? {
      var a, b := Then(t, Modelled(ctx, !p.Literal?)), Then(t, Modelled(ctx, !q.Literal?));
      PacketExtends(t, props, c, h, p);
      PacketExtends(t, props, c, h, q);
      assert Forked(a, b);
      ForkStays(a, b, PacketBits(t, props, c, h, p), PacketBits(t, props, c, h, q));
    } else if p.Literal? {
      LiteralForks(Then(t, Modelled(ctx, false)), props, c, h, p.b, q.b);
    } else {
      CopyForks(Then(t, Modelled(ctx, true)), c.state, PosState(props, h), p, q);
    }
  }

  // ----- sequences of packets -----

  function Size(ps: Packets): nat {
    match ps
    case NoPackets => 0
    case Add(prev, _) => 1 + Size(prev)
  }

  ghost predicate Prefix(ps: Packets, qs: Packets) {
    ps == qs || (qs.Add? && Prefix(ps, qs.prev))
  }

  lemma {:induction false} PrefixShorter(ps: Packets, qs: Packets)
    requires Prefix(ps, qs)
    ensures Size(ps) <= Size(qs) && (Size(ps) == Size(qs) ==> ps == qs)
  {
    if ps != qs {
      PrefixShorter(ps, qs.prev);
    }
  }

  lemma EmptyPrefix(qs: Packets)
    ensures Prefix(NoPackets, qs)
  {
    if qs.Add? {
      EmptyPrefix(qs.prev);
    }
  }

  /** Two packet sequences from the same start: one goes on where the other ends, or their spellings fork. */
  lemma {:induction false} SessionForks(t: Bits, props: Props, s: Session, ps: Packets, qs: Packets)
    requires ValidProps(props) && Legal(s, ps) && Legal(s, qs)
    ensures Prefix(ps, qs) || Prefix(qs, ps) || Forked(SessionBits(t, props, s, ps), SessionBits(t, props, s, qs))
    decreases Size(ps) + Size(qs)
  {
    hide PacketBits, Expand, After;
    if Size(ps) > Size(qs) {
      SessionForks(t, props, s, ps.prev, qs);
      if Prefix(ps.prev, qs) {
        PrefixShorter(ps.prev, qs);
      } else if !Prefix(qs, ps.prev) {
        StillForked(t, props, s, ps, qs);
      }
    } else if Size(ps) < Size(qs) {
      SessionForks(t, props, s, ps, qs.prev);
      if Prefix(qs.prev, ps) {
        PrefixShorter(qs.prev, ps);
      } else if !Prefix(ps, qs.prev) {
        StillForked(t, props, s, ps, qs);
      }
    } else if ps.Add? {
      SessionForks(t, props, s, ps.prev, qs.prev);
      if ps.prev == qs.prev {
        if ps.last != qs.last {
          var u := Play(s, ps.prev);
          PacketForks(SessionBits(t, props, s, ps.prev), props, u.coder, u.history, ps.last, qs.last);
        }
      } else {
        if Prefix(ps.prev, qs.prev) {
          PrefixShorter(ps.prev, qs.prev);
        } else if Prefix(qs.prev, ps.prev) {
          PrefixShorter(qs.prev, ps.prev);
        }
        StillForked(t, props, s, ps, qs);
      }
    }
  }

  lemma StillForked(t: Bits, props: Props, s: Session, ps: Packets, qs: Packets)
    requires ValidProps(props) && Legal(s, ps) && Legal(s, qs)
    requires (ps.Add? && Forked(SessionBits(t, props, s, ps.prev), SessionBits(t, props, s, qs)))
             || (qs.Add? && Forked(SessionBits(t, props, s, ps), SessionBits(t, props, s, qs.prev)))
             || (ps.Add? && qs.Add? && Forked(SessionBits(t, props, s, ps.prev), SessionBits(t, props, s, qs.prev)))
    ensures Forked(SessionBits(t, props, s, ps), SessionBits(t, props, s, qs))
  {
    hide PacketBits, Expand, After;
    var a, b := SessionBits(t, props, s, ps), SessionBits(t, props, s, qs);
    assert Extends(a, a) && Extends(b, b);
    if ps.Add? {
      var u := Play(s, ps.prev);
      PacketExtends(SessionBits(t, props, s, ps.prev), props, u.coder, u.history, ps.last);
    }
    if qs.Add? {
      var u := Play(s, qs.prev);
      PacketExtends(SessionBits(t, props, s, qs.prev), props, u.coder, u.history, qs.last);
    }
    if ps.Add? && Forked(SessionBits(t, props, s, ps.prev), b) {
      ForkStays(SessionBits(t, props, s, ps.prev), b, a, b);
    } else if qs.Add? && Forked(a, SessionBits(t, props, s, qs.prev)) {
      ForkStays(a, SessionBits(t, props, s, qs.prev), a, b);
    } else {
      ForkStays(SessionBits(t, props, s, ps.prev), SessionBits(t, props, s, qs.prev), a, b);
    }
  }

  // ----- decoding inverts encoding -----

  /** One stream, one sequence of packets: what two readings have in common is all of the shorter one. */
  lemma OneReading(origin: Rc, stream: seq<byte>, props: Props, s: Session, ps: Packets, qs: Packets)
    requires ValidProps(props) && Legal(s, ps) && Legal(s, qs)
    requires Replay(origin, stream, SessionBits(Start, props, s, ps)).Some?
    requires Replay(origin, stream, SessionBits(Start, props, s, qs)).Some?
    ensures Prefix(ps, qs) || Prefix(qs, ps)
  {
    hide SessionBits, Replay;
    SessionForks(Start, props, s, ps, qs);
    if Forked(SessionBits(Start, props, s, ps), SessionBits(Start, props, s, qs)) {
      ForkDecides(origin, stream, SessionBits(Start, props, s, ps), SessionBits(Start, props, s, qs));
    }
  }

  /** Every packet adds to the history. */
  lemma {:induction false} PacketsGrow(s: Session, ps: Packets, qs: Packets)
    requires Legal(s, ps) && Legal(s, qs) && Prefix(ps, qs)
    ensures |Play(s, ps).history| <= |Play(s, qs).history|
    ensures |Play(s, ps).history| == |Play(s, qs).history| ==> ps == qs
    decreases qs
  {
    if ps != qs {
      PacketsGrow(s, ps, qs.prev);
      var u := Play(s, qs.prev);
      if !qs.last.Literal? {
        LzCopyBytes(u.history, After(u.coder, qs.last).reps[0], PacketLength(qs.last));
      }
    }
  }

  /**
   If the bytes are an encoding of the packets `ps`, a decoder that reads packets `qs` of the same
   total length from them has read exactly `ps`.
   */
  lemma DecodesWhatWasEncoded(origin: Rc, stream: seq<byte>, props: Props, s: Session, ps: Packets, qs: Packets)
    requires ValidRc(origin) && origin.range * 67 >= TOP && ValidProps(props) && Legal(s, ps) && Legal(s, qs)
    requires var e := Encode(Interval(0, origin.range, 0, origin.probs), SessionBits(Start, props, s, ps));
             && e.Some? && origin.pos + e.value.shifts <= |stream|
             && Within(e.value, StreamValue(origin, stream, e.value.shifts))
    requires Replay(origin, stream, SessionBits(Start, props, s, qs)).Some?
    requires |Play(s, ps).history| == |Play(s, qs).history|
    ensures ps == qs
  {
    hide SessionBits, Replay, Encode, Play;
    DecodeInvertsEncode(origin, stream, SessionBits(Start, props, s, ps));
    OneReading(origin, stream, props, s, ps, qs);
    if Prefix(ps, qs) {
      PacketsGrow(s, ps, qs);
    } else {
      PacketsGrow(s, qs, ps);
    }
  }
}
