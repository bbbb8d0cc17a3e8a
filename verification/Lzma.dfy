/**
 The LZMA symbol decoder. Each method's contract says which packet it decoded: the bits it
 read are that packet's encoding, and the fields and the history changed as the packet says.
 */
module LzmaDecoding {
  import opened BitArithmetic
  import opened RangeCoder
  import opened RangeDecoding
  import opened LzDictionary
  import opened LzmaPackets

  lemma SmallPowers()
    ensures Pow2(0) == 1 && Pow2(1) == 2 && Pow2(2) == 4 && Pow2(3) == 8 && Pow2(4) == 16
    ensures Pow2(5) == 32 && Pow2(6) == 64 && Pow2(7) == 128 && Pow2(8) == 256
  {
    assert Pow2(4) == 16;
  }

  /** Numbers that differ by a multiple of 2^k have the same low k bits. */
  lemma {:induction false} SameLowBits(h: nat, pos: nat, d: nat, k: nat)
    requires h == pos + ShiftLeft(d, k)
    ensures BitAnd(h, Pow2(k) - 1) == BitAnd(pos, Pow2(k) - 1) < Pow2(k)
    decreases k
  {
    if k > 0 {
      assert h % 2 == pos % 2 && h / 2 == pos / 2 + ShiftLeft(d, k - 1);
      SameLowBits(h / 2, pos / 2, d, k - 1);
      assert (Pow2(k) - 1) / 2 == Pow2(k - 1) - 1 && (Pow2(k) - 1) % 2 == 1;
    }
  }

  /** Masking the ring position is masking the length of the history. */
  lemma PositionMask(h: nat, pos: nat, k: nat)
    requires h >= pos && (h - pos) % 16 == 0 && k <= 4
    ensures BitAnd(h, Pow2(k) - 1) == BitAnd(pos, Pow2(k) - 1) < Pow2(k)
  {
    var q := (h - pos) / 16;
    ShiftSplit(q, 4 - k, k);
    assert ShiftLeft(q, 2) == 2 * ShiftLeft(q, 1) == 4 * q;
    assert ShiftLeft(q, 4) == 2 * ShiftLeft(q, 3) == 4 * ShiftLeft(q, 2);
    SameLowBits(h, pos, ShiftLeft(q, 4 - k), k);
  }

  lemma {:induction false} ShiftSplit(v: nat, j: nat, k: nat)
    ensures ShiftLeft(ShiftLeft(v, j), k) == ShiftLeft(v, j + k)
  {
    if k > 0 {
      ShiftSplit(v, j, k - 1);
    }
  }

  lemma {:induction false} ShiftLeftBound(v: nat, k: nat, n: nat)
    requires v < Pow2(n)
    ensures ShiftLeft(v, k) + Pow2(k) <= Pow2(n + k)
  {
    if k > 0 {
      ShiftLeftBound(v, k - 1, n);
    }
  }

  lemma {:induction false} ShiftRightBound(v: nat, k: nat, n: nat)
    requires v < Pow2(n + k)
    ensures ShiftRight(v, k) < Pow2(n)
  {
    if k > 0 {
      ShiftRightBound(v, k - 1, n + 1);
    }
  }

  lemma {:induction false} ShiftLeftNext(v: nat, k: nat)
    ensures ShiftLeft(v + 1, k) == ShiftLeft(v, k) + Pow2(k)
  {
    if k > 0 {
      ShiftLeftNext(v, k - 1);
    }
  }

  lemma Pow2Word()
    ensures Pow2(32) == WORD
  {
    SmallPowers();
    assert Pow2(12) == 0x1000;
    assert Pow2(16) == 0x1_0000;
    assert Pow2(20) == 0x10_0000;
    assert Pow2(24) == 0x100_0000;
    assert Pow2(28) == 0x1000_0000;
  }

  /** Every distance a slot can spell fits 32 bits. */
  lemma SlotFits(slot: nat)
    requires 4 <= slot < 64
    ensures SlotBase(slot) + Pow2(FooterBits(slot)) <= WORD
  {
    SmallPowers();
    ShiftLeftBound(2 + slot % 2, slot / 2 - 1, 2);
    Pow2Monotone(slot / 2 + 1, 32);
    Pow2Word();
  }

  lemma DirectFits(slot: nat)
    requires 14 <= slot < 64
    ensures ShiftLeft(3 + slot % 2, FooterBits(slot) - 4) <= WORD
    ensures 6 <= FooterBits(slot) <= 30 && Pow2(4) == 16
  {
    SmallPowers();
    ShiftLeftNext(2 + slot % 2, FooterBits(slot) - 4);
    ShiftLeftBound(2 + slot % 2, FooterBits(slot) - 4, 2);
    Pow2Monotone(FooterBits(slot) - 2, 32);
    Pow2Word();
  }

  /** The contexts of the modelled footer bits stay inside their array of 114. */
  lemma ModelledFits(slot: nat)
    requires 4 <= slot < 14
    ensures 1 <= FooterBits(slot) <= 5 && SlotBase(slot) == ShiftLeft(2 + slot % 2, FooterBits(slot))
    ensures 0 <= SlotBase(slot) - slot && SlotBase(slot) - slot - 1 + Pow2(FooterBits(slot)) <= 114
    ensures SlotBase(slot) + Pow2(FooterBits(slot)) <= WORD
  {
    SmallPowers();
    SlotFits(slot);
    assert ShiftLeft(2, 3) == 4 * ShiftLeft(2, 1) && ShiftLeft(3, 3) == 4 * ShiftLeft(3, 1);
    assert ShiftLeft(2, 5) == 4 * ShiftLeft(2, 3) && ShiftLeft(3, 5) == 4 * ShiftLeft(3, 3);
    var k := FooterBits(slot);
    assert k == 1 || k == 2 || k == 3 || k == 4 || k == 5;
  }

  /** A distance is its slot and what lies below. */
  lemma SlotDistance(t: Bits, len: nat, slot: nat, dist: nat)
    requires len >= 2 && 0 <= dist - SlotBase(slot) < Pow2(FooterBits(slot))
    ensures DistanceBits(t, len, dist)
            == FooterPath(TreePath(t, DIST_SLOT + 64 * LengthState(len), 64 + slot), slot, dist - SlotBase(slot))
  {
    SlotOf(slot, dist - SlotBase(slot));
  }

  lemma SixteenDivides(d: nat, v: nat)
    requires v < 16
    ensures (16 * d + v) / 16 == d && (16 * d + v) % 16 == v
  {
  }

  /** Shifting the direct bits into place. */
  lemma DirectShift(slot: nat, d: nat)
    requires 14 <= slot < 64 && d < Pow2(FooterBits(slot) - 4)
    ensures ShiftLeft(ShiftLeft(2 + slot % 2, FooterBits(slot) - 4) + d, 4) == SlotBase(slot) + 16 * d
    ensures 16 * d + 16 <= Pow2(FooterBits(slot))
  {
    var k := FooterBits(slot);
    SixteenTimes(k, d);
    SixteenShifts(ShiftLeft(2 + slot % 2, k - 4), d);
    ShiftSplit(2 + slot % 2, k - 4, 4);
  }

  lemma SixteenTimes(k: nat, d: nat)
    requires k >= 4 && d < Pow2(k - 4)
    ensures 16 * d + 16 <= Pow2(k)
  {
    assert Pow2(k) == 2 * Pow2(k - 1) == 4 * Pow2(k - 2);
    assert Pow2(k - 2) == 2 * Pow2(k - 3) == 4 * Pow2(k - 4);
  }

  lemma SixteenShifts(v: nat, d: nat)
    ensures ShiftLeft(v + d, 4) == ShiftLeft(v, 4) + 16 * d
  {
    assert ShiftLeft(v + d, 2) == 2 * ShiftLeft(v + d, 1) == 4 * (v + d);
    assert ShiftLeft(v + d, 4) == 2 * ShiftLeft(v + d, 3) == 4 * ShiftLeft(v + d, 2);
    assert ShiftLeft(v, 2) == 2 * ShiftLeft(v, 1) == 4 * v;
    assert ShiftLeft(v, 4) == 2 * ShiftLeft(v, 3) == 4 * ShiftLeft(v, 2);
  }

  /** The bits of a high slot: direct ones, then four modelled. */
  lemma AlignedFooter(t: Bits, slot: nat, d: nat, v: nat)
    requires slot >= 14 && v < 16
    ensures FooterPath(t, slot, 16 * d + v) == ReversePath(DirectPath(t, FooterBits(slot) - 4, d), DIST_ALIGN, 4, v)
  {
    hide ReversePath, DirectPath, Pow2;
    SixteenDivides(d, v);
  }

  /** The literal coder index fits the sixteen coders there are. */
  lemma LiteralCoders(before: byte, position: nat, lc: nat, lp: nat)
    requires position < Pow2(lp) && lc + lp <= 4
    ensures LiteralIndex(before, position, lc) < 16
  {
    SmallPowers();
    ShiftRightBound(before, 8 - lc, lc);
    ShiftLeftBound(position, lc, lp);
    Pow2Monotone(lp + lc, 4);
  }

  class Lzma {
    const rc: RangeDecoder
    const dict: Dictionary
    var rep0: nat
    var rep1: nat
    var rep2: nat
    var rep3: nat
    var state: nat
    var len: nat
    var lc: nat
    var literalPosMask: nat
    var posMask: nat

    ghost var props: Props

    ghost function TheCoder(): Coder
      reads this
    {
      Coder(state, [rep0, rep1, rep2, rep3])
    }

    ghost predicate PropsSet()
      reads this
    {
      && ValidProps(props) && lc == props.lc
      && literalPosMask == Pow2(props.lp) - 1 && posMask == Pow2(props.pb) - 1
    }

    /** A state that reads the history back (a match or a repeat came last) has somewhere to read. */
    ghost predicate Valid()
      reads this, dict, dict.buf
    {
      && PropsSet() && dict.Valid() && state < 12
      && (state >= LIT_STATES ==> rep0 < dict.full)
      && (len > 0 ==> rep0 < dict.full) && dict.full <= |dict.history|
    }

    ghost predicate Separate()
      reads dict`buf
    {
      rc.probs as object != dict.buf as object
    }

    constructor (rc: RangeDecoder, dict: Dictionary)
      ensures this.rc == rc && this.dict == dict && len == 0
    {
      this.rc := rc;
      this.dict := dict;
      len := 0;
    }

    /** Forgets what was learned: literal state, zero distances, even odds, a fresh range decoder. */
    method ResetState()
      requires rc.probs.Length == PROBS_TOTAL
      modifies this`state, this`rep0, this`rep1, this`rep2, this`rep3, rc`range, rc`code, rc`initBytesLeft, rc.probs
      ensures TheCoder() == Coder(0, [0, 0, 0, 0])
      ensures rc.range == WORD - 1 && rc.code == 0 && rc.initBytesLeft == 5
      ensures forall i :: 0 <= i < PROBS_TOTAL ==> rc.probs[i] == 1024
    {
      state := 0;
      rep0, rep1, rep2, rep3 := 0, 0, 0, 0;
      for i := 0 to PROBS_TOTAL
        modifies rc.probs
        invariant forall j :: 0 <= j < i ==> rc.probs[j] == 1024
      {
        rc.probs[i] := 1024;
      }
      rc.Reset();
    }

    /** Accepts exactly the bytes (pb * 5 + lp) * 9 + lc with lc + lp <= 4 and pb <= 4. */
    method SetProps(b: byte) returns (ok: bool)
      requires rc.probs.Length == PROBS_TOTAL
      modifies this`lc, this`literalPosMask, this`posMask, this`props
      modifies this`state, this`rep0, this`rep1, this`rep2, this`rep3, rc`range, rc`code, rc`initBytesLeft, rc.probs
      ensures ok ==> PropsSet() && b == PropsByte(props)
      ensures ok ==>
                TheCoder() == Coder(0, [0, 0, 0, 0]) && rc.range == WORD - 1 && rc.code == 0 && rc.initBytesLeft == 5
      ensures ok ==> forall i :: 0 <= i < PROBS_TOTAL ==> rc.probs[i] == 1024
      ensures !ok ==> NoProps(b)
    {
      hide NoProps, Pow2;
      if b > (4 * 5 + 4) * 9 + 8 {
        TooLarge(b);
        return false;
      }
      var rest: nat, pb := b, 0;
      while rest >= 9 * 5
        invariant 0 <= pb <= 4 && 0 <= rest && b == pb * 45 + rest
      {
        rest, pb := rest - 9 * 5, pb + 1;
      }
      posMask := Pow2(pb) - 1;
      var lp := 0;
      while rest >= 9
        invariant 0 <= lp <= 4 && 0 <= rest && b == pb * 45 + lp * 9 + rest && lp * 9 + rest < 45
      {
        rest, lp := rest - 9, lp + 1;
      }
      lc := rest;
      if lc + lp > 4 {
        BadDigits(b, lc, lp, pb);
        return false;
      }
      literalPosMask := Pow2(lp) - 1;
      props := Props(lc, lp, pb);
      ResetState();
      return true;
    }

    /** The literal coder for the byte and position at hand. */
    method LiteralProbs() returns (probs: nat)
      requires PropsSet() && dict.Valid()
      ensures probs == LiteralBase(props, dict.history) && probs + 0x300 <= PROBS_TOTAL
    {
      var before := dict.Get(0);
      PositionMask(|dict.history|, dict.pos, props.lp);
      LiteralCoders(before, BitAnd(dict.pos, literalPosMask), lc, props.lp);
      hide BitAnd, Pow2, LiteralIndex;
      probs := LITERAL + 0x300 * LiteralIndex(before, BitAnd(dict.pos, literalPosMask), lc);
    }

    method Literal() returns (ghost b: byte)
      requires Valid() && Separate() && rc.Valid() && rc.Used() == 1 && rc.UsedDirect() == 0 && dict.HasSpace()
      modifies this`state, rc`range, rc`code, rc`inPos, rc`stream, rc`trace, rc.probs, dict`pos, dict`full
      modifies dict`history, dict.buf
      ensures Valid() && rc.Valid() && rc.SymbolDone() && dict.full >= old(dict.full) && dict.pos <= dict.limit
      ensures rc.trace == old(LiteralBits(rc.trace, props, TheCoder(), dict.history, b))
      ensures dict.history == old(dict.history) + [b] && dict.pos == old(dict.pos) + 1
      ensures TheCoder() == After(old(TheCoder()), Packet.Literal(b))
    {
      SmallPowers();
      hide RangeDecoder.Valid, Dictionary.Valid, RingHolds, TreePath, MatchedPath, LiteralBase, ModelledCount,
        DirectCount;
      var probs := LiteralProbs();
      var symbol;
      if state < LIT_STATES {
        symbol := rc.BitTree(probs, 0x100, 8);
      } else {
        var matchByte := dict.Get(rep0);
        symbol := MatchedLiteral(probs, matchByte);
      }
      b := symbol - 0x100;
      dict.Put(symbol % 0x100);
      state := StateLiteral(state);
    }

    /** One bit of a literal after a match. */
    method MatchedBit(probs: nat, ghost i: nat, symbol: nat, offset: nat, shifted: nat, ghost m: byte, ghost t: Bits)
        returns (symbol': nat, offset': nat, shifted': nat)
      requires rc.Valid() && rc.Within(1, 0) && probs + 0x300 <= PROBS_TOTAL && 0 < symbol < 0x100
      requires shifted == ShiftLeft(m, i + 1) && offset == if symbol == NodeOf(m, i) then 0x100 else 0
      requires rc.trace == MatchedPath(t, probs, m, i, symbol)
      modifies rc`range, rc`code, rc`inPos, rc`stream, rc`trace, rc.probs
      ensures rc.Valid() && rc.Used() == old(rc.Used()) + 1 && rc.UsedDirect() == old(rc.UsedDirect())
      ensures symbol' / 2 == symbol && shifted' == ShiftLeft(m, i + 2)
      ensures offset' == if symbol' == NodeOf(m, i + 1) then 0x100 else 0
      ensures rc.trace == MatchedPath(t, probs, m, i + 1, symbol') && rc.LastModelled()
    {
      assert TopBit(m, i) == shifted / 0x100 % 2;
      assert NodeOf(m, i + 1) == 2 * NodeOf(m, i) + TopBit(m, i);
      hide RangeDecoder.Valid, ModelledCount, DirectCount, TopBit, NodeOf;
      var matchBit := if shifted / 0x100 % 2 == 1 then offset else 0;
      shifted' := shifted * 2;
      var bit := rc.Bit(probs + offset + matchBit + symbol);
      symbol' := if bit then 2 * symbol + 1 else 2 * symbol;
      offset' := if bit then matchBit else offset - matchBit;
    }

    /** The literal after a match: while its bits agree with the match byte, that selects the context. */
    method MatchedLiteral(probs: nat, matchByte: byte) returns (symbol: nat)
      requires rc.Valid() && rc.Used() == 1 && rc.UsedDirect() == 0 && probs + 0x300 <= PROBS_TOTAL
      modifies rc`range, rc`code, rc`inPos, rc`stream, rc`trace, rc.probs
      ensures rc.Valid() && rc.SymbolDone()
      ensures 0x100 <= symbol < 0x200 && rc.trace == MatchedPath(old(rc.trace), probs, matchByte, 8, symbol)
    {
      SmallPowers();
      assert NodeOf(matchByte, 0) == 1 && MatchedPath(rc.trace, probs, matchByte, 0, 1) == rc.trace;
      assert ShiftLeft(matchByte, 1) == 2 * ShiftLeft(matchByte, 0);
      hide RangeDecoder.Valid, ModelledCount, DirectCount, NodeOf, TopBit, MatchedPath, ShiftLeft, Pow2;
      symbol := 1;
      var shifted, offset := matchByte * 2, 0x100;
      ghost var i := 0;
      while symbol < 0x100
        invariant rc.Valid() && rc.Used() == 1 + i && rc.UsedDirect() == 0
        invariant i <= 8 && Pow2(i) <= symbol < 2 * Pow2(i)
        invariant shifted == ShiftLeft(matchByte, i + 1)
        invariant offset == if symbol == NodeOf(matchByte, i) then 0x100 else 0
        invariant rc.trace == MatchedPath(old(rc.trace), probs, matchByte, i, symbol)
        invariant i > 0 ==> rc.LastModelled()
        decreases 0x100 - symbol
      {
        symbol, offset, shifted := MatchedBit(probs, i, symbol, offset, shifted, matchByte, old(rc.trace));
        Pow2Step(i + 1);
        Pow2Monotone(i, 8);
        i := i + 1;
      }
      Pow2Monotone(i, 8);
    }

    /** Decodes a length through one or two choices and a bit tree. */
    method Length(base: nat, posState: nat) returns (len: nat)
      requires rc.Valid() && rc.Within(10, 0) && posState < 16 && (base == MATCH_LEN || base == REP_LEN)
      modifies rc`range, rc`code, rc`inPos, rc`stream, rc`trace, rc.probs
      ensures rc.Valid() && 2 <= len <= 273 && rc.trace == LengthBits(old(rc.trace), base, posState, len)
      ensures old(rc.Used()) <= rc.Used() <= old(rc.Used()) + 10 && rc.UsedDirect() == old(rc.UsedDirect())
      ensures rc.SymbolDone()
    {
      SmallPowers();
      hide RangeDecoder.Valid, TreePath, ModelledCount, DirectCount, Pow2;
      var choice := rc.Bit(base);
      if !choice {
        var symbol := rc.BitTree(base + 2 + 8 * posState, 8, 3);
        len := 2 + symbol - 8;
      } else {
        var choice2 := rc.Bit(base + 1);
        if !choice2 {
          var symbol := rc.BitTree(base + 130 + 8 * posState, 8, 3);
          len := 10 + symbol - 8;
        } else {
          var symbol := rc.BitTree(base + 258, 256, 8);
          len := 18 + symbol - 256;
        }
      }
    }

    /** Decodes the distance of a match of length `len`. */
    method Distance(len: nat) returns (dist: nat)
      requires rc.Valid() && rc.Used() <= 12 && rc.UsedDirect() == 0 && len >= 2
      modifies rc`range, rc`code, rc`inPos, rc`stream, rc`trace, rc.probs
      ensures rc.Valid() && rc.SymbolDone() && dist < WORD
      ensures rc.trace == DistanceBits(old(rc.trace), len, dist)
    {
      SmallPowers();
      hide RangeDecoder.Valid, TreePath, ModelledCount, DirectCount, Pow2, SlotBase, DistanceBits, FooterPath,
        FooterBits;
      var symbol := rc.BitTree(DIST_SLOT + 64 * LengthState(len), 64, 6);
      dist := Footer(symbol - 64);
      SlotDistance(old(rc.trace), len, symbol - 64, dist);
    }

    /** Decodes the bits of a distance below its slot. */
    method Footer(slot: nat) returns (dist: nat)
      requires rc.Valid() && rc.Used() <= 18 && rc.UsedDirect() == 0 && slot < 64 && rc.SymbolDone()
      modifies rc`range, rc`code, rc`inPos, rc`stream, rc`trace, rc.probs
      ensures rc.Valid() && rc.SymbolDone() && dist < WORD
      ensures 0 <= dist - SlotBase(slot) < Pow2(FooterBits(slot))
      ensures rc.trace == FooterPath(old(rc.trace), slot, dist - SlotBase(slot))
    {
      hide RangeDecoder.Valid, ReversePath, DirectPath, ModelledCount, DirectCount, Pow2;
      if slot < 4 {
        dist := slot;
      } else if slot < 14 {
        dist := ModelledDistance(slot, slot / 2 - 1);
      } else {
        dist := AlignedDistance(slot, slot / 2 - 1);
      }
    }

    method ModelledDistance(slot: nat, limit: nat) returns (dist: nat)
      requires rc.Valid() && rc.Used() <= 18 && rc.UsedDirect() == 0
      requires 4 <= slot < 14 && limit == FooterBits(slot)
      modifies rc`range, rc`code, rc`inPos, rc`stream, rc`trace, rc.probs
      ensures rc.Valid() && rc.SymbolDone() && 0 <= dist - SlotBase(slot) < Pow2(limit) && dist < WORD
      ensures rc.trace == FooterPath(old(rc.trace), slot, dist - SlotBase(slot))
    {
      ModelledFits(slot);
      hide RangeDecoder.Valid, ReversePath, ModelledCount, DirectCount, SlotBase, ShiftLeft, Pow2, FooterBits;
      dist := ShiftLeft(2 + slot % 2, limit);
      ghost var v;
      dist, v := rc.BitTreeReverse(DIST_SPECIAL + dist - slot - 1, dist, limit);
    }

    method AlignedDistance(slot: nat, limit: nat) returns (dist: nat)
      requires rc.Valid() && rc.Used() <= 18 && rc.UsedDirect() == 0
      requires 14 <= slot < 64 && limit == FooterBits(slot)
      modifies rc`range, rc`code, rc`inPos, rc`stream, rc`trace, rc.probs
      ensures rc.Valid() && rc.SymbolDone() && dist < WORD
      ensures 0 <= dist - SlotBase(slot) < Pow2(limit)
      ensures rc.trace == FooterPath(old(rc.trace), slot, dist - SlotBase(slot))
    {
      hide RangeDecoder.Valid, FooterPath, ReversePath, DirectPath, ModelledCount, DirectCount, SlotBase, ShiftLeft,
        Pow2, FooterBits;
      SlotFits(slot);
      DirectFits(slot);
      ghost var d, v;
      dist, d := rc.DirectBits(2 + slot % 2, limit - 4);
      DirectShift(slot, d);
      dist := ShiftLeft(dist, 4);
      dist, v := rc.BitTreeReverse(DIST_ALIGN, dist, 4);
      AlignedFooter(old(rc.trace), slot, d, v);
    }

    /** Decodes a match: its length, then its distance, which is pushed onto the reps. */
    method Match(posState: nat)
      requires state < 12 && rc.Valid() && rc.Used() == 2 && rc.UsedDirect() == 0 && posState < 16
      modifies this`state, this`rep0, this`rep1, this`rep2, this`rep3, this`len
      modifies rc`range, rc`code, rc`inPos, rc`stream, rc`trace, rc.probs
      ensures rc.Valid() && rc.SymbolDone() && ValidPacket(Packet.Match(rep0, len))
      ensures rc.trace == DistanceBits(LengthBits(old(rc.trace), MATCH_LEN, posState, len), len, rep0)
      ensures TheCoder() == After(old(TheCoder()), Packet.Match(rep0, len))
    {
      hide RangeDecoder.Valid, DistanceBits, LengthBits, ModelledCount, DirectCount;
      state := if state < LIT_STATES then 7 else 10;
      rep3 := rep2;
      rep2 := rep1;
      rep1 := rep0;
      len := Length(MATCH_LEN, posState);
      rep0 := Distance(len);
    }

    /** Decodes a repeat: which of the four latest distances, and how long. */
    method RepMatch(posState: nat) returns (ghost p: Packet)
      requires state < 12 && rc.Valid() && rc.Used() == 2 && rc.UsedDirect() == 0 && posState < 16
      modifies this`state, this`rep0, this`rep1, this`rep2, this`rep3, this`len
      modifies rc`range, rc`code, rc`inPos, rc`stream, rc`trace, rc.probs
      ensures rc.Valid() && rc.SymbolDone() && ValidPacket(p) && len == PacketLength(p)
      ensures p.ShortRep? || p.LongRep?
      ensures p.ShortRep? ==>
                rc.trace == Then(Then(old(rc.trace), Modelled(IS_REP0 + old(state), false)),
                                 Modelled(IS_REP0_LONG + 16 * old(state) + posState, false))
      ensures p.LongRep? ==>
                rc.trace == LengthBits(RepBits(old(rc.trace), old(state), posState, p.index), REP_LEN, posState, len)
      ensures TheCoder() == After(old(TheCoder()), p)
    {
      hide RangeDecoder.Valid, LengthBits, ModelledCount, DirectCount;
      ghost var index := 0;
      var bit := rc.Bit(IS_REP0 + state);
      if !bit {
        var long := rc.Bit(IS_REP0_LONG + 16 * state + posState);
        if !long {
          state := if state < LIT_STATES then 9 else 11;
          len := 1;
          return ShortRep;
        }
      } else {
        index := Recall();
      }
      state := if state < LIT_STATES then 8 else 11;
      len := Length(REP_LEN, posState);
      p := LongRep(index, len);
    }

    /** Moves rep1, rep2 or rep3 to the front. */
    method Recall() returns (ghost index: nat)
      requires state < 12 && rc.Valid() && rc.Used() == 3 && rc.UsedDirect() == 0
      modifies this`rep0, this`rep1, this`rep2, this`rep3, rc`range, rc`code, rc`inPos, rc`stream, rc`trace, rc.probs
      ensures rc.Valid() && 1 <= index < 4 && rc.Used() <= 5 && rc.UsedDirect() == 0
      ensures index == 1 ==> rc.trace == Then(old(rc.trace), Modelled(IS_REP1 + state, false))
      ensures index > 1 ==>
                rc.trace == Then(Then(old(rc.trace), Modelled(IS_REP1 + state, true)),
                                 Modelled(IS_REP2 + state, index == 3))
      ensures var reps := old(TheCoder()).reps;
              TheCoder().reps == [reps[index]] + reps[..index] + reps[index + 1..]
    {
      hide RangeDecoder.Valid, ModelledCount, DirectCount;
      var tmp;
      var bit := rc.Bit(IS_REP1 + state);
      if !bit {
        tmp := rep1;
        index := 1;
      } else {
        bit := rc.Bit(IS_REP2 + state);
        if !bit {
          tmp := rep2;
          index := 2;
        } else {
          tmp := rep3;
          rep3 := rep2;
          index := 3;
        }
        rep2 := rep1;
      }
      rep1 := rep0;
      rep0 := tmp;
    }

    /** The history once the pending copy is finished. */
    ghost function Whole(): seq<byte>
      reads this, dict`history
      requires len > 0 ==> rep0 < |dict.history|
    {
      LzCopy(dict.history, rep0, len)
    }

    method MatchOrRep(posState: nat) returns (ghost p: Packet)
      requires state < 12 && rc.Valid() && rc.Used() == 1 && rc.UsedDirect() == 0 && posState < 16
      modifies this`state, this`rep0, this`rep1, this`rep2, this`rep3, this`len
      modifies rc`range, rc`code, rc`inPos, rc`stream, rc`trace, rc.probs
      ensures rc.Valid() && rc.SymbolDone() && ValidPacket(p) && !p.Literal? && len == PacketLength(p) && state < 12
      ensures rc.trace == CopyBits(old(rc.trace), old(state), posState, p)
      ensures TheCoder() == After(old(TheCoder()), p)
    {
      hide RangeDecoder.Valid, LengthBits, DistanceBits, RepBits, ModelledCount, DirectCount;
      var isRep := rc.Bit(IS_REP + state);
      if isRep {
        p := RepMatch(posState);
      } else {
        Match(posState);
        p := Packet.Match(rep0, len);
      }
    }

    /** Copies as much of the pending match as there is space for. */
    method CopyPending() returns (ok: bool)
      requires dict.Valid() && dict.HasSpace() && len > 0
      modifies this`len, dict`pos, dict`full, dict`history, dict.buf
      ensures dict.Valid() && dict.full <= |dict.history| && dict.pos <= dict.limit && (ok <==> rep0 < old(dict.full))
      ensures ok ==> rep0 < |old(dict.history)| && rep0 < dict.full && rep0 < |dict.history|
      ensures ok ==> old(dict.pos) < dict.pos && len < old(len) && (len > 0 ==> !dict.HasSpace())
      ensures ok ==> Whole() == LzCopy(old(dict.history), rep0, old(len))
      ensures !ok ==> dict.history == old(dict.history) && dict.pos == old(dict.pos)
    {
      FullBound();
      hide RingHolds;
      ok, len := dict.Repeat(len, rep0);
      if ok {
        LzCopyResumes(old(dict.history), rep0, old(len) - len, len);
      }
    }

    /** A match or repeat, copied as far as there is space. */
    method CopySymbol(posState: nat) returns (ok: bool, ghost p: Packet)
      requires Valid() && Separate() && rc.Valid() && dict.HasSpace() && len == 0
      requires rc.Used() == 1 && rc.UsedDirect() == 0 && posState < 16
      modifies this`state, this`rep0, this`rep1, this`rep2, this`rep3, this`len
      modifies rc`range, rc`code, rc`inPos, rc`stream, rc`trace, rc.probs
      modifies dict`pos, dict`full, dict`history, dict.buf
      ensures dict.Valid() && dict.pos <= dict.limit && rc.Valid() && rc.SymbolDone() && ValidPacket(p) && !p.Literal?
      ensures rc.trace == CopyBits(old(rc.trace), old(state), posState, p)
      ensures TheCoder() == After(old(TheCoder()), p)
      ensures ok <==> rep0 < old(dict.full)
      ensures ok ==> rep0 < |old(dict.history)| && Valid() && old(dict.pos) < dict.pos && (len > 0 ==> !dict.HasSpace())
      ensures ok ==> Whole() == LzCopy(old(dict.history), rep0, PacketLength(p)) && len < PacketLength(p)
      ensures !ok ==> dict.history == old(dict.history) && dict.pos == old(dict.pos)
    {
      hide RangeDecoder.Valid, Dictionary.Valid, CopyBits, ModelledCount, DirectCount, After, LzCopy;
      p := MatchOrRep(posState);
      ok := CopyPending();
    }

    /** One packet: decode it, and copy as much as there is space for. */
    method Symbol() returns (ok: bool, ghost p: Packet)
      requires Valid() && Separate() && rc.Tracks() && rc.Anchored() && dict.HasSpace() && len == 0
      requires rc.inPos + 21 <= |rc.input|
      modifies this`state, this`rep0, this`rep1, this`rep2, this`rep3, this`len
      modifies rc`range, rc`code, rc`inPos, rc`stream, rc`trace, rc`mark, rc`markPos, rc.probs
      modifies dict`pos, dict`full, dict`history, dict.buf
      ensures dict.Valid() && dict.pos <= dict.limit && rc.Tracks() && rc.Anchored() && ValidPacket(p)
      ensures old(rc.inPos) <= rc.inPos <= old(rc.inPos) + 20
      ensures rc.trace == old(PacketBits(rc.trace, props, TheCoder(), dict.history, p))
      ensures TheCoder() == After(old(TheCoder()), p)
      ensures ok <==> p.Literal? || rep0 < old(dict.full)
      ensures ok ==> old(Readable(TheCoder(), dict.history, p))
      ensures ok ==> Valid() && old(dict.pos) < dict.pos && (len > 0 ==> !dict.HasSpace())
      ensures ok ==> Whole() == old(Expand(TheCoder(), dict.history, p)) && len < PacketLength(p)
      ensures !ok ==> dict.history == old(dict.history) && dict.pos == old(dict.pos)
    {
      hide RangeDecoder.Valid, RangeDecoder.Tracks, RangeDecoder.InSymbol, Dictionary.Valid, LzCopy,
        LiteralBits, CopyBits, ModelledCount, DirectCount, BitAnd, PosState, Pow2, After;
      PosStateFits();
      rc.BeginSymbol();
      var posState := BitAnd(dict.pos, posMask);
      var isMatch := rc.Bit(IS_MATCH + 16 * state + posState);
      if !isMatch {
        ghost var b := Literal();
        ok, p := true, Packet.Literal(b);
        GroundedSession();
      } else {
        ok, p := CopySymbol(posState);
      }
      rc.SymbolReads();
    }

    ghost function TheSession(): Session
      reads this, dict`history
      requires len > 0 ==> rep0 < |dict.history|
    {
      Session(TheCoder(), Whole())
    }

    /**
     The decoding loop. It reads only bytes before inLimit + 21, and on success what it did is
     exactly what some packets `ps` say: their bits are the ones decoded from the bytes read,
     and state, reps and history (with the copy still pending) are their meaning.
     */
    method DecodeSymbols() returns (ok: bool, ghost ps: Packets)
      requires Valid() && Separate() && rc.Tracks() && rc.range >= TOP && dict.pos <= dict.limit
      requires rc.inPos <= rc.inLimit && rc.inLimit + 21 <= |rc.input|
      modifies this`state, this`rep0, this`rep1, this`rep2, this`rep3, this`len
      modifies rc`range, rc`code, rc`inPos, rc`stream, rc`trace, rc`mark, rc`markPos, rc`base, rc`basePos, rc.probs
      modifies dict`pos, dict`full, dict`history, dict.buf
      ensures dict.Valid() && dict.pos <= dict.limit && rc.Tracks() && old(rc.inPos) <= rc.inPos <= rc.inLimit + 21
      ensures rc.stream == old(rc.stream) + rc.input[old(rc.inPos)..rc.inPos]
      ensures ok ==>
                && Valid() && rc.range >= TOP && old(dict.pos) <= dict.pos
                && (old(dict.HasSpace()) ==> old(dict.pos) < dict.pos)
      ensures ok ==> Legal(old(TheSession()), ps) && TheSession() == Play(old(TheSession()), ps)
      ensures ok ==> rc.trace == SessionBits(old(rc.trace), props, old(TheSession()), ps)
      ensures ok ==> CutShort(ps, old(len)) && Windowed(old(TheSession()), ps, dict.end)
      ensures !ok ==> Stopped(old(TheSession()), old(rc.trace), ps) && old(dict.pos) <= dict.pos
    {
      hide Dictionary.Valid, RangeDecoder.Tracks, Legal, Play, SessionBits, LzCopy, Stopped;
      GroundedSession();
      ghost var s0, t0 := TheSession(), rc.trace;
      NoneYet(t0, props, s0);
      rc.Anchor();
      if dict.HasSpace() && len > 0 {
        var _ := CopyPending();
      }
      ok, ps := DecodeWhileSpace(s0, t0);
      if ok {
        rc.Normalize();
      }
    }

    /** A copy still pending is a part of the last packet's, or what is left of an earlier one. */
    ghost predicate CutShort(ps: Packets, before: nat)
      reads this`len
    {
      if ps.Add? then len < PacketLength(ps.last) else len <= before
    }

    /** Where decoding stopped: after `ps.prev`, at a packet that copies from outside the window. */
    ghost predicate Stopped(s0: Session, t0: Bits, ps: Packets)
      reads this, rc, dict
    {
      && PropsSet() && dict.HasSpace() && Strays(t0, props, s0, ps, dict.end, rc.trace)
      && dict.history == Play(s0, ps.prev).history
    }

    /** Where decoding stands: `ps` decoded since session `s0`, adding their bits to `t0`. */
    ghost predicate Standing(s0: Session, t0: Bits, ps: Packets)
      reads this, rc, dict, dict.buf
      requires Valid()
    {
      && Legal(s0, ps) && Windowed(s0, ps, dict.end)
      && TheSession() == Play(s0, ps) && rc.trace == SessionBits(t0, props, s0, ps)
    }

    method Advance(ghost s0: Session, ghost t0: Bits, ghost ps: Packets) returns (ok: bool, ghost ps': Packets)
      requires Valid() && Separate() && rc.Tracks() && rc.Anchored() && dict.HasSpace() && len == 0
      requires Standing(s0, t0, ps) && rc.inPos + 21 <= |rc.input|
      modifies this`state, this`rep0, this`rep1, this`rep2, this`rep3, this`len
      modifies rc`range, rc`code, rc`inPos, rc`stream, rc`trace, rc`mark, rc`markPos, rc.probs
      modifies dict`pos, dict`full, dict`history, dict.buf
      ensures dict.Valid() && dict.pos <= dict.limit && rc.Tracks() && rc.Anchored()
      ensures old(rc.inPos) <= rc.inPos <= old(rc.inPos) + 20
      ensures ok ==> Valid() && old(dict.pos) < dict.pos && (dict.HasSpace() ==> len == 0)
      ensures ok ==> Standing(s0, t0, ps') && CutShort(ps', 0)
      ensures !ok ==> Stopped(s0, t0, ps') && dict.pos == old(dict.pos)
    {
      GroundedSession();
      dict.FullIsWindow();
      hide Dictionary.Valid, RangeDecoder.Tracks, Legal, Play, SessionBits, PacketBits, LzCopy, After, Expand, PropsSet,
        Windowed;
      ghost var p;
      ok, p := Symbol();
      ps' := Add(ps, p);
      if ok {
        Extend(t0, props, s0, ps, p);
        ExtendWindowed(s0, ps, p, dict.end);
      }
    }

    method DecodeWhileSpace(ghost s0: Session, ghost t0: Bits) returns (ok: bool, ghost ps: Packets)
      requires Valid() && Separate() && rc.Tracks() && rc.Anchored()
      requires rc.inPos <= rc.inLimit && rc.inLimit + 21 <= |rc.input|
      requires Standing(s0, t0, NoPackets) && (dict.HasSpace() ==> len == 0) && dict.pos <= dict.limit
      modifies this`state, this`rep0, this`rep1, this`rep2, this`rep3, this`len
      modifies rc`range, rc`code, rc`inPos, rc`stream, rc`trace, rc`mark, rc`markPos, rc.probs
      modifies dict`pos, dict`full, dict`history, dict.buf
      ensures dict.Valid() && dict.pos <= dict.limit && rc.Tracks() && rc.Anchored()
      ensures old(rc.inPos) <= rc.inPos <= rc.inLimit + 20
      ensures ok ==> Valid() && old(dict.pos) <= dict.pos && (old(dict.HasSpace()) ==> old(dict.pos) < dict.pos)
      ensures ok ==> Standing(s0, t0, ps) && CutShort(ps, old(len))
      ensures !ok ==> Stopped(s0, t0, ps) && old(dict.pos) <= dict.pos
    {
      hide Dictionary.Valid, RangeDecoder.Tracks, Standing, Stopped;
      ps := NoPackets;
      while dict.HasSpace() && rc.inPos <= rc.inLimit
        invariant Valid() && rc.Tracks() && rc.Anchored() && (dict.HasSpace() ==> len == 0) && Standing(s0, t0, ps)
        invariant CutShort(ps, old(len))
        invariant old(dict.pos) <= dict.pos <= dict.limit && (dict.pos == old(dict.pos) ==> rc.inPos == old(rc.inPos))
        invariant old(rc.inPos) <= rc.inPos <= rc.inLimit + 20
        decreases dict.limit - dict.pos
      {
        ok, ps := Advance(s0, t0, ps);
        if !ok {
          return;
        }
      }
      ok := true;
    }

    lemma GroundedSession()
      requires Valid()
      ensures len > 0 ==> rep0 < |dict.history|
      ensures Grounded(TheSession())
      ensures len == 0 ==> Whole() == dict.history
    {
      if len > 0 {
        LzCopyBytes(dict.history, rep0, len);
      }
    }

    lemma PosStateFits()
      requires PropsSet() && dict.Valid()
      ensures BitAnd(dict.pos, posMask) == PosState(props, dict.history) < 16
    {
      PositionMask(|dict.history|, dict.pos, props.pb);
      Pow2Monotone(props.pb, 4);
      SmallPowers();
    }

    lemma FullBound()
      requires dict.Valid()
      ensures dict.full <= |dict.history|
    {
    }
  }
}
