/**
 The range decoder as the C code runs it: fields updated in place, bits read one at a time,
 probabilities adapted in one flat array. The ghost `trace` records the bits decoded since
 `origin`; `Valid` says the fields are exactly what decoding those bits leads to.
 */
module RangeDecoding {
  import opened BitArithmetic
  import opened Options
  import opened RangeCoder

  /** 1846 probabilities followed by 16 literal coders of 0x300 each. */
  const PROBS_TOTAL: nat := 14134

  // ----- how values are spelled in bits (the encoder's side) -----

  /** The bits that lead from the root of a bit tree to node `symbol`. */
  function TreePath(t: Bits, base: nat, symbol: nat): Bits {
    if symbol <= 1 then t
    else Then(TreePath(t, base, symbol / 2), Modelled(base + symbol / 2, symbol % 2 == 1))
  }

  /** The node reached after the low `k` bits of `v`, lowest first. */
  function ReverseNode(k: nat, v: nat): nat {
    if k == 0 then 1 else 2 * ReverseNode(k - 1, v % Pow2(k - 1)) + v / Pow2(k - 1) % 2
  }

  /** The `k` bits of `v`, lowest first, down a reverse bit tree. */
  function ReversePath(t: Bits, base: nat, k: nat, v: nat): Bits {
    if k == 0 then t
    else var low := v % Pow2(k - 1);
         Then(ReversePath(t, base, k - 1, low),
              Modelled(base + ReverseNode(k - 1, low), v / Pow2(k - 1) % 2 == 1))
  }

  /** The `k` bits of `v`, highest first, without a model. */
  function DirectPath(t: Bits, k: nat, v: nat): Bits {
    if k == 0 then t else Then(DirectPath(t, k - 1, v / 2), Direct(v % 2 == 1))
  }

  lemma {:induction false} ReverseNodeRange(k: nat, v: nat)
    ensures Pow2(k) <= ReverseNode(k, v) < 2 * Pow2(k)
  {
    if k > 0 {
      ReverseNodeRange(k - 1, v % Pow2(k - 1));
    }
  }

  lemma ReverseStart(t: Bits, base: nat)
    ensures ReversePath(t, base, 0, 0) == t && ReverseNode(0, 0) == 1 && Pow2(0) == 1
  {
  }

  lemma AddHighBit(p: nat, v: nat, b: nat)
    requires v < p && b <= 1
    ensures (v + b * p) % p == v && (v + b * p) / p == b
  {
    if b == 1 {
      assert v + p == p * 1 + v;
    }
  }

  lemma ReverseExtend(t: Bits, base: nat, i: nat, v: nat, v': nat, bit: bool)
    requires v < Pow2(i) && v' == if bit then v + Pow2(i) else v
    ensures ReverseNode(i + 1, v') == 2 * ReverseNode(i, v) + if bit then 1 else 0
    ensures ReversePath(t, base, i + 1, v') == Then(ReversePath(t, base, i, v), Modelled(base + ReverseNode(i, v), bit))
  {
    AddHighBit(Pow2(i), v, if bit then 1 else 0);
  }

  /** The sign mask of a 32-bit difference selects between it and the value subtracted from. */
  lemma SignMask(code: nat, half: nat)
    requires code < WORD && half < WORD
    ensures var difference := (code - half) % WORD; var mask := (0 - difference / SIGN_BIT) % WORD;
            && (mask == 0 <==> difference < SIGN_BIT)
            && (mask + 1) % WORD == (if mask == 0 then 1 else 0)
            && (difference + half) % WORD == code
  {
    var difference := (code - half) % WORD;
    assert difference / SIGN_BIT == if difference < SIGN_BIT then 0 else 1;
  }

  class RangeDecoder {
    var range: nat
    var code: nat
    var initBytesLeft: nat
    var input: seq<byte>
    var inPos: nat
    var inLimit: nat
    const probs: array<nat>

    ghost var origin: Rc
    ghost var stream: seq<byte>
    ghost var trace: Bits
    ghost var mark: Bits
    ghost var markPos: nat
    ghost var base: seq<byte>
    ghost var basePos: nat

    /** The decoder's state, its position counted in the stream. */
    ghost function Current(): Rc
      reads this`range, this`code, this`stream, probs
    {
      Rc(range, code, |stream|, probs[..])
    }

    /** The state is what decoding `trace` from the bytes in `stream` leads to. */
    ghost predicate Tracks()
      reads this`range, this`code, this`stream, this`trace, this`origin, probs
    {
      && probs.Length == PROBS_TOTAL
      && ValidRc(origin) && origin.range * 67 >= TOP && |origin.probs| == PROBS_TOTAL
      && Follows(origin, stream, trace, Current())
    }

    /** The stream's latest bytes are those read from the present buffer. */
    ghost predicate Anchored()
      reads this
    {
      basePos <= inPos <= |input| && stream == base + input[basePos..inPos]
    }

    /** Inside a symbol that began at `mark`, with 21 bytes in the buffer from there. */
    ghost predicate InSymbol()
      reads this, probs
    {
      && Tracks() && Anchored() && Extends(mark, trace) && Replay(origin, stream, mark).Some?
      && markPos <= inPos && Replay(origin, stream, mark).value.pos <= |stream| - (inPos - markPos)
      && markPos + 21 <= |input|
    }

    /** Between two bits of a symbol. */
    ghost predicate Valid()
      reads this, probs
    {
      InSymbol() && (trace != mark ==> Replay(origin, stream, trace) == Some(Current()))
    }

    /** Modelled bits of the current symbol, which began at `mark`. */
    ghost function Used(): int
      reads this
    {
      ModelledCount(trace) - ModelledCount(mark)
    }

    ghost function UsedDirect(): int
      reads this
    {
      DirectCount(trace) - DirectCount(mark)
    }

    /** The symbol may still take `m` modelled and `d` direct bits. */
    ghost predicate Within(m: nat, d: nat)
      reads this
    {
      Affordable(Used() + m, UsedDirect() + d)
    }

    /** The symbol is complete: its bits are as many as a symbol has, and the last one is modelled. */
    ghost predicate SymbolDone()
      reads this
    {
      Within(0, 0) && LastModelled()
    }

    ghost predicate LastModelled()
      reads this
    {
      trace.Then? && trace.last.Modelled? && trace != mark
    }

    constructor ()
      ensures probs.Length == PROBS_TOTAL && WellModelled(probs[..]) && fresh(probs)
    {
      probs := new nat[PROBS_TOTAL](_ => 1024);
      range, code, initBytesLeft := WORD - 1, 0, 5;
      input, inPos, inLimit := [], 0, 0;
    }

    method Reset()
      modifies this`range, this`code, this`initBytesLeft
      ensures range == WORD - 1 && code == 0 && initBytesLeft == 5
    {
      range, code, initBytesLeft := WORD - 1, 0, 5;
    }

    /** Starts recording a new stream at the present state. */
    ghost method Begin()
      requires probs.Length == PROBS_TOTAL && WellModelled(probs[..]) && TOP <= range < WORD && code < WORD
      modifies this`origin, this`stream, this`trace
      ensures Tracks() && stream == [] && trace == Start && origin == Rc(range, code, 0, probs[..])
    {
      origin, stream, trace := Rc(range, code, 0, probs[..]), [], Start;
    }

    /** Turns to another buffer (or the same one further on). */
    ghost method Anchor()
      requires inPos <= |input|
      modifies this`base, this`basePos
      ensures Anchored() && base == stream && basePos == inPos
    {
      base, basePos := stream, inPos;
    }

    /** Reads a byte if the range has run low. */
    method Normalize()
      requires Tracks() && Anchored() && (range < TOP ==> inPos < |input|)
      modifies this`range, this`code, this`inPos, this`stream
      ensures Tracks() && Anchored() && range >= TOP && old(inPos) <= inPos <= old(inPos) + 1
      ensures stream == old(stream) + input[old(inPos)..inPos]
    {
      FollowsValid(origin, stream, trace, Current());
      if range < TOP {
        var x := input[inPos];
        FollowsByte(origin, stream, trace, Current(), x);
        range := range * 256;
        code := (code * 256 + x) % WORD;
        stream := stream + [x];
        inPos := inPos + 1;
      }
    }

    /** Starts the bit budget of a new symbol. */
    ghost method BeginSymbol()
      requires Tracks() && Anchored() && inPos + 21 <= |input|
      modifies this`mark, this`markPos
      ensures Valid() && markPos == inPos && Used() == 0 && UsedDirect() == 0
    {
      mark, markPos := trace, inPos;
    }

    /** A completed symbol has read at most 20 bytes. */
    lemma SymbolReads()
      requires Valid() && SymbolDone()
      ensures Tracks() && Anchored() && markPos <= inPos <= markPos + 20
    {
      SymbolBudget(origin, stream, mark, trace);
    }

    /** There is a byte for the next bit: the symbol's budget leaves one. */
    lemma RoomForBit()
      requires Valid() && Within(1, 0)
      ensures range < TOP ==> inPos < |input|
    {
      if range < TOP {
        FollowsValid(origin, stream, trace, Current());
        ReplayValid(origin, stream, trace);
        hide Narrow, NextBit;
        ReadBudget(origin, stream, mark, trace);
      }
    }

    /** Normalizes inside a symbol. */
    method Refill()
      requires Valid() && Within(1, 0)
      modifies this`range, this`code, this`inPos, this`stream
      ensures InSymbol() && range >= TOP && old(inPos) <= inPos
    {
      RoomForBit();
      ghost var s := stream;
      Normalize();
      ReplayExtend(origin, s, input[old(inPos)..inPos], mark);
    }

    /** Splits the range at the probability and takes the side the code is in. */
    method Decide(ctx: nat) returns (bit: bool)
      requires ValidRc(Current()) && ctx < probs.Length
      modifies this`range, this`code, probs
      ensures old(Applicable(Current(), Modelled(ctx, bit)) && NextBit(Current(), Modelled(ctx, bit)) == bit)
      ensures Current() == old(Narrow(Current(), Modelled(ctx, bit)))
    {
      ghost var s := Current();
      var p := probs[ctx];
      assert p == s.probs[ctx];
      TimesIsProduct(range / MODEL_TOTAL, p);
      BoundFits(range, p);
      var bound := range / MODEL_TOTAL * p;
      if code < bound {
        range := bound;
        probs[ctx] := p + (MODEL_TOTAL - p) / 32;
        bit := false;
      } else {
        range := range - bound;
        code := code - bound;
        probs[ctx] := p - p / 32;
        bit := true;
      }
      assert probs[..] == s.probs[ctx := Adapt(p, bit)];
    }

    method Bit(ctx: nat) returns (bit: bool)
      requires Valid() && Within(1, 0) && ctx < PROBS_TOTAL
      modifies this`range, this`code, this`inPos, this`stream, this`trace, probs
      ensures Valid() && trace == Then(old(trace), Modelled(ctx, bit)) && LastModelled()
      ensures Used() == old(Used()) + 1 && UsedDirect() == old(UsedDirect())
    {
      hide Replay, Follows, Narrow, NextBit;
      Refill();
      ghost var s := Current();
      FollowsValid(origin, stream, trace, s);
      bit := Decide(ctx);
      FollowsBit(origin, stream, trace, s, Modelled(ctx, bit));
      ExtendsGrows(mark, trace);
      trace := Then(trace, Modelled(ctx, bit));
    }

    /** Decodes `k` bits down a bit tree; the bits read are the path to the node returned. */
    method BitTree(base: nat, limit: nat, ghost k: nat) returns (symbol: nat)
      requires Valid() && Within(k, 0) && 0 < k && limit == Pow2(k) && base + limit <= PROBS_TOTAL
      modifies this`range, this`code, this`inPos, this`stream, this`trace, probs
      ensures Valid() && trace == TreePath(old(trace), base, symbol) && limit <= symbol < 2 * limit
      ensures Used() == old(Used()) + k && UsedDirect() == old(UsedDirect()) && SymbolDone()
    {
      hide Valid, ModelledCount, DirectCount;
      symbol := 1;
      ghost var i := 0;
      while symbol < limit
        invariant Valid() && i <= k && Pow2(i) <= symbol < 2 * Pow2(i)
        invariant trace == TreePath(old(trace), base, symbol) && (i > 0 ==> LastModelled())
        invariant Used() == old(Used()) + i && UsedDirect() == old(UsedDirect())
        decreases limit - symbol
      {
        Pow2Monotone(i, k);
        var bit := Bit(base + symbol);
        symbol := if bit then 2 * symbol + 1 else 2 * symbol;
        i := i + 1;
      }
      Pow2Monotone(i, k);
    }

    /** Bit `i` of a reverse tree, read at the node of the lower bits `v`. */
    method ReverseBit(base: nat, i: nat, symbol: nat, dest: nat, ghost v: nat, ghost t: Bits)
        returns (symbol': nat, dest': nat, ghost v': nat)
      requires Valid() && Within(1, 0) && base + 2 * Pow2(i) <= PROBS_TOTAL && v < Pow2(i)
      requires trace == ReversePath(t, base, i, v) && symbol == ReverseNode(i, v)
      modifies this`range, this`code, this`inPos, this`stream, this`trace, probs
      ensures Valid() && v' < Pow2(i + 1) && dest' - dest == v' - v
      ensures trace == ReversePath(t, base, i + 1, v') && symbol' == ReverseNode(i + 1, v')
      ensures LastModelled()
      ensures Used() == old(Used()) + 1 && UsedDirect() == old(UsedDirect())
    {
      hide Valid, ModelledCount, DirectCount, ReversePath, ReverseNode;
      ReverseNodeRange(i, v);
      var bit := Bit(base + symbol);
      symbol' := if bit then 2 * symbol + 1 else 2 * symbol;
      dest' := if bit then dest + Pow2(i) else dest;
      v' := if bit then v + Pow2(i) else v;
      ReverseExtend(t, base, i, v, v', bit);
    }

    /** Decodes `k` bits lowest first and adds them to `dest`. */
    method BitTreeReverse(base: nat, dest: nat, k: nat) returns (dest': nat, ghost v: nat)
      requires Valid() && Within(k, 0) && 0 < k && base + Pow2(k) <= PROBS_TOTAL && dest + Pow2(k) <= WORD
      modifies this`range, this`code, this`inPos, this`stream, this`trace, probs
      ensures Valid() && v < Pow2(k) && dest' == dest + v
      ensures trace == ReversePath(old(trace), base, k, v)
      ensures Used() == old(Used()) + k && UsedDirect() == old(UsedDirect()) && SymbolDone()
    {
      hide Valid, ModelledCount, DirectCount, ReversePath, ReverseNode, Pow2;
      ReverseStart(trace, base);
      var symbol := 1;
      dest', v := dest, 0;
      for i := 0 to k
        invariant Valid() && v < Pow2(i) && dest' == dest + v
        invariant symbol == ReverseNode(i, v) && trace == ReversePath(old(trace), base, i, v)
        invariant i > 0 ==> LastModelled()
        invariant Used() == old(Used()) + i && UsedDirect() == old(UsedDirect())
      {
        Pow2Monotone(i, k);
        symbol, dest', v := ReverseBit(base, i, symbol, dest', v, old(trace));
      }
    }

    /** Halves the range; the sign of a 32-bit difference says which half. */
    method Halve() returns (bit: bool)
      requires ValidRc(Current())
      modifies this`range, this`code
      ensures old(NextBit(Current(), Direct(bit)) == bit)
      ensures Current() == old(Narrow(Current(), Direct(bit)))
    {
      SignMask(code, range / 2);
      range := range / 2;
      var difference := (code - range) % WORD;
      var mask := (0 - difference / SIGN_BIT) % WORD;
      code := if mask == 0 then difference else (difference + range) % WORD;
      bit := (mask + 1) % WORD == 1;
    }

    method DirectBit() returns (bit: bool)
      requires Valid() && Within(1, 0)
      modifies this`range, this`code, this`inPos, this`stream, this`trace
      ensures Valid() && trace == Then(old(trace), Direct(bit))
      ensures Used() == old(Used()) && UsedDirect() == old(UsedDirect()) + 1
    {
      hide Replay, Follows, Narrow, NextBit;
      Refill();
      ghost var s := Current();
      FollowsValid(origin, stream, trace, s);
      bit := Halve();
      FollowsBit(origin, stream, trace, s, Direct(bit));
      ExtendsGrows(mark, trace);
      trace := Then(trace, Direct(bit));
    }

    /** Decodes `k` direct bits, highest first, shifting them into `dest`. */
    method DirectBits(dest: nat, k: nat) returns (dest': nat, ghost v: nat)
      requires Valid() && Within(1, k) && ShiftLeft(dest + 1, k) <= WORD
      modifies this`range, this`code, this`inPos, this`stream, this`trace
      ensures Valid() && v < Pow2(k) && dest' == ShiftLeft(dest, k) + v
      ensures trace == DirectPath(old(trace), k, v)
      ensures Used() == old(Used()) && UsedDirect() == old(UsedDirect()) + k
    {
      hide Valid, ModelledCount, DirectCount;
      dest', v := dest, 0;
      for i := 0 to k
        invariant Valid() && v < Pow2(i) && dest' == ShiftLeft(dest, i) + v
        invariant trace == DirectPath(old(trace), i, v)
        invariant Used() == old(Used()) && UsedDirect() == old(UsedDirect()) + i
      {
        var bit := DirectBit();
        v := 2 * v + if bit then 1 else 0;
        dest' := 2 * dest' + if bit then 1 else 0;
      }
    }
  }
}
