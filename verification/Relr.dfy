/**
 RELR relative relocations: an even entry is an offset, an odd entry a bitmap of the 63 words
 that follow. The decoder is the loop of the linker; the encoder is the one of the System V
 gABI, and decoding inverts it.
 */
module Relr {
  import opened BitArithmetic
  import opened Sleb128

  const BITMAP_SPAN: nat := 504

  /** The words that a bitmap selects, from `where` on. */
  function Selected(bits: nat, where: u64): seq<u64> {
    if bits == 0 then []
    else (if bits % 2 == 1 then [where] else []) + Selected(bits / 2, Wrap64(where + 8))
  }

  /** The addresses that a table selects, with the next word of a bitmap at `base`. */
  function Decode(table: seq<u64>, bias: u64, base: u64): seq<u64> {
    if table == [] then []
    else if table[0] % 2 == 0 then [Wrap64(bias + table[0])] + Decode(table[1..], bias, Wrap64(bias + table[0] + 8))
    else Selected(table[0] / 2, base) + Decode(table[1..], bias, Wrap64(base + BITMAP_SPAN))
  }

  /** The linker's loop. A bitmap before any address counts from 0. */
  method ForEachRelr(table: seq<u64>, bias: u64) returns (out: seq<u64>)
    ensures out == Decode(table, bias, 0)
  {
    hide Wrap64;
    var base: u64 := 0;
    out := [];
    for i := 0 to |table|
      invariant out + Decode(table[i..], bias, base) == Decode(table, bias, 0)
    {
      var entry := table[i];
      assert table[i..][1..] == table[i + 1..];
      if entry % 2 == 0 {
        base := Wrap64(bias + entry);
        out := out + [base];
        Wrap64Adds(bias + entry, 8);
        base := Wrap64(base as int + 8);
      } else {
        var words := SelectWords(entry / 2, base);
        out := out + words;
        base := Wrap64(base as int + BITMAP_SPAN);
      }
    }
  }

  method SelectWords(bitmap: nat, base: u64) returns (words: seq<u64>)
    ensures words == Selected(bitmap, base)
  {
    hide Wrap64, Selected;
    var where, bits := base, bitmap;
    words := [];
    while bits != 0
      invariant words + Selected(bits, where) == Selected(bitmap, base)
    {
      SelectedStep(bits / 2, where);
      if bits % 2 == 1 {
        words := words + [where];
      }
      where := Wrap64(where as int + 8);
      bits := bits / 2;
    }
    SelectedNone(where);
  }

  lemma SelectedNone(where: u64)
    ensures Selected(0, where) == []
  {
  }

  /** Bit k of a bitmap stands for the k-th word from its base: what is selected has such a bit, */
  lemma {:induction false} SelectedHasBit(bits: nat, where: u64, x: u64) returns (k: nat)
    requires x in Selected(bits, where)
    ensures BitOf(bits, k) == 1 && x == Wrap64(where + 8 * k)
    decreases bits
  {
    hide Wrap64;
    if bits % 2 == 1 && x == where {
      k := 0;
      AlreadyWord(where);
    } else {
      k := SelectedHasBit(bits / 2, Wrap64(where + 8), x);
      HalfFirst(bits, k);
      Wrap64Adds(where + 8, 8 * k);
      k := k + 1;
    }
  }

  /** and what has such a bit is selected. */
  lemma {:induction false} BitIsSelected(bits: nat, where: u64, k: nat)
    requires BitOf(bits, k) == 1
    ensures Wrap64(where + 8 * k) in Selected(bits, where)
    decreases k
  {
    hide Wrap64;
    if k == 0 {
      AlreadyWord(where);
    } else {
      HalfFirst(bits, k - 1);
      BitIsSelected(bits / 2, Wrap64(where + 8), k - 1);
      Wrap64Adds(where + 8, 8 * (k - 1));
      if bits == 0 {
        ShiftedOut(0, k);
      }
    }
  }

  lemma AlreadyWord(w: u64)
    ensures Wrap64(w) == w
  {
  }

  lemma OneSelected(where: u64)
    ensures Selected(1, where) == [where]
  {
    SelectedNone(Wrap64(where as int + 8));
  }

  /** An address, a bitmap for the words behind it, and one for those 63 words further on. */
  lemma ThreeEntries(bias: u64)
    ensures Decode([0x1000, 5, 3], bias, 0) == [Wrap64(bias + 0x1000), Wrap64(bias + 0x1010), Wrap64(bias + 0x1200)]
  {
    hide Wrap64;
    var t: seq<u64> := [0x1000, 5, 3];
    assert t[1..] == [5, 3] && t[1..][1..] == [3] && t[1..][1..][1..] == [];
    var base := Wrap64(bias + 0x1008);
    var next := Wrap64(base as int + BITMAP_SPAN);
    Wrap64Adds(bias + 0x1008, 8);
    Wrap64Adds(bias + 0x1008, BITMAP_SPAN);
    OneSelected(next);
    OneSelected(Wrap64(base as int + 8));
    assert Selected(2, base) == [] + Selected(1, Wrap64(base as int + 8)) == [Wrap64(base as int + 8)];
    assert Decode([3], bias, next) == [next];
    assert Decode(t[1..], bias, base) == Selected(2, base) + Decode(t[1..][1..], bias, next);
  }

  // ----- the encoder -----

  predicate Aligned(x: nat) {
    x % 8 == 0
  }

  /** Distinct word-aligned offsets in order, none below `base`. */
  ghost predicate Ordered(offs: seq<nat>, base: nat) {
    && (forall i :: 0 <= i < |offs| ==> base <= offs[i] < WORD64 && Aligned(offs[i]))
    && (forall i, j :: 0 <= i < j < |offs| ==> offs[i] < offs[j])
  }

  /** How many of the offsets are among the n words from `base` on, and the bitmap that selects them. */
  function Covered(offs: seq<nat>, base: nat, n: nat): (k: nat)
    ensures k <= |offs|
    decreases n
  {
    if n == 0 || offs == [] then 0
    else if offs[0] == base then 1 + Covered(offs[1..], base + 8, n - 1)
    else Covered(offs, base + 8, n - 1)
  }

  function Bitmap(offs: seq<nat>, base: nat, n: nat): (bits: nat)
    ensures bits < Pow2(n)
    decreases n
  {
    if n == 0 || offs == [] then 0
    else if offs[0] == base then 1 + 2 * Bitmap(offs[1..], base + 8, n - 1)
    else 2 * Bitmap(offs, base + 8, n - 1)
  }

  /** An address entry for the first offset, and bitmaps as long as they select something. */
  function Encode(offs: seq<nat>): seq<u64>
    requires Ordered(offs, 0)
    decreases |offs|, 0
  {
    if offs == [] then [] else [offs[0]] + EncodeBitmaps(offs[1..], offs[0] + 8)
  }

  function EncodeBitmaps(offs: seq<nat>, base: nat): seq<u64>
    requires Ordered(offs, 0)
    decreases |offs|, 1
  {
    var k := Covered(offs, base, 63);
    if k == 0 then Encode(offs)
    else
      Pow2Of64();
      [2 * Bitmap(offs, base, 63) + 1] + EncodeBitmaps(offs[k..], base + BITMAP_SPAN)
  }

  function Biased(offs: seq<nat>, bias: u64): seq<u64> {
    seq(|offs|, i requires 0 <= i < |offs| => Wrap64(bias + offs[i]))
  }

  // ----- decoding inverts encoding -----

  lemma NextWord(x: nat)
    requires Aligned(x)
    ensures Aligned(x + 8)
  {
  }

  lemma EvenWord(x: nat)
    requires Aligned(x)
    ensures x % 2 == 0
  {
    var half := 4 * (x / 8);
    TwiceEven(half);
  }

  lemma TwiceEven(h: nat)
    ensures 2 * h % 2 == 0
  {
  }

  lemma WordApart(x: nat, y: nat)
    requires Aligned(x) && Aligned(y) && x < y
    ensures x + 8 <= y
  {
    var q, r := x / 8, y / 8;
    assert x == 8 * q && y == 8 * r;
  }

  /** The first offset is at `base`, or there is none there; what follows it starts a word later. */
  lemma OrderedStep(offs: seq<nat>, base: nat)
    requires Ordered(offs, base) && Aligned(base) && offs != []
    ensures Ordered(offs[1..], offs[0] + 8) && Aligned(offs[0] + 8) && Aligned(base + 8) && offs[0] % 2 == 0
    ensures offs[0] < WORD64
    ensures offs[0] != base ==> Ordered(offs, base + 8)
  {
    hide Aligned;
    NextWord(base);
    NextWord(offs[0]);
    EvenWord(offs[0]);
    forall i | 0 <= i < |offs|
      ensures offs[0] < offs[i] ==> offs[0] + 8 <= offs[i]
      ensures base < offs[i] ==> base + 8 <= offs[i]
    {
      if offs[0] < offs[i] {
        WordApart(offs[0], offs[i]);
      }
      if base < offs[i] {
        WordApart(base, offs[i]);
      }
    }
  }

  lemma OrderedAnyway(offs: seq<nat>, base: nat, lower: nat)
    requires Ordered(offs, base) && lower <= base
    ensures Ordered(offs, lower)
  {
  }

  lemma BiasedHead(offs: seq<nat>, bias: u64)
    requires offs != []
    ensures Biased(offs, bias) == [Wrap64(bias + offs[0])] + Biased(offs[1..], bias)
  {
    hide Wrap64;
  }

  lemma BiasedSplit(offs: seq<nat>, bias: u64, k: nat)
    requires k <= |offs|
    ensures Biased(offs, bias) == Biased(offs[..k], bias) + Biased(offs[k..], bias)
  {
    hide Wrap64;
  }

  lemma SelectedStep(bits: nat, where: u64)
    ensures Selected(1 + 2 * bits, where) == [where] + Selected(bits, Wrap64(where + 8))
    ensures Selected(2 * bits, where) == Selected(bits, Wrap64(where + 8))
  {
    hide Wrap64;
    HalfOfSum(0, bits);
    HalfOfSum(1, bits);
  }

  /** What a bitmap covers it selects, and no more; the rest lies behind it. */
  lemma {:induction false} BitmapSelects(offs: seq<nat>, base: nat, n: nat, bias: u64)
    requires Ordered(offs, base) && Aligned(base)
    ensures Selected(Bitmap(offs, base, n), Wrap64(bias + base)) == Biased(offs[..Covered(offs, base, n)], bias)
    ensures Ordered(offs[Covered(offs, base, n)..], base + 8 * n)
    decreases n
  {
    hide Wrap64, Ordered, Biased, Pow2, Selected, Aligned;
    if n > 0 && offs != [] {
      Wrap64Adds(bias + base, 8);
      OrderedStep(offs, base);
      if offs[0] == base {
        var tail, k := offs[1..], Covered(offs[1..], base + 8, n - 1);
        SelectedStep(Bitmap(tail, base + 8, n - 1), Wrap64(bias + base));
        BitmapSelects(tail, base + 8, n - 1, bias);
        assert offs[1 + k..] == tail[k..];
        BiasedHead(offs[..1 + k], bias);
        assert offs[..1 + k][1..] == tail[..k];
      } else {
        SelectedStep(Bitmap(offs, base + 8, n - 1), Wrap64(bias + base));
        BitmapSelects(offs, base + 8, n - 1, bias);
      }
    } else {
      NothingLeft(offs, base, n, bias);
    }
  }

  lemma NothingLeft(offs: seq<nat>, base: nat, n: nat, bias: u64)
    requires n == 0 || offs == []
    requires Ordered(offs, base)
    ensures Selected(0, Wrap64(bias + base)) == Biased(offs[..0], bias) == [] && Ordered(offs[0..], base + 8 * n)
  {
    assert offs[0..] == offs;
  }

  lemma {:induction false} BitmapsRoundTrip(offs: seq<nat>, base: nat, bias: u64)
    requires Ordered(offs, base) && Aligned(base)
    ensures Ordered(offs, 0) && Decode(EncodeBitmaps(offs, base), bias, Wrap64(bias + base)) == Biased(offs, bias)
    decreases |offs|, 1
  {
    hide Wrap64, Selected, Bitmap, Covered, Ordered, Biased, Pow2;
    OrderedAnyway(offs, base, 0);
    var k := Covered(offs, base, 63);
    if k == 0 {
      EncodeRoundTrip(offs, bias, Wrap64(bias + base));
    } else {
      BitmapSelects(offs, base, 63, bias);
      Wrap64Adds(bias + base, BITMAP_SPAN);
      BitmapsRoundTrip(offs[k..], base + BITMAP_SPAN, bias);
      BiasedSplit(offs, bias, k);
      Pow2Of64();
      DecodeBitmap(2 * Bitmap(offs, base, 63) + 1, EncodeBitmaps(offs[k..], base + BITMAP_SPAN), bias,
          Wrap64(bias + base));
    }
  }

  lemma DecodeBitmap(entry: u64, table: seq<u64>, bias: u64, base: u64)
    requires entry % 2 == 1
    ensures Decode([entry] + table, bias, base)
            == Selected(entry / 2, base) + Decode(table, bias, Wrap64(base + BITMAP_SPAN))
  {
    hide Wrap64, Selected;
    assert ([entry] + table)[1..] == table;
  }

  lemma DecodeAddress(entry: u64, table: seq<u64>, bias: u64, base: u64)
    requires entry % 2 == 0
    ensures Decode([entry] + table, bias, base)
            == [Wrap64(bias + entry)] + Decode(table, bias, Wrap64(bias + (entry + 8)))
  {
    hide Wrap64, Selected;
    assert ([entry] + table)[1..] == table;
  }

  lemma DecodeNothing(bias: u64, base: u64)
    ensures Decode([], bias, base) == []
  {
  }

  /** Every increasing list of word-aligned offsets is decoded from its encoding, each offset once and in order. */
  lemma {:induction false} EncodeRoundTrip(offs: seq<nat>, bias: u64, base: u64)
    requires Ordered(offs, 0)
    ensures Decode(Encode(offs), bias, base) == Biased(offs, bias)
    decreases |offs|, 0
  {
    hide Wrap64, Ordered, Biased, EncodeBitmaps, Decode;
    if offs == [] {
      NothingLeft(offs, 0, 0, bias);
      DecodeNothing(bias, base);
    } else {
      OrderedStep(offs, 0);
      BitmapsRoundTrip(offs[1..], offs[0] + 8, bias);
      DecodeAddress(offs[0], EncodeBitmaps(offs[1..], offs[0] + 8), bias, base);
      BiasedHead(offs, bias);
    }
  }
}
