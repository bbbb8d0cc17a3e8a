/** The GNU and System V symbol hashes, each computed by two loops in the repository. */
module SymbolHash {
  import opened BitArithmetic

  type Name = seq<byte>

  /** The GNU hash: 33 times the hash so far, plus the next byte. */
  function GnuHash(name: Name): u32 {
    if name == [] then 5381 else Wrap32(33 * GnuHash(name[..|name| - 1]) + name[|name| - 1])
  }

  /** The hash of chapter 5 of the System V gABI. */
  function SysvHash(name: Name): u32 {
    if name == [] then 0 else Folded(Wrap32(16 * SysvHash(name[..|name| - 1]) + name[|name| - 1]))
  }

  /** Moves the four top bits down onto bits 4 to 7. */
  function Folded(t: u32): u32 {
    var low, top := t % 0x1000_0000, t / 0x1000_0000;
    FoldedRange(low, top);
    BitXor(low, 16 * top)
  }

  lemma Powers()
    ensures Pow2(28) == 0x1000_0000 && Pow2(4) == 16
  {
    assert Pow2(4) == 16;
    Pow2Adds(4, 4);
    Pow2Adds(8, 4);
    Pow2Adds(12, 4);
    Pow2Adds(16, 4);
    Pow2Adds(20, 4);
    Pow2Adds(24, 4);
  }

  lemma FoldedRange(low: nat, top: nat)
    requires low < 0x1000_0000 && top < 16
    ensures BitXor(low, 16 * top) < 0x1000_0000
  {
    hide Pow2, BitXor;
    Powers();
    XorRange(low, 16 * top, 28);
  }

  /** The top bits of a word in place. */
  lemma TopBits(t: u32)
    ensures BitAnd(t, 0xF000_0000) == 0x1000_0000 * (t / 0x1000_0000)
  {
    hide Pow2, BitAnd, ShiftLeft;
    Powers();
    var low, top := t % 0x1000_0000, t / 0x1000_0000;
    ShiftIsTimes(top, 28);
    ShiftIsTimes(15, 28);
    AndSplit(low, top, 0, 15, 28);
    ShiftIsTimes(BitAnd(top, 15), 28);
    AndNothing(low);
    AndAllOnes(top, 4);
  }

  lemma AndNothing(a: nat)
    ensures BitAnd(a, 0) == 0
  {
  }

  /** Xor-ing the top bits away. */
  lemma FoldByXor(t: u32, g: nat)
    requires g == BitAnd(t, 0xF000_0000)
    ensures BitXor(BitXor(t, g), g / 0x100_0000) == Folded(t)
  {
    hide Pow2, BitXor, BitAnd, ShiftLeft;
    Powers();
    TopBits(t);
    var low, top := t % 0x1000_0000, t / 0x1000_0000;
    ShiftIsTimes(top, 28);
    XorSplit(low, top, 0, top, 28);
    ShiftIsTimes(BitXor(top, top), 28);
    XorZero(low);
    XorZero(top);
  }

  /** Masking the top bits off. */
  lemma FoldByMask(t: u32, g: nat)
    requires g == BitAnd(t, 0xF000_0000)
    ensures g < WORD32 && BitAnd(if g != 0 then BitXor(t, g / 0x100_0000) else t, WORD32 - 1 - g) == Folded(t)
  {
    hide Pow2, BitXor, BitAnd, ShiftLeft;
    Powers();
    TopBits(t);
    var low, top := t % 0x1000_0000, t / 0x1000_0000;
    ShiftIsTimes(top, 28);
    ShiftIsTimes(0, 28);
    XorSplit(low, top, 16 * top, 0, 28);
    XorZero(top);
    XorZero(t);
    var folded := BitXor(low, 16 * top);
    FoldedRange(low, top);
    ShiftIsTimes(15 - top, 28);
    AndSplit(folded, top, 0x0FFF_FFFF, 15 - top, 28);
    AndAllOnes(folded, 28);
    AndComplement(top);
  }

  lemma AndComplement(top: nat)
    requires top < 16
    ensures BitAnd(top, 15 - top) == 0
  {
    AndStep(top, 15 - top);
    AndStep(top / 2, (15 - top) / 2);
    AndStep(top / 2 / 2, (15 - top) / 2 / 2);
    AndStep(top / 2 / 2 / 2, (15 - top) / 2 / 2 / 2);
  }

  lemma GnuSteps(h: u32, c: byte)
    ensures Wrap32(h + Wrap32(Wrap32(32 * h) + c)) == Wrap32(33 * h + c)
    ensures Wrap32(Wrap32(Wrap32(32 * h) + h) + c) == Wrap32(33 * h + c)
  {
    hide Wrap32;
    Wrap32Adds(32 * h, c);
    Wrap32Adds(32 * h + c, h);
    Wrap32Adds(32 * h, h);
    Wrap32Adds(33 * h, c);
  }

  lemma SysvSteps(h: u32, c: byte)
    ensures Wrap32(Wrap32(16 * h) + c) == Wrap32(16 * h + c)
  {
    Wrap32Adds(16 * h, c);
  }

  lemma GnuNext(name: Name, i: nat)
    requires i < |name|
    ensures GnuHash(name[..i + 1]) == Wrap32(33 * GnuHash(name[..i]) + name[i])
  {
    hide Wrap32;
    assert name[..i + 1][..i] == name[..i];
  }

  lemma SysvNext(name: Name, i: nat)
    requires i < |name|
    ensures SysvHash(name[..i + 1]) == Folded(Wrap32(16 * SysvHash(name[..i]) + name[i]))
  {
    hide Folded, Wrap32;
    assert name[..i + 1][..i] == name[..i];
  }

  /** The linker's loops. */
  method LinkerGnuHash(name: Name) returns (h: u32)
    ensures h == GnuHash(name)
  {
    hide Wrap32;
    h := 5381;
    for i := 0 to |name|
      invariant h == GnuHash(name[..i])
    {
      GnuNext(name, i);
      GnuSteps(h, name[i]);
      h := Wrap32(h as int + Wrap32(Wrap32(32 * h as int) as int + name[i] as int));
    }
    assert name[..|name|] == name;
  }

  method LinkerSysvHash(name: Name) returns (h: u32)
    ensures h == SysvHash(name)
  {
    hide Wrap32, Folded, BitXor, BitAnd;
    h := 0;
    for i := 0 to |name|
      invariant h == SysvHash(name[..i])
    {
      SysvNext(name, i);
      SysvSteps(h, name[i]);
      var t := Wrap32(Wrap32(16 * h as int) as int + name[i] as int);
      var g := BitAnd(t, 0xF000_0000);
      FoldByXor(t, g);
      var cleared := BitXor(t, g);
      h := BitXor(cleared, g / 0x100_0000);
    }
    assert name[..|name|] == name;
  }

  /** The ELF parser's loops. */
  method ParserGnuHash(name: Name) returns (h: u32)
    ensures h == GnuHash(name)
  {
    hide Wrap32;
    h := 5381;
    for i := 0 to |name|
      invariant h == GnuHash(name[..i])
    {
      GnuNext(name, i);
      GnuSteps(h, name[i]);
      h := Wrap32(Wrap32(Wrap32(32 * h as int) as int + h as int) as int + name[i] as int);
    }
    assert name[..|name|] == name;
  }

  method ParserSysvHash(name: Name) returns (h: u32)
    ensures h == SysvHash(name)
  {
    hide Wrap32, Folded, BitXor, BitAnd;
    h := 0;
    for i := 0 to |name|
      invariant h == SysvHash(name[..i])
    {
      SysvNext(name, i);
      SysvSteps(h, name[i]);
      var t: nat := Wrap32(Wrap32(16 * h as int) as int + name[i] as int);
      var g := BitAnd(t, 0xF000_0000);
      FoldByMask(t, g);
      if g != 0 {
        t := BitXor(t, g / 0x100_0000);
      }
      h := BitAnd(t, WORD32 - 1 - g);
    }
    assert name[..|name|] == name;
  }

  /** A chain entry holds a hash but for its lowest bit; both ways of comparing look at the other 31. */
  lemma ChainComparisons(entry: u32, hash: u32)
    ensures BitOr(entry, 1) == BitOr(hash, 1) <==> entry / 2 == hash / 2
    ensures BitXor(entry, hash) / 2 == 0 <==> entry / 2 == hash / 2
  {
    OrZero(entry / 2);
    OrZero(hash / 2);
    XorStep(entry, hash);
    XorSame(entry / 2, hash / 2);
  }

  // ----- closed forms -----

  function Power(b: nat, k: nat): nat {
    if k == 0 then 1 else b * Power(b, k - 1)
  }

  /** The first i bytes of a name as digits of its value to a base: the byte at j weighs base to the |name| - 1 - j. */
  function Value(name: Name, base: nat, i: nat): nat
    requires i <= |name|
  {
    if i == 0 then 0 else Value(name, base, i - 1) + name[i - 1] * Power(base, |name| - i)
  }

  /** One more byte makes all before it weigh base times as much. */
  lemma {:induction false} ValueShifts(name: Name, c: byte, base: nat, i: nat)
    requires i <= |name|
    ensures Value(name + [c], base, i) == base * Value(name, base, i)
    decreases i
  {
    if i > 0 {
      ValueShifts(name, c, base, i - 1);
      Heavier(name[i - 1], base, Power(base, |name| - i));
      assert base * (Value(name, base, i - 1) + name[i - 1] * Power(base, |name| - i))
          == base * Value(name, base, i - 1) + base * (name[i - 1] * Power(base, |name| - i));
    }
  }

  lemma Heavier(c: nat, base: nat, w: nat)
    ensures c * (base * w) == base * (c * w)
  {
  }

  lemma ValueNext(name: Name, c: byte, base: nat)
    ensures Value(name + [c], base, |name| + 1) == base * Value(name, base, |name|) + c
  {
    ValueShifts(name, c, base, |name|);
    assert Power(base, 0) == 1;
  }

  lemma WrapScaled(k: nat, x: nat, c: nat)
    ensures Wrap32(k * Wrap32(x) + c) == Wrap32(k * x + c)
  {
    var q := x / WORD32;
    assert k * x + c == k * Wrap32(x) + c + WORD32 * (k * q) by {
      assert k * (Wrap32(x) + WORD32 * q) == k * Wrap32(x) + k * (WORD32 * q);
      Heavier(k, WORD32, q);
    }
    Rounds(k * Wrap32(x) + c, k * q);
  }

  lemma Rounds(y: nat, n: nat)
    ensures Wrap32(y + WORD32 * n) == Wrap32(y)
  {
  }

  /** The GNU hash of any name in one formula: a polynomial in 33 with leading coefficient 5381, modulo 2^32. */
  lemma {:induction false} GnuClosed(name: Name)
    ensures GnuHash(name) == Wrap32(5381 * Power(33, |name|) + Value(name, 33, |name|))
  {
    hide Wrap32;
    if name == [] {
      Small(5381);
    } else {
      var n := |name| - 1;
      var rest, c := name[..n], name[n];
      assert rest + [c] == name;
      GnuClosed(rest);
      ValueNext(rest, c, 33);
      WrapScaled(33, 5381 * Power(33, n) + Value(rest, 33, n), c);
      Heavier(5381, 33, Power(33, n));
    }
  }

  lemma Small(x: nat)
    requires x < WORD32
    ensures Wrap32(x) == x
  {
  }

  /**
   The System V hash never has its top four bits, so it is the value of the name in base 16 exactly while
   that has not.
   */
  lemma {:induction false} SysvClosed(name: Name)
    ensures SysvHash(name) < 0x1000_0000
    ensures SysvHash(name) == Value(name, 16, |name|) <==> Value(name, 16, |name|) < 0x1000_0000
  {
    hide BitXor;
    if name != [] {
      var n := |name| - 1;
      var rest, c := name[..n], name[n];
      assert rest + [c] == name;
      SysvClosed(rest);
      ValueNext(rest, c, 16);
      var t := Wrap32(16 * SysvHash(rest) + c);
      FoldedRange(t % 0x1000_0000, t / 0x1000_0000);
      if Value(name, 16, |name|) < 0x1000_0000 {
        Small(16 * SysvHash(rest) + c);
        XorZero(t);
      }
    }
  }

  /** No name of up to five bytes folds, and none of six ASCII characters. */
  lemma ShortNames(name: Name)
    requires |name| <= 5 || (|name| == 6 && forall i :: 0 <= i < 6 ==> name[i] < 0x80)
    ensures SysvHash(name) == Value(name, 16, |name|)
  {
    SysvClosed(name);
    if |name| == 6 {
      SixteenTo(6);
      ValueBound(name, 0x7F, 6);
    } else {
      SixteenTo(|name|);
      ValueBound(name, 0xFF, |name|);
    }
  }

  lemma SixteenTo(n: nat)
    ensures n == 6 ==> Power(16, n) == 0x100_0000
    ensures n <= 5 ==> 1 <= Power(16, n) <= 0x10_0000
  {
    if n <= 6 {
      assert Power(16, 1) == 16 && Power(16, 2) == 0x100 && Power(16, 3) == 0x1000;
      assert Power(16, 4) == 0x1_0000 && Power(16, 5) == 0x10_0000 && Power(16, 6) == 0x100_0000;
    }
  }

  lemma {:induction false} ValueBound(name: Name, top: nat, i: nat)
    requires i <= |name| <= 6 && forall j :: 0 <= j < |name| ==> name[j] <= top
    ensures Value(name, 16, i) * 15 <= top * (Power(16, |name|) - Power(16, |name| - i))
    decreases i
  {
    if i > 0 {
      ValueBound(name, top, i - 1);
      var w := Power(16, |name| - i);
      assert Power(16, |name| - i + 1) == 16 * w;
      assert name[i - 1] * w <= top * w by { Scaled(name[i - 1], top, w); }
      Distribute(top, Power(16, |name|), 16 * w, w);
    } else {
      assert Power(16, |name|) - Power(16, |name|) == 0;
    }
  }

  lemma Scaled(a: nat, b: nat, w: nat)
    requires a <= b
    ensures a * w <= b * w
  {
  }

  lemma Distribute(t: nat, p: int, q: int, w: int)
    requires q == 16 * w
    ensures t * (p - q) + 15 * (t * w) == t * (p - w)
  {
  }

  /** What folding does, bit by bit: the top four go away, and bits 4 to 7 are xor-ed with them. */
  lemma FoldedBits(t: u32, k: nat)
    ensures k >= 28 ==> BitOf(Folded(t), k) == 0
    ensures k < 28 ==> BitOf(Folded(t), k) == if 4 <= k < 8 then (BitOf(t, k) + BitOf(t, k + 24)) % 2 else BitOf(t, k)
  {
    hide BitXor, Pow2, ShiftRight;
    Powers();
    var low, top := t % 0x1000_0000, t / 0x1000_0000;
    FoldedRange(low, top);
    if k >= 28 {
      HighBits(Folded(t), 28, k);
    } else {
      XorBits(low, 16 * top, k);
      BitsBelow(t, 28, k);
      ShiftIsTimes(top, 4);
      if k < 4 {
        BitsUp(top, 4, k);
      } else {
        BitsUp(top, 4, k);
        DivisionShifts(t, 28);
        ShiftTwice(t, 28, k - 4);
        if k >= 8 {
          HighBits(top, 4, k - 4);
        }
      }
    }
  }

  lemma HighBits(v: nat, n: nat, k: nat)
    requires v < Pow2(n) && n <= k
    ensures BitOf(v, k) == 0
  {
    Pow2Monotone(n, k);
    ShiftedOut(v, k);
  }

  lemma {:induction false} XorBits(a: nat, b: nat, k: nat)
    ensures BitOf(BitXor(a, b), k) == (BitOf(a, k) + BitOf(b, k)) % 2
  {
    hide BitXor;
    XorStep(a, b);
    if k > 0 {
      HalfFirst(BitXor(a, b), k - 1);
      HalfFirst(a, k - 1);
      HalfFirst(b, k - 1);
      XorBits(a / 2, b / 2, k - 1);
    }
  }

  /** Shifting moves bits up and fills with zeros. */
  lemma BitsUp(v: nat, n: nat, k: nat)
    ensures BitOf(ShiftLeft(v, n), k) == if k < n then 0 else BitOf(v, k - n)
  {
    hide ShiftLeft, ShiftRight;
    if k < n {
      ShiftOfSum(0, v, n, k);
      ShiftedOut(0, k);
      ShiftedEven(v, n - k);
    } else {
      ShiftedBack(v, n);
      ShiftTwice(ShiftLeft(v, n), n, k - n);
    }
  }

  /** The hashes of "exit", and of "syscall", which folds at its last byte. */
  lemma KnownNames()
    ensures GnuHash([101, 120, 105, 116]) == 0x7C96_7E3F
    ensures SysvHash([115, 121, 115, 99, 97, 108, 108]) == 0xB09_985C
  {
    GnuOfExit([101, 120, 105, 116]);
    SysvOfSyscall([115, 121, 115, 99, 97, 108, 108]);
  }

  lemma GnuOfExit(name: Name)
    requires name == [101, 120, 105, 116]
    ensures GnuHash(name) == 0x7C96_7E3F
  {
    hide GnuHash;
    NoName();
    GnuNext(name, 0);
    GnuNext(name, 1);
    GnuNext(name, 2);
    GnuNext(name, 3);
    assert name[..0] == [] && name[..4] == name;
  }

  lemma NoName()
    ensures GnuHash([]) == 5381 && SysvHash([]) == 0
  {
  }

  lemma SysvOfSyscall(name: Name)
    requires name == [115, 121, 115, 99, 97, 108, 108]
    ensures SysvHash(name) == 0xB09_985C
  {
    hide SysvHash, Folded;
    NoName();
    SysvUnfolded(name, 0, 0);
    SysvUnfolded(name, 1, 0x73);
    SysvUnfolded(name, 2, 0x7A9);
    SysvUnfolded(name, 3, 0x7B03);
    SysvUnfolded(name, 4, 0x7_B093);
    SysvUnfolded(name, 5, 0x7B_0991);
    SysvNext(name, 6);
    SevenFolds();
    assert name[..0] == [] && name[..7] == name;
  }

  lemma SysvUnfolded(name: Name, i: nat, h: u32)
    requires i < |name| && SysvHash(name[..i]) == h && 16 * h + name[i] < 0x1000_0000
    ensures SysvHash(name[..i + 1]) == 16 * h + name[i]
  {
    hide BitXor, SysvHash;
    SysvNext(name, i);
    XorZero(16 * h + name[i]);
    Small(16 * h + name[i]);
  }

  lemma SevenFolds()
    ensures Folded(0x7B09_982C) == 0xB09_985C
  {
    hide Pow2, BitXor, ShiftLeft;
    EightBits();
    ShiftIsTimes(0xB_0998, 8);
    ShiftIsTimes(0, 8);
    XorSplit(0x2C, 0xB_0998, 0x70, 0, 8);
    XorZero(0xB_0998);
    XorStep(0x2C, 0x70);
    XorStep(0x16, 0x38);
    XorStep(0xB, 0x1C);
    XorStep(5, 0xE);
    XorStep(2, 7);
    XorStep(1, 3);
    XorZero(1);
    XorStep(0, 1);
    XorStep(0, 0);
  }

  lemma EightBits()
    ensures Pow2(8) == 0x100
  {
  }
}
