/**
 What relocating leaves in memory, read back word by word: each target holds what its type promises,
 whichever table the entry came from.
 */
module RelocationWords {
  import opened BitArithmetic
  import opened Options
  import opened PackedRelocs
  import opened Relocation
  import opened RelocationMeaning
  import Relr

  // ----- one list of entries -----

  function PackedEntries(t: Tables): seq<Reloc> {
    if t.packed != [] && Decode(t.packed).Finished? then Decode(t.packed).relocs else []
  }

  /** All entries in the order in which they are applied. */
  function Entries(t: Tables): seq<Reloc> {
    PackedEntries(t) + t.rela + t.rel + t.plt
  }

  /** Has entry i an addend of its own, or is it the word in place? */
  predicate Explicit(t: Tables, i: nat) {
    i < |PackedEntries(t)| + |t.rela| || (i >= |PackedEntries(t)| + |t.rela| + |t.rel| && t.pltIsRela)
  }

  /** Memory when RELR is done. */
  function Outset(img: Image, mem: Memory, t: Tables): Load {
    Load(AddBias(mem, Relr.Decode(t.relr, img.bias, 0), img.bias), true, NoError)
  }

  /** The entry at i, with the addend that it has when it is applied to m. */
  function Actual(img: Image, m: Memory, t: Tables, i: nat): Reloc
    requires i < |Entries(t)|
  {
    if Explicit(t, i) then Entries(t)[i] else Implicit(img, m, Entries(t)[i])
  }

  /** The load after n entries. */
  function Run(img: Image, mem: Memory, t: Tables, n: nat): Load
    requires n <= |Entries(t)|
    decreases n
  {
    if n == 0 then Outset(img, mem, t)
    else
      var before := Run(img, mem, t, n - 1);
      Apply(img, before, Actual(img, before.mem, t, n - 1))
  }

  // ----- a load that succeeds runs through it -----

  lemma {:induction false} PackedRuns(img: Image, mem: Memory, t: Tables, n: nat)
    requires n <= |PackedEntries(t)|
    ensures ApplyAll(img, Outset(img, mem, t), PackedEntries(t)[..n]) == Run(img, mem, t, n)
    decreases n
  {
    hide Apply, Outset, PackedEntries;
    if n > 0 {
      PackedRuns(img, mem, t, n - 1);
      assert PackedEntries(t)[..n][..n - 1] == PackedEntries(t)[..n - 1];
      assert Entries(t)[n - 1] == PackedEntries(t)[n - 1];
    }
  }

  /** A table applied from entry `a` on. */
  lemma {:induction false} TableRuns(img: Image, mem: Memory, t: Tables, rs: seq<Reloc>, a: nat, explicit: bool, n: nat)
    requires n <= |rs| && a + |rs| <= |Entries(t)| && Entries(t)[a..a + |rs|] == rs
    requires forall i: nat :: a <= i < a + |rs| ==> (Explicit(t, i) <==> explicit)
    requires explicit ==> ApplyWhileOk(img, Run(img, mem, t, a), rs).ok
    requires !explicit ==> ApplyImplicit(img, Run(img, mem, t, a), rs).ok
    ensures explicit ==> ApplyWhileOk(img, Run(img, mem, t, a), rs[..n]) == Run(img, mem, t, a + n)
    ensures !explicit ==> ApplyImplicit(img, Run(img, mem, t, a), rs[..n]) == Run(img, mem, t, a + n)
    ensures Run(img, mem, t, a + n).ok
    decreases n
  {
    hide Apply, Entries, Explicit, Implicit;
    FailedStays(img, Run(img, mem, t, a), rs, n);
    if n > 0 {
      TableRuns(img, mem, t, rs, a, explicit, n - 1);
      assert rs[..n][..n - 1] == rs[..n - 1];
      assert Entries(t)[a + n - 1] == Entries(t)[a..a + |rs|][n - 1] == rs[n - 1];
    }
  }

  lemma Pieces(t: Tables)
    ensures var p, q := |PackedEntries(t)|, |PackedEntries(t)| + |t.rela|;
            var r := q + |t.rel|;
            && |Entries(t)| == r + |t.plt|
            && Entries(t)[p..q] == t.rela && Entries(t)[q..r] == t.rel && Entries(t)[r..r + |t.plt|] == t.plt
  {
    hide PackedEntries;
  }

  lemma {:induction false} OkOnlyFalls(img: Image, s: Load, rs: seq<Reloc>)
    ensures !s.ok ==> !ApplyWhileOk(img, s, rs).ok && !ApplyImplicit(img, s, rs).ok
  {
    FailedStays(img, s, rs, 0);
  }

  /** What a successful load leaves is what its entries leave one after another. */
  lemma LoadRuns(img: Image, mem: Memory, t: Tables)
    requires Relocated(img, mem, t).Some? && Relocated(img, mem, t).value.ok
    ensures Relocated(img, mem, t).value == Run(img, mem, t, |Entries(t)|)
  {
    hide Apply, Entries, Explicit, ApplyAll, ApplyWhileOk, ApplyImplicit, Decode, Run;
    Pieces(t);
    var p := |PackedEntries(t)|;
    var q := p + |t.rela|;
    var r := q + |t.rel|;
    PackedRuns(img, mem, t, p);
    assert PackedEntries(t)[..p] == PackedEntries(t) && t.rela[..q - p] == t.rela && t.rel[..r - q] == t.rel;
    NoneApplied(img, Outset(img, mem, t));
    var s0 := Run(img, mem, t, p);
    assert Relocated(img, mem, t).value == RelocatedPlain(img, s0, t);
    OkOnlyFalls(img, ApplyWhileOk(img, s0, t.rela), t.rel);
    Kinds(t);
    TableRuns(img, mem, t, t.rela, p, true, q - p);
    TableRuns(img, mem, t, t.rel, q, false, r - q);
    TableRuns(img, mem, t, t.plt, r, t.pltIsRela, |t.plt|);
    assert t.plt[..|t.plt|] == t.plt;
  }

  lemma NoneApplied(img: Image, s: Load)
    ensures ApplyAll(img, s, []) == s
  {
  }

  lemma Kinds(t: Tables)
    ensures var q := |PackedEntries(t)| + |t.rela|;
            var r := q + |t.rel|;
            && (forall i: nat :: i < q ==> Explicit(t, i))
            && (forall i: nat :: q <= i < r ==> !Explicit(t, i))
            && (forall i: nat :: r <= i ==> (Explicit(t, i) <==> t.pltIsRela))
  {
  }

  // ----- words -----

  lemma {:induction false} BytesTold(v: nat, n: nat, k: nat)
    requires k < n
    ensures Bytes(v, n)[k] == ShiftRight(v, 8 * k) % 256
    decreases k
  {
    hide ShiftRight;
    if k == 0 {
      ShiftedTwice(v, 0);
    } else {
      BytesTold(v / 256, n - 1, k - 1);
      ShiftedTwice(v, 8 * k - 8);
    }
  }

  lemma ShiftedTwice(v: nat, k: nat)
    ensures ShiftRight(v, 0) == v && ShiftRight(v / 256, k) == ShiftRight(v, k + 8)
  {
    hide ShiftRight;
    ShiftTwice(v, 8, k);
    DivisionShifts(v, 8);
    DivisionShifts(v, 0);
    assert Pow2(8) == 256 && Pow2(0) == 1;
  }

  /** Words are stored with the lowest byte first. */
  lemma LowestFirst(m: Memory, at: u64, v: u64, k: nat)
    requires k < 8
    ensures At(PutWord(m, at, v), Wrap64(at + k)) == ShiftRight(v, 8 * k) % 256
  {
    hide Bytes, Put, Wrap64, ShiftRight;
    PutAt(m, at, Bytes(v, 8), Wrap64(at + k));
    CoversOffset(at, k);
    BytesTold(v, 8, k);
  }

  lemma AddendNoMatter(img: Image, r: Reloc, addend: i64)
    ensures var e, f := EffectOf(img, r), EffectOf(img, r.(addend := addend));
            e.Store? == f.Store? && (e.Store? ==> e.at == f.at == Where(img, r.offset))
    ensures forall a: u64 :: Touches(img, r, a) <==> Touches(img, r.(addend := addend), a)
  {
    hide Wrap64;
  }

  /** No entry behind i has a target that overlaps the word of i. */
  ghost predicate LastThere(img: Image, es: seq<Reloc>, i: nat)
    requires i < |es|
  {
    forall j, a: u64 :: i < j < |es| && Touches(img, es[i], a) ==> !Touches(img, es[j], a)
  }

  lemma {:induction false} WordKept(img: Image, mem: Memory, t: Tables, i: nat, n: nat, a: u64)
    requires i < n <= |Entries(t)| && LastThere(img, Entries(t), i) && Touches(img, Entries(t)[i], a)
    ensures At(Run(img, mem, t, n).mem, a) == At(Run(img, mem, t, i + 1).mem, a)
    decreases n
  {
    hide Touches, Entries, Explicit, Apply, EffectOf;
    if n > i + 1 {
      WordKept(img, mem, t, i, n - 1, a);
      var before := Run(img, mem, t, n - 1);
      var r := Actual(img, before.mem, t, n - 1);
      AddendNoMatter(img, Entries(t)[n - 1], r.addend);
      assert Entries(t)[n - 1].(addend := r.addend) == r;
      ApplyAt(img, before, r, a);
    }
  }

  /** The word at the target of an entry, when all is done, is the one that the entry stores. */
  lemma TargetWord(img: Image, mem: Memory, t: Tables, i: nat) returns (addend: i64)
    requires Relocated(img, mem, t).Some? && Relocated(img, mem, t).value.ok
    requires i < |Entries(t)| && LastThere(img, Entries(t), i) && EffectOf(img, Entries(t)[i]).Store?
    ensures Explicit(t, i) ==> addend == Entries(t)[i].addend
    ensures !Explicit(t, i) ==>
              addend == Signed(Wrap64(GetWord(Run(img, mem, t, i).mem, Where(img, Entries(t)[i].offset))))
    ensures var e := EffectOf(img, Entries(t)[i].(addend := addend));
            e.Store? && GetWord(Relocated(img, mem, t).value.mem, Where(img, Entries(t)[i].offset)) == e.value
  {
    hide Entries, Explicit, EffectOf, GetWord, PutWord, Wrap64, Relocated;
    var es := Entries(t);
    LoadRuns(img, mem, t);
    var before := Run(img, mem, t, i);
    var r := Actual(img, before.mem, t, i);
    addend := r.addend;
    assert es[i].(addend := addend) == r;
    AddendNoMatter(img, es[i], addend);
    var at := Where(img, es[i].offset);
    WordRoundTrip(before.mem, at, EffectOf(img, r).value);
    forall a: u64 | Covers(at, a)
      ensures At(Run(img, mem, t, |es|).mem, a) == At(Run(img, mem, t, i + 1).mem, a)
    {
      WordKept(img, mem, t, i, |es|, a);
    }
    GetSame(Run(img, mem, t, |es|).mem, Run(img, mem, t, i + 1).mem, at);
  }

  /** An addend in place is the word that was there from the start, if no entry before has a target that overlaps it. */
  lemma {:induction false} InPlace(img: Image, mem: Memory, t: Tables, n: nat, at: u64)
    requires n <= |Entries(t)|
    requires forall j, a: u64 :: 0 <= j < n && Covers(at, a) ==> !Touches(img, Entries(t)[j], a)
    ensures GetWord(Run(img, mem, t, n).mem, at) == GetWord(Outset(img, mem, t).mem, at)
    decreases n
  {
    hide Touches, Entries, Explicit, Apply, EffectOf, GetWord, Outset;
    if n > 0 {
      InPlace(img, mem, t, n - 1, at);
      var before := Run(img, mem, t, n - 1);
      var r := Actual(img, before.mem, t, n - 1);
      AddendNoMatter(img, Entries(t)[n - 1], r.addend);
      assert Entries(t)[n - 1].(addend := r.addend) == r;
      forall a: u64 | Covers(at, a)
        ensures At(Run(img, mem, t, n).mem, a) == At(before.mem, a)
      {
        ApplyAt(img, before, r, a);
      }
      GetSame(Run(img, mem, t, n).mem, before.mem, at);
    }
  }

  // ----- by type -----

  /** The types of every architecture there is: distinct, but that GLOB_DAT and ABS may be one. */
  predicate Proper(arch: Arch) {
    && arch.relative != 0 && arch.irelative != 0 && arch.jumpSlot != 0 && arch.globDat != 0 && arch.abs != 0
    && {arch.relative, arch.irelative, arch.jumpSlot, arch.globDat, arch.abs} !! arch.tls
    && arch.relative != arch.irelative && arch.jumpSlot != arch.globDat && arch.jumpSlot != arch.abs
    && {arch.relative, arch.irelative} !! {arch.jumpSlot, arch.globDat, arch.abs}
  }

  function TypeOf(r: Reloc): nat {
    r.info % 0x1_0000_0000
  }

  function SymbolOf(img: Image, r: Reloc): Symbol {
    img.symbol(r.info / 0x1_0000_0000)
  }

  /** v is where the symbol is: here, or where its resolver says, or elsewhere; a weak one may be nowhere. */
  predicate Located(img: Image, s: Symbol, v: u64) {
    && (s.defined && !s.ifunc ==> v == Wrap64(img.bias + s.value))
    && (s.defined && s.ifunc ==> v == img.resolver(Wrap64(img.bias + s.value)))
    && (!s.defined && s.elsewhere.Some? ==> v == s.elsewhere.value)
    && (!s.defined && s.elsewhere.None? ==> s.weak && v == 0)
  }

  lemma EffectTold(img: Image, r: Reloc) returns (v: u64)
    requires Proper(img.arch) && EffectOf(img, r).Store?
    ensures var w, k := EffectOf(img, r).value, TypeOf(r);
            && k in {img.arch.relative, img.arch.irelative, img.arch.jumpSlot, img.arch.globDat, img.arch.abs}
            && (k == img.arch.relative ==> w == Wrap64(img.bias + r.addend))
            && (k == img.arch.irelative ==> w == img.resolver(Wrap64(img.bias + r.addend)))
            && (k in {img.arch.jumpSlot, img.arch.globDat, img.arch.abs} ==> Located(img, SymbolOf(img, r), v))
            && (k == img.arch.abs ==> w == Wrap64(v + r.addend))
            && (k in {img.arch.jumpSlot, img.arch.globDat} && k != img.arch.abs ==> w == v)
  {
    hide Wrap64;
    var value := SymbolValue(img, SymbolOf(img, r));
    v := if value.Some? then value.value else 0;
  }

  /**
   The word at a target after relocating, by type and for every symbol. For an addend in place, `addend` is
   what `TargetWord` says.
   */
  lemma WordByType(img: Image, mem: Memory, t: Tables, i: nat) returns (addend: i64, v: u64)
    requires Proper(img.arch) && Relocated(img, mem, t).Some? && Relocated(img, mem, t).value.ok
    requires i < |Entries(t)| && LastThere(img, Entries(t), i) && EffectOf(img, Entries(t)[i]).Store?
    ensures Explicit(t, i) ==> addend == Entries(t)[i].addend
    ensures !Explicit(t, i) ==>
              addend == Signed(Wrap64(GetWord(Run(img, mem, t, i).mem, Where(img, Entries(t)[i].offset))))
    ensures var r := Entries(t)[i];
            var w, k := GetWord(Relocated(img, mem, t).value.mem, Where(img, r.offset)), TypeOf(r);
            && k in {img.arch.relative, img.arch.irelative, img.arch.jumpSlot, img.arch.globDat, img.arch.abs}
            && (k == img.arch.relative ==> w == Wrap64(img.bias + addend))
            && (k == img.arch.irelative ==> w == img.resolver(Wrap64(img.bias + addend)))
            && (k in {img.arch.jumpSlot, img.arch.globDat, img.arch.abs} ==> Located(img, SymbolOf(img, r), v))
            && (k == img.arch.abs ==> w == Wrap64(v + addend))
            && (k in {img.arch.jumpSlot, img.arch.globDat} && k != img.arch.abs ==> w == v)
  {
    hide Entries, Explicit, LastThere, EffectOf, GetWord, Wrap64, Relocated, Run, Located;
    addend := TargetWord(img, mem, t, i);
    v := EffectTold(img, Entries(t)[i].(addend := addend));
  }

  /** Tables with the same entries in the same order, but for the addend of entry i, which both spell out. */
  ghost predicate AlikeButFor(t: Tables, u: Tables, i: nat) {
    && |Entries(t)| == |Entries(u)| && i < |Entries(t)| && Explicit(t, i) && Explicit(u, i)
    && (forall j :: 0 <= j < |Entries(t)| && j != i ==> Entries(t)[j] == Entries(u)[j])
    && Entries(u)[i] == Entries(t)[i].(addend := Entries(u)[i].addend)
  }

  /** What is added to the addend of an ABS entry is added to the word, modulo 2^64; other symbol types ignore it. */
  lemma AddendCounts(img: Image, mem: Memory, t: Tables, u: Tables, i: nat)
    requires Proper(img.arch) && AlikeButFor(t, u, i) && LastThere(img, Entries(t), i)
    requires Relocated(img, mem, t).Some? && Relocated(img, mem, t).value.ok
    requires Relocated(img, mem, u).Some? && Relocated(img, mem, u).value.ok
    requires TypeOf(Entries(t)[i]) in {img.arch.jumpSlot, img.arch.globDat, img.arch.abs}
    requires EffectOf(img, Entries(t)[i]).Store?
    ensures var at, k := Where(img, Entries(t)[i].offset), Entries(u)[i].addend - Entries(t)[i].addend;
            var w, x := GetWord(Relocated(img, mem, t).value.mem, at), GetWord(Relocated(img, mem, u).value.mem, at);
            if TypeOf(Entries(t)[i]) == img.arch.abs then x == Wrap64(w + k) else x == w
  {
    hide Entries, Explicit, LastThere, EffectOf, GetWord, Wrap64, Relocated, Run;
    AddendNoMatter(img, Entries(t)[i], Entries(u)[i].addend);
    StillLast(img, t, u, i);
    var a, v := WordByType(img, mem, t, i);
    var b, w := WordByType(img, mem, u, i);
    assert v == w;
    Wrap64Adds((v as int) + a, (b as int) - a);
  }

  lemma StillLast(img: Image, t: Tables, u: Tables, i: nat)
    requires AlikeButFor(t, u, i) && LastThere(img, Entries(t), i)
    ensures LastThere(img, Entries(u), i)
  {
    hide Entries, Explicit, Touches;
    AddendNoMatter(img, Entries(t)[i], Entries(u)[i].addend);
  }

  /** Exactly which entries fail, and how. */
  lemma FailsExactly(img: Image, r: Reloc)
    requires Proper(img.arch)
    ensures var k, s := TypeOf(r), SymbolOf(img, r);
            var known := {img.arch.relative, img.arch.irelative};
            var nowhere := !s.defined && s.elsewhere.None? && !s.weak;
            var outside := !InImage(img, Where(img, r.offset));
            var symbolic := {img.arch.jumpSlot, img.arch.globDat, img.arch.abs};
            && (EffectOf(img, r) == Fail(Error) <==>
                outside || (k != 0 && k !in img.arch.tls && k !in known && nowhere))
            && (EffectOf(img, r) == Fail(Unsupported) <==>
                !outside && k != 0 && (k in img.arch.tls || (k !in known && !nowhere && k !in symbolic)))
            && (EffectOf(img, r) == Skip <==> !outside && k == 0)
  {
    hide Wrap64;
  }
}
