/** The encodings of a relocation set compared: what ends up in memory depends on the set alone. */
module RelocationMeaning {
  import opened BitArithmetic
  import opened Sleb128
  import opened PackedRelocs
  import opened Relocation
  import Relr

  // ----- words in memory -----

  /** The byte at `a` belongs to the word at `at`. */
  predicate Covers(at: u64, a: u64) {
    Wrap64(a - at) < 8
  }

  lemma {:induction false} PutAt(m: Memory, at: u64, bs: seq<byte>, a: u64)
    requires |bs| <= 8
    ensures At(Put(m, at, bs), a) == if Wrap64(a - at) < |bs| then bs[Wrap64(a - at)] else At(m, a)
    decreases |bs|
  {
    hide Wrap64;
    if bs != [] {
      PutAt(m, Wrap64(at + 1), bs[1..], a);
      OneCloser(at, a);
    }
  }

  lemma OneCloser(at: u64, a: u64)
    ensures Wrap64(a - Wrap64(at + 1)) == if a == at then WORD64 - 1 else Wrap64(a - at) - 1
    ensures Wrap64(a - at) == 0 <==> a == at
  {
  }

  lemma {:induction false} GetAt(m: Memory, at: u64, n: nat, k: nat)
    requires k < n
    ensures Get(m, at, n)[k] == At(m, Wrap64(at + k))
    decreases n
  {
    if k > 0 {
      GetAt(m, Wrap64(at + 1), n - 1, k - 1);
      Wrap64Adds(at + 1, k - 1);
    }
  }

  lemma GetSame(m: Memory, n: Memory, at: u64)
    requires forall a: u64 :: Covers(at, a) ==> At(m, a) == At(n, a)
    ensures GetWord(m, at) == GetWord(n, at)
  {
    forall k: nat | k < 8
      ensures Get(m, at, 8)[k] == Get(n, at, 8)[k]
    {
      GetAt(m, at, 8, k);
      GetAt(n, at, 8, k);
      CoversOffset(at, k);
    }
    assert Get(m, at, 8) == Get(n, at, 8);
  }

  lemma CoversOffset(at: u64, k: nat)
    requires k < 8
    ensures Wrap64(Wrap64(at + k) - at) == k && Covers(at, Wrap64(at + k))
  {
  }

  lemma {:induction false} ValueBytes(v: nat, n: nat)
    requires v < Pow2(8 * n)
    ensures Value(Bytes(v, n)) == v
    decreases n
  {
    if n > 0 {
      Pow2Adds(8, 8 * n - 8);
      assert Pow2(8) == 256;
      ValueBytes(v / 256, n - 1);
    }
  }

  /** A word stored is the word read back. */
  lemma WordRoundTrip(m: Memory, at: u64, v: u64)
    ensures GetWord(PutWord(m, at, v), at) == v
  {
    hide Bytes, Value, Put, Get, Wrap64;
    forall k: nat | k < 8
      ensures Get(PutWord(m, at, v), at, 8)[k] == Bytes(v, 8)[k]
    {
      GetAt(PutWord(m, at, v), at, 8, k);
      PutAt(m, at, Bytes(v, 8), Wrap64(at + k));
      CoversOffset(at, k);
    }
    assert Get(PutWord(m, at, v), at, 8) == Bytes(v, 8);
    Pow2Of64();
    ValueBytes(v, 8);
  }

  // ----- the memory a set of relocations leaves -----

  predicate Touches(img: Image, r: Reloc, a: u64) {
    EffectOf(img, r).Store? && Covers(EffectOf(img, r).at, a)
  }

  function ByteOf(img: Image, r: Reloc, a: u64): byte
    requires Touches(img, r, a)
  {
    Bytes(EffectOf(img, r).value, 8)[Wrap64(a - EffectOf(img, r).at)]
  }

  /** Targets do not overlap. */
  ghost predicate Independent(img: Image, rs: seq<Reloc>) {
    forall i, j, a: u64 :: 0 <= i < j < |rs| && Touches(img, rs[i], a) ==> !Touches(img, rs[j], a)
  }

  ghost predicate NoFailure(img: Image, rs: seq<Reloc>) {
    forall i :: 0 <= i < |rs| ==> !EffectOf(img, rs[i]).Fail?
  }

  /** `b` is what belongs at address `a` when rs are applied to m: the target's byte, or the old one. */
  ghost predicate Final(img: Image, m: Memory, rs: seq<Reloc>, a: u64, b: byte) {
    && (forall i :: 0 <= i < |rs| && Touches(img, rs[i], a) ==> b == ByteOf(img, rs[i], a))
    && ((forall i :: 0 <= i < |rs| ==> !Touches(img, rs[i], a)) ==> b == At(m, a))
  }

  ghost predicate SameBytes(m: Memory, n: Memory) {
    forall a: u64 :: At(m, a) == At(n, a)
  }

  lemma ApplyAt(img: Image, s: Load, r: Reloc, a: u64)
    ensures At(Apply(img, s, r).mem, a) == if Touches(img, r, a) then ByteOf(img, r, a) else At(s.mem, a)
  {
    hide EffectOf, Put, Bytes, Wrap64;
    if EffectOf(img, r).Store? {
      PutAt(s.mem, EffectOf(img, r).at, Bytes(EffectOf(img, r).value, 8), a);
    }
  }

  /** One more relocation at the end. */
  lemma FinalSnoc(img: Image, m: Memory, rs: seq<Reloc>, r: Reloc, a: u64, b: byte)
    requires Independent(img, rs + [r]) && Final(img, m, rs, a, b)
    ensures Final(img, m, rs + [r], a, if Touches(img, r, a) then ByteOf(img, r, a) else b)
  {
    hide Touches, ByteOf;
    var all := rs + [r];
    assert all[|rs|] == r && forall i :: 0 <= i < |rs| ==> all[i] == rs[i];
  }

  lemma IndependentFront(img: Image, rs: seq<Reloc>, n: nat)
    requires Independent(img, rs) && n <= |rs|
    ensures Independent(img, rs[..n])
  {
  }

  /** Applying independent relocations one after another leaves every target's bytes, and nothing else new. */
  lemma {:induction false} ApplyAllAt(img: Image, s: Load, rs: seq<Reloc>, a: u64)
    requires Independent(img, rs)
    ensures Final(img, s.mem, rs, a, At(ApplyAll(img, s, rs).mem, a))
    decreases |rs|
  {
    hide Touches, ByteOf, Independent, Apply;
    if rs != [] {
      var n := |rs| - 1;
      IndependentFront(img, rs, n);
      ApplyAllAt(img, s, rs[..n], a);
      var before := ApplyAll(img, s, rs[..n]);
      ApplyAt(img, before, rs[n], a);
      assert rs == rs[..n] + [rs[n]];
      FinalSnoc(img, s.mem, rs[..n], rs[n], a, At(before.mem, a));
    }
  }

  /** First one part of a set, then the other. */
  lemma FinalJoin(img: Image, m: Memory, n: Memory, rs: seq<Reloc>, qs: seq<Reloc>, a: u64, b: byte)
    requires Independent(img, rs + qs) && Final(img, m, rs, a, At(n, a)) && Final(img, n, qs, a, b)
    ensures Final(img, m, rs + qs, a, b)
  {
    hide Touches, ByteOf;
    var all := rs + qs;
    assert forall i :: 0 <= i < |rs| ==> all[i] == rs[i];
    assert forall i :: 0 <= i < |qs| ==> all[|rs| + i] == qs[i];
  }

  // ----- plain and packed tables -----

  /** The error of the first and of the last relocation that fails. */
  function FirstError(img: Image, rs: seq<Reloc>): LoadError {
    if rs == [] then NoError
    else
      var before := FirstError(img, rs[..|rs| - 1]);
      if before == NoError && EffectOf(img, rs[|rs| - 1]).Fail? then EffectOf(img, rs[|rs| - 1]).error else before
  }

  function LastError(img: Image, rs: seq<Reloc>): LoadError {
    if rs == [] then NoError
    else if EffectOf(img, rs[|rs| - 1]).Fail? then EffectOf(img, rs[|rs| - 1]).error
    else LastError(img, rs[..|rs| - 1])
  }

  /**
   Stopping at the first failure or carrying on: both succeed for the same tables, and then with the
   same memory; on failure the first reports the first error and the second the last.
   */
  lemma {:induction false} StoppingOrNot(img: Image, s: Load, rs: seq<Reloc>)
    requires s.ok && s.err == NoError
    ensures ApplyWhileOk(img, s, rs).ok <==> NoFailure(img, rs)
    ensures ApplyAll(img, s, rs).ok <==> NoFailure(img, rs)
    ensures NoFailure(img, rs) ==> ApplyWhileOk(img, s, rs) == ApplyAll(img, s, rs)
    ensures ApplyWhileOk(img, s, rs).err == FirstError(img, rs) && ApplyAll(img, s, rs).err == LastError(img, rs)
    ensures FirstError(img, rs) == NoError <==> NoFailure(img, rs)
    decreases |rs|
  {
    hide PutWord;
    if rs != [] {
      var n := |rs| - 1;
      StoppingOrNot(img, s, rs[..n]);
      NoFailureFront(img, rs);
      FailsWithError(img, rs[n]);
    }
  }

  lemma NoFailureFront(img: Image, rs: seq<Reloc>)
    requires rs != []
    ensures NoFailure(img, rs) <==> NoFailure(img, rs[..|rs| - 1]) && !EffectOf(img, rs[|rs| - 1]).Fail?
  {
    hide EffectOf;
    assert forall i :: 0 <= i < |rs| - 1 ==> rs[..|rs| - 1][i] == rs[i];
  }

  lemma FailsWithError(img: Image, r: Reloc)
    ensures EffectOf(img, r).Fail? ==> EffectOf(img, r).error != NoError
  {
  }

  function Plain(rs: seq<Reloc>): Tables {
    Tables([], [], rs, [], [], true)
  }

  function PackedTable(stream: seq<byte>): Tables {
    Tables([], stream, [], [], [], true)
  }

  /**
   A relocation set packed into any fitting groups loads exactly when it loads as a plain table, and
   leaves the same memory. The error reported is the first in a plain table, the last in a packed one.
   */
  lemma PackedMeansPlain(img: Image, mem: Memory, gs: seq<Packed>, first: u64)
    requires AllFit(gs, first) && |Flatten(gs)| < HALF64
    ensures var plain := Relocated(img, mem, Plain(Flatten(gs)));
            var packed := Relocated(img, mem, PackedTable(EncodeStream(gs, first)));
            && plain.Some? && packed.Some? && plain.value.ok == packed.value.ok == NoFailure(img, Flatten(gs))
            && (plain.value.ok ==> plain == packed)
            && plain.value.err == FirstError(img, Flatten(gs)) && packed.value.err == LastError(img, Flatten(gs))
  {
    hide ApplyAll, Decode, EncodeStream, EffectOf;
    var stream := EncodeStream(gs, first);
    StreamRoundTrip(gs, first, []);
    assert stream + [] == stream;
    StreamNonempty(gs, first);
    StoppingOrNot(img, Load(mem, true, NoError), Flatten(gs));
  }

  lemma StreamNonempty(gs: seq<Packed>, first: u64)
    requires AllFit(gs, first)
    ensures EncodeStream(gs, first) != []
  {
  }

  /** The two errors do differ: a TLS relocation, then one outside the image. */
  lemma ErrorsDiffer(img: Image) returns (rs: seq<Reloc>)
    requires 1 in img.arch.tls && img.bias == 0 && 0 < img.mapStart < HALF64 && 0 < img.mapSize < HALF64
    ensures FirstError(img, rs) == Unsupported && LastError(img, rs) == Error
  {
    var tls, outside := Reloc(img.mapStart, 1, 0), Reloc(0, 0, 0);
    rs := [tls, outside];
    assert EffectOf(img, tls) == Fail(Unsupported) && EffectOf(img, outside) == Fail(Error);
    assert rs[..1] == [tls] && rs[..1][..0] == [];
    assert FirstError(img, rs[..1]) == Unsupported;
  }

  // ----- RELR -----

  /** Relative relocations, which store the bias plus the addend. */
  ghost predicate Relative(img: Image, rs: seq<Reloc>) {
    forall i :: 0 <= i < |rs| ==>
      EffectOf(img, rs[i]) == Store(Where(img, rs[i].offset), Wrap64(img.bias + rs[i].addend))
  }

  /** Relocations of the relative type inside the image are such. */
  lemma RelativeByType(img: Image, rs: seq<Reloc>)
    requires img.arch.relative != 0 && img.arch.relative !in img.arch.tls
    requires forall i :: 0 <= i < |rs| ==>
               && rs[i].info % 0x1_0000_0000 == img.arch.relative
               && img.mapStart <= Where(img, rs[i].offset) < img.mapStart + img.mapSize
    ensures Relative(img, rs) && NoFailure(img, rs)
  {
    hide Wrap64;
  }

  predicate InImage(img: Image, a: u64) {
    img.mapStart <= a < img.mapStart + img.mapSize
  }

  /** A store stays inside the image exactly if all its eight bytes do; the code checks only the first. */
  lemma StaysInside(img: Image, r: Reloc)
    requires EffectOf(img, r).Store? && img.mapStart + img.mapSize <= WORD64 && img.mapSize < WORD64
    ensures (forall a: u64 :: Touches(img, r, a) ==> InImage(img, a)) <==>
            EffectOf(img, r).at + 8 <= img.mapStart + img.mapSize
  {
    var at, end := EffectOf(img, r).at, img.mapStart + img.mapSize;
    if at + 8 > end {
      CoversOffset(at, end - at);
      assert Touches(img, r, Wrap64(end));
    }
  }

  /** A relative relocation of the last byte of an image is one that does not. */
  lemma LastByteStores(img: Image, r: Reloc)
    requires img.arch.relative != 0 && img.arch.relative !in img.arch.tls && r.info % 0x1_0000_0000 == img.arch.relative
    requires 0 < img.mapSize < WORD64 && img.mapStart + img.mapSize <= WORD64
    requires Where(img, r.offset) == img.mapStart + img.mapSize - 1
    ensures EffectOf(img, r).Store? && exists a: u64 :: Touches(img, r, a) && !InImage(img, a)
  {
    hide Wrap64;
    StaysInside(img, r);
  }

  /** The words in place hold the addends. */
  ghost predicate SlotsHold(img: Image, m: Memory, rs: seq<Reloc>) {
    forall i :: 0 <= i < |rs| ==> GetWord(m, Where(img, rs[i].offset)) == Wrap64(rs[i].addend)
  }

  function Offsets(rs: seq<Reloc>): (offs: seq<nat>)
    ensures |offs| == |rs|
  {
    seq(|rs|, i requires 0 <= i < |rs| => rs[i].offset)
  }

  lemma OffsetsFront(img: Image, rs: seq<Reloc>, n: nat)
    requires n < |rs|
    ensures |Relr.Biased(Offsets(rs), img.bias)| == |rs|
    ensures Relr.Biased(Offsets(rs), img.bias)[..n] == Relr.Biased(Offsets(rs[..n]), img.bias)
    ensures Relr.Biased(Offsets(rs), img.bias)[n] == Where(img, rs[n].offset)
  {
    hide Wrap64;
  }

  lemma RelativeFront(img: Image, m: Memory, rs: seq<Reloc>, n: nat)
    requires Relative(img, rs) && SlotsHold(img, m, rs) && n < |rs|
    ensures Relative(img, rs[..n]) && SlotsHold(img, m, rs[..n])
    ensures EffectOf(img, rs[n]) == Store(Where(img, rs[n].offset), Wrap64(img.bias + rs[n].addend))
    ensures GetWord(m, Where(img, rs[n].offset)) == Wrap64(rs[n].addend)
  {
    hide EffectOf, GetWord, Wrap64;
  }

  /** Adding the bias to words that hold the addends is applying the relative relocations. */
  lemma {:induction false} AddBiasAt(img: Image, m: Memory, rs: seq<Reloc>, a: u64)
    requires Independent(img, rs) && Relative(img, rs) && SlotsHold(img, m, rs)
    ensures Final(img, m, rs, a, At(AddBias(m, Relr.Biased(Offsets(rs), img.bias), img.bias), a))
    decreases |rs|
  {
    hide Touches, ByteOf, Independent, Relative, SlotsHold, EffectOf, GetWord, PutWord, Wrap64, Apply, Relr.Biased,
      Offsets;
    if rs == [] {
      NoWords(img);
    } else {
      var n := |rs| - 1;
      var words := Relr.Biased(Offsets(rs), img.bias);
      OffsetsFront(img, rs, n);
      IndependentFront(img, rs, n);
      RelativeFront(img, m, rs, n);
      AddBiasAt(img, m, rs[..n], a);
      var before := AddBias(m, words[..n], img.bias);
      SlotStillHolds(img, m, rs);
      Wrap64Adds(rs[n].addend, img.bias);
      StoreIsApply(img, before, rs[n], a);
      assert rs == rs[..n] + [rs[n]];
      FinalSnoc(img, m, rs[..n], rs[n], a, At(before, a));
    }
  }

  lemma NoWords(img: Image)
    ensures Relr.Biased(Offsets([]), img.bias) == []
  {
  }

  lemma StoreIsApply(img: Image, m: Memory, r: Reloc, a: u64)
    requires EffectOf(img, r).Store?
    ensures At(PutWord(m, EffectOf(img, r).at, EffectOf(img, r).value), a)
            == if Touches(img, r, a) then ByteOf(img, r, a) else At(m, a)
  {
    hide EffectOf, Bytes, Put, Wrap64;
    ApplyAt(img, Load(m, true, NoError), r, a);
  }

  /** Adding the bias elsewhere does not disturb the last slot. */
  lemma {:induction false} SlotStillHolds(img: Image, m: Memory, rs: seq<Reloc>)
    requires Independent(img, rs) && Relative(img, rs) && SlotsHold(img, m, rs) && rs != []
    ensures var n := |rs| - 1;
            GetWord(AddBias(m, Relr.Biased(Offsets(rs[..n]), img.bias), img.bias), Where(img, rs[n].offset))
            == Wrap64(rs[n].addend)
    decreases |rs|, 0
  {
    hide ByteOf, Independent, Relative, SlotsHold, EffectOf, GetWord, PutWord, Wrap64, Relr.Biased, Offsets, AddBias;
    var n := |rs| - 1;
    var before := AddBias(m, Relr.Biased(Offsets(rs[..n]), img.bias), img.bias);
    IndependentFront(img, rs, n);
    RelativeFront(img, m, rs, n);
    var at := Where(img, rs[n].offset);
    forall a: u64 | Covers(at, a)
      ensures At(before, a) == At(m, a)
    {
      AddBiasAt(img, m, rs[..n], a);
      OthersKeepOff(img, rs, a);
    }
    GetSame(before, m, at);
  }

  lemma OthersKeepOff(img: Image, rs: seq<Reloc>, a: u64)
    requires Independent(img, rs) && rs != [] && Touches(img, rs[|rs| - 1], a)
    ensures var front := rs[..|rs| - 1]; forall i :: 0 <= i < |front| ==> !Touches(img, front[i], a)
  {
    hide Touches;
  }

  /** The same relocations in another order. */
  lemma SameElements(rs: seq<Reloc>, qs: seq<Reloc>, r: Reloc)
    requires multiset(rs) == multiset(qs)
    ensures r in rs <==> r in qs
  {
    assert r in rs <==> r in multiset(rs);
    assert r in qs <==> r in multiset(qs);
  }

  lemma TwiceInSequence(rs: seq<Reloc>, i: nat, j: nat)
    requires i < j < |rs| && rs[i] == rs[j]
    ensures multiset(rs)[rs[i]] >= 2
  {
    assert rs == rs[..i] + [rs[i]] + rs[i + 1..j] + [rs[j]] + rs[j + 1..];
  }

  lemma {:induction false} TwoPlaces(rs: seq<Reloc>, r: Reloc) returns (i: nat, j: nat)
    requires multiset(rs)[r] >= 2
    ensures i < j < |rs| && rs[i] == rs[j] == r
  {
    var n := |rs| - 1;
    assert rs == rs[..n] + [rs[n]];
    if rs[n] == r {
      assert r in multiset(rs[..n]);
      assert r in rs[..n];
      i :| 0 <= i < n && rs[i] == r;
      j := n;
    } else {
      i, j := TwoPlaces(rs[..n], r);
    }
  }

  lemma IndependentReordered(img: Image, rs: seq<Reloc>, qs: seq<Reloc>)
    requires Independent(img, rs) && multiset(rs) == multiset(qs)
    ensures Independent(img, qs)
  {
    hide Touches;
    forall i, j, a: u64 | 0 <= i < j < |qs| && Touches(img, qs[i], a)
      ensures !Touches(img, qs[j], a)
    {
      if qs[i] == qs[j] {
        TwiceInSequence(qs, i, j);
        var x, y := TwoPlaces(rs, qs[i]);
      } else {
        SameElements(rs, qs, qs[i]);
        SameElements(rs, qs, qs[j]);
        var x: nat :| x < |rs| && rs[x] == qs[i];
        var y: nat :| y < |rs| && rs[y] == qs[j];
        if x < y {
          assert !Touches(img, rs[y], a);
        }
      }
    }
  }

  /** The byte that belongs at an address depends on the set of relocations, not on their order. */
  lemma FinalUnique(img: Image, m: Memory, n: Memory, rs: seq<Reloc>, qs: seq<Reloc>, a: u64, b: byte, c: byte)
    requires multiset(rs) == multiset(qs) && Final(img, m, rs, a, b) && Final(img, n, qs, a, c)
    requires (forall i :: 0 <= i < |qs| ==> !Touches(img, qs[i], a)) ==> At(m, a) == At(n, a)
    ensures b == c
  {
    hide Touches, ByteOf;
    if i :| 0 <= i < |qs| && Touches(img, qs[i], a) {
      SameElements(rs, qs, qs[i]);
      var j: nat :| j < |rs| && rs[j] == qs[i];
      assert b == ByteOf(img, rs[j], a);
    } else {
      forall j | 0 <= j < |rs|
        ensures !Touches(img, rs[j], a)
      {
        SameElements(rs, qs, rs[j]);
      }
    }
  }

  lemma NoFailureReordered(img: Image, rs: seq<Reloc>, qs: seq<Reloc>, part: seq<Reloc>)
    requires multiset(rs) == multiset(qs + part) && NoFailure(img, rs)
    ensures NoFailure(img, part)
  {
    hide EffectOf;
    forall i | 0 <= i < |part|
      ensures !EffectOf(img, part[i]).Fail?
    {
      assert part[i] == (qs + part)[|qs| + i];
      SameElements(rs, qs + part, part[i]);
    }
  }

  /**
   Moving relative relocations out of a table into RELR, with the addends put in place, changes
   nothing in the memory that relocating leaves: for any order of the table, any part of its word-aligned
   relative entries, and whatever the table's words held before.
   */
  lemma RelrMeansPlain(img: Image, mem: Memory, placed: Memory, rs: seq<Reloc>, moved: seq<Reloc>, rest: seq<Reloc>)
    requires multiset(rs) == multiset(moved + rest) && Independent(img, rs) && NoFailure(img, rs)
    requires Relative(img, moved) && Relr.Ordered(Offsets(moved), 0) && SlotsHold(img, placed, moved)
    requires forall a: u64 ::
               (forall i :: 0 <= i < |moved| ==> !Touches(img, moved[i], a)) ==> At(mem, a) == At(placed, a)
    ensures var plain := Relocated(img, mem, Plain(rs));
            var relr := Relocated(img, placed, Plain(rest).(relr := Relr.Encode(Offsets(moved))));
            plain.Some? && relr.Some? && plain.value.ok && relr.value.ok && SameBytes(plain.value.mem, relr.value.mem)
  {
    hide ApplyAll, EffectOf, Touches, Independent, NoFailure, Relative, SlotsHold, Relr.Ordered, Relr.Encode,
      Relr.Decode, AddBias;
    Relr.EncodeRoundTrip(Offsets(moved), img.bias, 0);
    assert AddBias(mem, Relr.Decode([], img.bias, 0), img.bias) == mem by {
      NothingToAdd(mem, img.bias);
    }
    var start := Load(mem, true, NoError);
    StoppingOrNot(img, start, rs);
    var biased := Load(AddBias(placed, Relr.Biased(Offsets(moved), img.bias), img.bias), true, NoError);
    NoFailureReordered(img, rs, moved, rest);
    StoppingOrNot(img, biased, rest);
    forall a: u64
      ensures At(ApplyAll(img, start, rs).mem, a) == At(ApplyAll(img, biased, rest).mem, a)
    {
      SameAt(img, mem, placed, rs, moved, rest, a);
    }
  }

  lemma NothingToAdd(mem: Memory, bias: u64)
    ensures AddBias(mem, Relr.Decode([], bias, 0), bias) == mem
  {
  }

  lemma SameAt(img: Image, mem: Memory, placed: Memory, rs: seq<Reloc>, moved: seq<Reloc>, rest: seq<Reloc>, a: u64)
    requires multiset(rs) == multiset(moved + rest) && Independent(img, rs)
    requires Relative(img, moved) && SlotsHold(img, placed, moved)
    requires (forall i :: 0 <= i < |moved| ==> !Touches(img, moved[i], a)) ==> At(mem, a) == At(placed, a)
    ensures var biased := AddBias(placed, Relr.Biased(Offsets(moved), img.bias), img.bias);
            At(ApplyAll(img, Load(mem, true, NoError), rs).mem, a)
            == At(ApplyAll(img, Load(biased, true, NoError), rest).mem, a)
  {
    hide ApplyAll, EffectOf, Touches, ByteOf, Independent, Relative, SlotsHold, AddBias;
    var biased := AddBias(placed, Relr.Biased(Offsets(moved), img.bias), img.bias);
    IndependentReordered(img, rs, moved + rest);
    IndependentParts(img, moved, rest);
    ApplyAllAt(img, Load(mem, true, NoError), rs, a);
    AddBiasAt(img, placed, moved, a);
    ApplyAllAt(img, Load(biased, true, NoError), rest, a);
    var b := At(ApplyAll(img, Load(biased, true, NoError), rest).mem, a);
    FinalJoin(img, placed, biased, moved, rest, a, b);
    assert forall i :: 0 <= i < |moved| ==> (moved + rest)[i] == moved[i];
    FinalUnique(img, mem, placed, rs, moved + rest, a, At(ApplyAll(img, Load(mem, true, NoError), rs).mem, a), b);
  }

  lemma IndependentParts(img: Image, rs: seq<Reloc>, qs: seq<Reloc>)
    requires Independent(img, rs + qs)
    ensures Independent(img, rs) && Independent(img, qs)
  {
    hide Touches;
    var all := rs + qs;
    assert forall i :: 0 <= i < |rs| ==> all[i] == rs[i];
    assert forall i :: 0 <= i < |qs| ==> all[|rs| + i] == qs[i];
  }
}
