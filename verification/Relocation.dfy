/**
 Applying relocations to a mapped image: the same relocation set means the same memory whether
 it comes as plain tables, packed (APS2), or with its relative entries moved to RELR.
 */
module Relocation {
  import opened BitArithmetic
  import opened Options
  import opened PackedRelocs
  import Relr

  // ----- memory, in bytes; words are stored with the lowest byte first -----

  type Memory = map<u64, byte>

  function At(m: Memory, a: u64): byte {
    if a in m then m[a] else 0
  }

  function Bytes(v: nat, n: nat): (bs: seq<byte>)
    ensures |bs| == n
  {
    if n == 0 then [] else [v % 256] + Bytes(v / 256, n - 1)
  }

  function Value(bs: seq<byte>): nat {
    if bs == [] then 0 else bs[0] as int + 256 * Value(bs[1..])
  }

  function Put(m: Memory, at: u64, bs: seq<byte>): Memory
    decreases |bs|
  {
    if bs == [] then m else Put(m, Wrap64(at + 1), bs[1..])[at := bs[0]]
  }

  function Get(m: Memory, at: u64, n: nat): (bs: seq<byte>)
    ensures |bs| == n
    decreases n
  {
    if n == 0 then [] else [At(m, at)] + Get(m, Wrap64(at + 1), n - 1)
  }

  function PutWord(m: Memory, at: u64, v: u64): Memory {
    Put(m, at, Bytes(v, 8))
  }

  function GetWord(m: Memory, at: u64): nat {
    Value(Get(m, at, 8))
  }

  // ----- what one relocation does -----

  /** The relocation types of an architecture; GLOB_DAT and ABS may be one type. */
  datatype Arch = Arch(relative: nat, irelative: nat, jumpSlot: nat, globDat: nat, abs: nat, tls: set<nat>)

  /** A dynamic symbol, and what resolving its name elsewhere gives. */
  datatype Symbol = Symbol(defined: bool, value: u64, ifunc: bool, weak: bool, elsewhere: Option<u64>)

  /** A mapped image. The code of resolvers and the symbol table are functions. */
  datatype Image = Image(arch: Arch, bias: u64, mapStart: nat, mapSize: nat, symbol: nat -> Symbol,
      resolver: u64 -> u64)

  datatype LoadError = NoError | Unsupported | Error

  datatype Effect = Skip | Store(at: u64, value: u64) | Fail(error: LoadError)

  function Where(img: Image, offset: u64): u64 {
    Wrap64(img.bias + offset)
  }

  function SymbolValue(img: Image, s: Symbol): Option<u64> {
    if s.defined then
      var value := Wrap64(img.bias + s.value);
      Some(if s.ifunc then img.resolver(value) else value)
    else if s.elsewhere.Some? then s.elsewhere
    else if s.weak then Some(0)
    else None
  }

  function EffectOf(img: Image, r: Reloc): Effect {
    var kind, sym := r.info % 0x1_0000_0000, r.info / 0x1_0000_0000;
    var at := Where(img, r.offset);
    if at < img.mapStart || at >= img.mapStart + img.mapSize then Fail(Error)
    else if kind == 0 then Skip
    else if kind in img.arch.tls then Fail(Unsupported)
    else if kind == img.arch.relative then Store(at, Wrap64(img.bias + r.addend))
    else if kind == img.arch.irelative then Store(at, img.resolver(Wrap64(img.bias + r.addend)))
    else
      match SymbolValue(img, img.symbol(sym))
      case None => Fail(Error)
      case Some(value) =>
        if kind == img.arch.jumpSlot then Store(at, value)
        else if kind == img.arch.globDat then
          Store(at, if img.arch.abs == img.arch.globDat then Wrap64(value + r.addend) else value)
        else if kind == img.arch.abs then Store(at, Wrap64(value + r.addend))
        else Fail(Unsupported)
  }

  /** The state of a load: memory, and the error reported last, if any. */
  datatype Load = Load(mem: Memory, ok: bool, err: LoadError)

  function Apply(img: Image, s: Load, r: Reloc): Load {
    match EffectOf(img, r)
    case Skip => s
    case Store(at, value) => s.(mem := PutWord(s.mem, at, value))
    case Fail(e) => s.(ok := false, err := e)
  }

  /** Every relocation, also after one has failed. */
  function ApplyAll(img: Image, s: Load, rs: seq<Reloc>): Load {
    if rs == [] then s else Apply(img, ApplyAll(img, s, rs[..|rs| - 1]), rs[|rs| - 1])
  }

  /** Relocations up to the first that fails. */
  function ApplyWhileOk(img: Image, s: Load, rs: seq<Reloc>): Load {
    if rs == [] then s
    else
      var before := ApplyWhileOk(img, s, rs[..|rs| - 1]);
      if before.ok then Apply(img, before, rs[|rs| - 1]) else before
  }

  /** A table entry whose addend is the word in place. */
  function Implicit(img: Image, mem: Memory, r: Reloc): Reloc {
    r.(addend := Signed(Wrap64(GetWord(mem, Where(img, r.offset)))))
  }

  function ApplyImplicit(img: Image, s: Load, rs: seq<Reloc>): Load {
    if rs == [] then s
    else
      var before := ApplyImplicit(img, s, rs[..|rs| - 1]);
      if before.ok then Apply(img, before, Implicit(img, before.mem, rs[|rs| - 1])) else before
  }

  function AddBias(mem: Memory, words: seq<u64>, bias: u64): Memory {
    if words == [] then mem
    else
      var before := AddBias(mem, words[..|words| - 1], bias);
      var w := words[|words| - 1];
      PutWord(before, w, Wrap64(GetWord(before, w) + bias))
  }

  /** The relocation tables of a module, in the order they are applied. */
  datatype Tables = Tables(relr: seq<u64>, packed: seq<byte>, rela: seq<Reloc>, rel: seq<Reloc>, plt: seq<Reloc>,
      pltIsRela: bool)

  /** The outcome of relocating: no value stands for a packed stream that ends early, which is never left. */
  function Relocated(img: Image, mem: Memory, t: Tables): Option<Load> {
    var s := Load(AddBias(mem, Relr.Decode(t.relr, img.bias, 0), img.bias), true, NoError);
    if t.packed == [] then Some(RelocatedPlain(img, s, t))
    else
      match Decode(t.packed)
      case Stuck(_) => None
      case BadMagic => Some(s.(ok := false, err := Error))
      case Finished(rs) =>
        var s' := ApplyAll(img, s, rs);
        Some(if s'.ok then RelocatedPlain(img, s', t) else s')
  }

  function RelocatedPlain(img: Image, s: Load, t: Tables): Load {
    var s' := ApplyImplicit(img, ApplyWhileOk(img, s, t.rela), t.rel);
    if !s'.ok then s'
    else if t.pltIsRela then ApplyWhileOk(img, s', t.plt)
    else ApplyImplicit(img, s', t.plt)
  }

  // ----- the linker's loops -----

  class Relocator {
    const img: Image
    var mem: Memory
    var ok: bool
    var err: LoadError

    constructor (img: Image, mem: Memory)
      ensures this.img == img && this.mem == mem && ok && err == NoError
    {
      this.img, this.mem, ok, err := img, mem, true, NoError;
    }

    ghost function State(): Load
      reads this
    {
      Load(mem, ok, err)
    }

    /** One relocation, check by check. */
    method ApplyOne(r: Reloc)
      modifies this
      ensures State() == Apply(img, old(State()), r)
    {
      hide PutWord, Wrap64;
      var kind, sym := r.info % 0x1_0000_0000, r.info / 0x1_0000_0000;
      var where := Where(img, r.offset);
      if where < img.mapStart || where >= img.mapStart + img.mapSize {
        err, ok := Error, false;
        return;
      }
      if kind == 0 {
        return;
      }
      if kind in img.arch.tls {
        err, ok := Unsupported, false;
        return;
      }
      if kind == img.arch.relative {
        mem := PutWord(mem, where, Wrap64(img.bias + r.addend));
        return;
      }
      if kind == img.arch.irelative {
        mem := PutWord(mem, where, img.resolver(Wrap64(img.bias + r.addend)));
        return;
      }
      var s := img.symbol(sym);
      var value: u64 := 0;
      if s.defined {
        value := Wrap64(img.bias + s.value);
        if s.ifunc {
          value := img.resolver(value);
        }
      } else if s.elsewhere.Some? {
        value := s.elsewhere.value;
      } else if !s.weak {
        err, ok := Error, false;
        return;
      }
      if kind == img.arch.jumpSlot {
        mem := PutWord(mem, where, value);
      } else if kind == img.arch.globDat {
        mem := PutWord(mem, where, if img.arch.abs == img.arch.globDat then Wrap64(value + r.addend) else value);
      } else if kind == img.arch.abs {
        mem := PutWord(mem, where, Wrap64(value + r.addend));
      } else {
        err, ok := Unsupported, false;
      }
    }

    method ApplyEach(rs: seq<Reloc>)
      modifies this
      ensures State() == ApplyAll(img, old(State()), rs)
    {
      for i := 0 to |rs|
        invariant State() == ApplyAll(img, old(State()), rs[..i])
      {
        assert rs[..i + 1][..i] == rs[..i];
        ApplyOne(rs[i]);
      }
      assert rs[..|rs|] == rs;
    }

    /** A plain table with addends, or with the addends in place. */
    method ApplyTable(rs: seq<Reloc>, explicit: bool)
      modifies this
      ensures State() == if explicit then ApplyWhileOk(img, old(State()), rs) else ApplyImplicit(img, old(State()), rs)
    {
      var i := 0;
      while i < |rs| && ok
        invariant i <= |rs|
        invariant State()
                == if explicit then ApplyWhileOk(img, old(State()), rs[..i])
                   else ApplyImplicit(img, old(State()), rs[..i])
      {
        assert rs[..i + 1][..i] == rs[..i];
        ApplyOne(if explicit then rs[i] else Implicit(img, mem, rs[i]));
        i := i + 1;
      }
      assert rs[..|rs|] == rs;
      if !ok {
        FailedStays(img, old(State()), rs, i);
      }
    }

    method AddBiases(relr: seq<u64>)
      modifies this`mem
      ensures mem == AddBias(old(mem), Relr.Decode(relr, img.bias, 0), img.bias)
    {
      hide PutWord, GetWord, Wrap64, Relr.Decode;
      var words := Relr.ForEachRelr(relr, img.bias);
      for i := 0 to |words|
        invariant mem == AddBias(old(mem), words[..i], img.bias)
      {
        assert words[..i + 1][..i] == words[..i];
        mem := PutWord(mem, words[i], Wrap64(GetWord(mem, words[i]) + img.bias));
      }
      assert words[..|words|] == words;
    }

    /** Relocates the image: done, unless the packed stream ends early. */
    method Relocate(t: Tables) returns (done: bool)
      requires ok && err == NoError
      modifies this
      ensures done == Relocated(img, old(mem), t).Some?
      ensures done ==> State() == Relocated(img, old(mem), t).value
    {
      AddBiases(t.relr);
      if t.packed != [] {
        var outcome := ForEachPackedReloc(t.packed);
        match outcome
        case Stuck(_) => return false;
        case BadMagic =>
          err := Error;
          ok := false;
          return true;
        case Finished(rs) =>
          ApplyEach(rs);
          if !ok {
            return true;
          }
      }
      ApplyTable(t.rela, true);
      ApplyTable(t.rel, false);
      if ok {
        ApplyTable(t.plt, t.pltIsRela);
      }
      return true;
    }
  }

  lemma {:induction false} FailedStays(img: Image, s: Load, rs: seq<Reloc>, i: nat)
    requires i <= |rs|
    ensures !ApplyWhileOk(img, s, rs[..i]).ok ==> ApplyWhileOk(img, s, rs) == ApplyWhileOk(img, s, rs[..i])
    ensures !ApplyImplicit(img, s, rs[..i]).ok ==> ApplyImplicit(img, s, rs) == ApplyImplicit(img, s, rs[..i])
    decreases |rs|
  {
    if i < |rs| {
      FailedStays(img, s, rs[..|rs| - 1], i);
      assert rs[..|rs| - 1][..i] == rs[..i];
    } else {
      assert rs[..i] == rs;
    }
  }
}
