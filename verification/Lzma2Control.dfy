/**
 The LZMA2 control machine: which chunk comes next, what its header says, when the
 dictionary and the LZMA state are reset, and when a chunk is complete.

 The ghost `script` holds the chunks completed and the other ghost fields the bytes of the one
 being read, so that `Consumed` is all the input there was, in the format of `Lzma2Stream`.
 */
module Lzma2Control {
  import opened BitArithmetic
  import opened RangeCoder
  import opened RangeDecoding
  import opened LzDictionary
  import opened LzmaPackets
  import LzmaUnique
  import opened LzmaComplete
  import opened Lzma2Stream
  import opened LzmaDecoding
  import opened Lzma2Decoding

  datatype Stage =
    | Control | Uncompressed1 | Uncompressed2 | Compressed0 | Compressed1
    | Properties | LzmaPrepare | LzmaRun | Copy

  datatype Ret = Ok | StreamEnd | OptionsError | MemlimitError | DataError

  // ----- the dictionary-size byte -----

  /** 2 or 3 times a power of two, from 4 KiB up. */
  function DictSize(props: byte): (size: nat)
    ensures size >= 4096 && size % 16 == 0
  {
    SizeFactor(2 + props % 2, props / 2);
    ShiftLeft(2 + props % 2, props / 2 + 11)
  }

  lemma SizeFactor(v: nat, k: nat)
    requires v >= 2
    ensures ShiftLeft(v, k + 11) >= 4096 && ShiftLeft(v, k + 11) % 16 == 0
  {
    Sixteenfold(v, k + 7);
    AtLeastTwice(v, k + 11);
    Pow2Monotone(11, k + 11);
    SmallPowers();
    assert Pow2(11) == 8 * Pow2(8);
  }

  lemma Sixteenfold(v: nat, k: nat)
    ensures ShiftLeft(v, k + 4) == 16 * ShiftLeft(v, k)
  {
    assert ShiftLeft(v, k + 2) == 2 * ShiftLeft(v, k + 1) == 4 * ShiftLeft(v, k);
    assert ShiftLeft(v, k + 4) == 2 * ShiftLeft(v, k + 3) == 4 * ShiftLeft(v, k + 2);
  }

  lemma {:induction false} AtLeastTwice(v: nat, k: nat)
    requires v >= 2
    ensures ShiftLeft(v, k) >= 2 * Pow2(k)
  {
    if k > 0 {
      AtLeastTwice(v, k - 1);
    }
  }

  /** Bytes 2k and 2k + 1 mean 2 and 3 times 2^(k + 11). */
  lemma DictSizeValue(k: nat)
    requires 2 * k + 1 < 256
    ensures DictSize(2 * k) == 2 * Pow2(k + 11) && DictSize(2 * k + 1) == 3 * Pow2(k + 11)
  {
    hide ShiftLeft, Pow2;
    ShiftIsTimes(2, k + 11);
    ShiftIsTimes(3, k + 11);
  }

  /** Every next property byte means a larger dictionary. */
  lemma DictSizeGrows(props: byte)
    requires props < 39
    ensures DictSize(props) < DictSize(props + 1)
  {
    var k := props / 2 + 11;
    ShiftLeftNext(2, k);
    ShiftLeftNext(3, k);
    if props % 2 == 1 {
      assert (props + 1) / 2 == props / 2 + 1;
      assert ShiftLeft(2, k + 1) == 2 * ShiftLeft(2, k);
      TwiceIsFour(k);
    }
  }

  lemma {:induction false} TwiceIsFour(k: nat)
    ensures 2 * ShiftLeft(2, k) == ShiftLeft(4, k)
  {
    if k > 0 {
      TwiceIsFour(k - 1);
    }
  }

  /** What one step of the machine decides: to go on, or to return. */
  datatype Step = Go | Stop(ret: Ret)

  class Lzma2Decoder {
    const chunk: Lzma2
    var sequence: Stage
    var nextSequence: Stage
    var uncompressed: nat
    var needDictReset: bool
    var needProps: bool
    const sizeMax: nat

    ghost var script: Script
    ghost var header: seq<byte>
    ghost var propsBytes: seq<byte>
    ghost var initBytes: seq<byte>
    ghost var stored: seq<byte>
    ghost var earlier: seq<byte>

    ghost predicate Shape()
      reads chunk.lzma.dict`end, chunk.lzma.dict`buf
    {
      var dict := chunk.lzma.dict;
      && chunk.tempBuf.Length == 3 * IN_REQUIRED && chunk.lzma.rc.probs.Length == PROBS_TOTAL
      && 0 < dict.end == dict.buf.Length && dict.end % 16 == 0
      && chunk.lzma.Separate() && chunk.tempBuf != dict.buf && chunk.tempBuf as object != chunk.lzma.rc.probs as object
    }

    /** Everything output since the decoder was set up. */
    ghost function Output(): seq<byte>
      reads this`needDictReset, this`earlier, chunk.lzma.dict`emitted
    {
      if needDictReset then earlier else earlier + chunk.lzma.dict.emitted
    }

    /** The bytes read of the chunk at hand. */
    ghost function Current(): seq<byte>
      reads this, chunk
    {
      match sequence
      case Control => []
      case LzmaPrepare => header + propsBytes + initBytes
      case LzmaRun => header + propsBytes + initBytes + chunk.taken
      case Copy => header + stored
      case _ => header
    }

    /** All the bytes read since the decoder was set up. */
    ghost function Consumed(): seq<byte>
      reads this, chunk
      requires LegalScript(script)
    {
      Spelled(script) + Current()
    }

    ghost predicate LzmaAnnounced()
      reads this`header
    {
      |header| > 0 && header[0] >= 0x80
    }

    ghost predicate StoredAnnounced()
      reads this`header
    {
      |header| > 0 && (header[0] == 1 || header[0] == 2)
    }

    /** What the chunk at hand builds on: a new dictionary, if it asked for one. */
    ghost function Base(): Place
      reads this`script, this`header
      requires LegalScript(script) && |header| > 0
    {
      AtControl(Meaning(script), header[0])
    }

    /** And, if it asked for that, a new LZMA state. */
    ghost function Setting(): Place
      reads this`script, this`header, chunk.lzma`props
      requires LegalScript(script) && |header| > 0
    {
      Begun(Meaning(script), header[0], chunk.lzma.props)
    }

    /** The dictionary holds the history of a place (then `tail`), with nothing left to flush. */
    ghost predicate Settled(q: Place, tail: seq<byte>)
      reads this`earlier, chunk.lzma.dict, chunk.lzma.dict.buf
    {
      var dict := chunk.lzma.dict;
      && dict.Valid() && dict.start == dict.pos < dict.end
      && dict.history == q.session.history + tail && earlier == q.earlier
    }

    /** The LZMA state is that of a place. */
    ghost predicate Primed(q: Place)
      reads chunk.lzma, chunk.lzma.rc`range, chunk.lzma.rc.probs, chunk.lzma.dict, chunk.lzma.dict.buf
    {
      && chunk.lzma.Valid() && chunk.lzma.len == 0 && chunk.lzma.rc.range == WORD - 1
      && chunk.lzma.rc.probs[..] == q.probs && WellModelled(q.probs)
      && chunk.lzma.props == q.props && chunk.lzma.TheCoder() == q.session.coder
    }

    ghost predicate Rewound()
      reads chunk.lzma.rc`code, chunk.lzma.rc`initBytesLeft
    {
      chunk.lzma.rc.code == 0 && chunk.lzma.rc.initBytesLeft == 5
    }

    /** The LZMA state is that of a place if the place has one. */
    ghost predicate Kept(q: Place)
      reads this`needProps, chunk.lzma, chunk.lzma.rc`range, chunk.lzma.rc`code, chunk.lzma.rc`initBytesLeft
      reads chunk.lzma.rc.probs, chunk.lzma.dict, chunk.lzma.dict.buf
    {
      needProps == !q.primed && (q.primed ==> Primed(q) && Rewound())
    }

    /** Where an LZMA chunk's header leads, and that the way is prepared. */
    ghost predicate LzmaNext(n: nat)
      reads this, chunk, chunk.lzma, chunk.lzma.rc, chunk.lzma.rc.probs, chunk.lzma.dict, chunk.lzma.dict.buf
      requires LegalScript(script)
    {
      && LzmaAnnounced() && |header| == n && !needProps && Settled(Base(), [])
      && (if header[0] >= 0xC0 then nextSequence == Properties
          else nextSequence == LzmaPrepare && Primed(Setting()) && Rewound())
    }

    ghost predicate StoredNext(n: nat)
      reads this, chunk, chunk.lzma, chunk.lzma.rc, chunk.lzma.rc.probs, chunk.lzma.dict, chunk.lzma.dict.buf
      requires LegalScript(script)
    {
      StoredAnnounced() && |header| == n && nextSequence == Copy && Settled(Base(), []) && Kept(Base())
    }

    /** Between two chunks. */
    ghost predicate ControlOk()
      reads this, chunk.lzma, chunk.lzma.rc, chunk.lzma.rc.probs, chunk.lzma.dict, chunk.lzma.dict.buf
      requires LegalScript(script)
    {
      var p := Meaning(script);
      && needDictReset == !p.ready
      && (if p.ready then Settled(p, []) && Kept(p) else earlier == p.Output())
    }

    /** The invariant of each stage. */
    ghost predicate StageOk()
      reads this, chunk, chunk.tempBuf, chunk.lzma, chunk.lzma.rc, chunk.lzma.rc.probs, chunk.lzma.dict
      reads chunk.lzma.dict.buf
      requires LegalScript(script)
    {
      match sequence
      case Control => chunk.tempSize == 0 && ControlOk()
      case Uncompressed1 => chunk.tempSize == 0 && LzmaNext(1) && uncompressed == TopSize(header[0])
      case Uncompressed2 =>
        && chunk.tempSize == 0 && LzmaNext(2)
        && uncompressed == TopSize(header[0]) + (header[1] as int) * 0x100
      case Compressed0 => chunk.tempSize == 0 && (StoredNext(1) || (LzmaNext(3) && uncompressed == SizeIn(header)))
      case Compressed1 =>
        && chunk.tempSize == 0 && (StoredNext(2) || (LzmaNext(4) && uncompressed == SizeIn(header)))
        && chunk.compressed == (header[|header| - 1] as int) * 0x100
      case Properties => PropertiesOk()
      case LzmaPrepare =>
        && PreparedOk() && |initBytes| < 5
        && chunk.lzma.rc.initBytesLeft == 5 - |initBytes| && chunk.lzma.rc.code == InitCode(initBytes)
      case LzmaRun => RunOk()
      case Copy =>
        && chunk.tempSize == 0 && StoredAnnounced() && |header| == 3 && Settled(Base(), stored) && Kept(Base())
        && chunk.compressed > 0 && |stored| + chunk.compressed == CompressedIn(header)
    }

    /** The whole header of an LZMA chunk is read, and nothing behind it. */
    ghost predicate PropertiesOk()
      reads this, chunk, chunk.lzma, chunk.lzma.dict, chunk.lzma.dict.buf
      requires LegalScript(script)
    {
      && chunk.tempSize == 0 && LzmaAnnounced() && |header| == 5 && header[0] >= 0xC0 && !needProps
      && Settled(Base(), [])
      && uncompressed == SizeIn(header) && chunk.compressed == CompressedIn(header)
    }

    /** The LZMA state of the chunk is set up, and the range decoder is next. */
    ghost predicate PreparedOk()
      reads this, chunk, chunk.lzma, chunk.lzma.rc, chunk.lzma.rc.probs, chunk.lzma.dict, chunk.lzma.dict.buf
      requires LegalScript(script)
    {
      && chunk.tempSize == 0 && LzmaAnnounced() && |header| == 5 && !needProps && Settled(Base(), [])
      && uncompressed == SizeIn(header) && chunk.compressed == CompressedIn(header)
      && Primed(Setting()) && propsBytes == PropsBytes(header[0], chunk.lzma.props)
    }

    /** The ghost record of an LZMA chunk is that of its header and of the place it began in. */
    ghost predicate InChunk()
      reads this`script, this`header, this`propsBytes, this`initBytes, chunk`started, chunk`declaredIn
      reads chunk.lzma`props, chunk.lzma.rc`origin, chunk.lzma.dict`end
    {
      && LegalScript(script) && Meaning(script).window == chunk.lzma.dict.end
      && LzmaAnnounced() && Allowed(Meaning(script), header[0]) && |header| == 5 && |initBytes| == 5
      && chunk.lzma.props == Setting().props && ValidProps(chunk.lzma.props)
      && propsBytes == PropsBytes(header[0], chunk.lzma.props)
      && chunk.started == Setting().session && chunk.lzma.rc.origin == Origin(Setting(), initBytes)
      && chunk.declaredIn == CompressedIn(header)
    }

    /** Inside an LZMA chunk: both sizes account for every byte, and the packets explain the history. */
    ghost predicate RunBody()
      reads this, chunk, chunk.tempBuf, chunk.lzma, chunk.lzma.rc, chunk.lzma.rc.probs, chunk.lzma.dict
      reads chunk.lzma.dict.buf
    {
      var dict := chunk.lzma.dict;
      && InChunk() && !needProps && earlier == Setting().earlier
      && chunk.Running() && dict.start == dict.pos < dict.end
      && |chunk.started.history| + SizeIn(header) == |dict.emitted| + uncompressed
    }

    ghost predicate RunOk()
      reads this, chunk, chunk.tempBuf, chunk.lzma, chunk.lzma.rc, chunk.lzma.rc.probs, chunk.lzma.dict
      reads chunk.lzma.dict.buf
    {
      0 < uncompressed && RunBody()
    }

    /** The chunk was refused on the bytes `known` of its payload, before or at its declared size. */
    ghost predicate Refuted(known: seq<byte>)
      reads this, chunk, chunk.lzma, chunk.lzma.rc, chunk.lzma.rc.probs, chunk.lzma.dict, chunk.lzma.dict.buf
    {
      && InChunk() && chunk.Refused(known)
      && |chunk.lzma.dict.history| <= |chunk.started.history| + SizeIn(header)
      && (chunk.Strayed() ==> |chunk.lzma.dict.history| < |chunk.started.history| + SizeIn(header))
    }

    /** The declared output is complete, but something is left over: input, a copy, or the range coder's code. */
    ghost predicate LeftOver()
      reads this, chunk, chunk.tempBuf, chunk.lzma, chunk.lzma.rc, chunk.lzma.rc.probs, chunk.lzma.dict
      reads chunk.lzma.dict.buf
    {
      RunBody() && uncompressed == 0 && (chunk.compressed > 0 || chunk.lzma.len > 0 || chunk.lzma.rc.code != 0)
    }

    ghost predicate Valid()
      reads this, chunk, chunk.tempBuf, chunk.lzma, chunk.lzma.rc, chunk.lzma.rc.probs, chunk.lzma.dict
      reads chunk.lzma.dict.buf
    {
      && Shape() && LegalScript(script) && Meaning(script).window == chunk.lzma.dict.end
      && (needDictReset ==> sequence == Control) && (sequence != LzmaRun ==> chunk.lzma.len == 0)
      && (sequence != Control ==> |header| > 0 && Allowed(Meaning(script), header[0]))
      && StageOk()
    }

    /**
     Whenever LZMA data is about to be decoded, the dictionary was reset, properties were parsed since,
     and a state that reads the history back has a byte to read.
     */
    lemma ReadyToDecode()
      requires Valid() && sequence in {LzmaPrepare, LzmaRun}
      ensures !needDictReset && !needProps && chunk.lzma.PropsSet() && chunk.lzma.dict.Valid() && chunk.lzma.state < 12
      ensures chunk.lzma.state >= LIT_STATES || chunk.lzma.len > 0 ==> chunk.lzma.rep0 < chunk.lzma.dict.full
    {
      hide RingHolds, Legal, Play, LegalScript, Meaning, InitCode, TopSize, Begun, AtControl, PropsBytes,
        Lzma2.Decoded, RangeDecoder.Tracks;
    }

    /**
     Inside an LZMA chunk nothing is lost: the bytes delivered since its start and those still to come are
     the declared size, and the bytes taken, those waiting and those still to come are the other one.
     */
    lemma Conserved()
      requires Valid() && sequence == LzmaRun
      ensures |chunk.lzma.dict.emitted| - |Base().session.history| + uncompressed == SizeIn(header) && 0 < uncompressed
      ensures |initBytes| + |chunk.taken| + (chunk.compressed - chunk.tempSize) == CompressedIn(header)
    {
      hide RingHolds, Legal, Play, LegalScript, Meaning, InitCode, TopSize, PropsBytes, Lzma2.Decoded,
        RangeDecoder.Tracks;
    }

    constructor (dictMax: nat)
      ensures sizeMax == dictMax && Apparatus()
      ensures fresh(chunk) && fresh(chunk.tempBuf) && fresh(chunk.lzma) && fresh(chunk.lzma.rc)
      ensures fresh(chunk.lzma.rc.probs)
      ensures fresh(chunk.lzma.dict) && fresh(chunk.lzma.dict.buf)
    {
      var rc := new RangeDecoder();
      var dict := new Dictionary(16);
      var lzma := new Lzma(rc, dict);
      chunk := new Lzma2(lzma);
      sizeMax := dictMax;
      sequence, nextSequence := Control, Control;
    }

    ghost predicate Apparatus()
      reads this, chunk, chunk.lzma, chunk.lzma.rc
    {
      && chunk.tempBuf.Length == 3 * IN_REQUIRED && chunk.lzma.rc.probs.Length == PROBS_TOTAL
      && chunk.tempBuf as object != chunk.lzma.rc.probs as object
    }

    /** Sets up for a new stream with the dictionary size of the given property byte. */
    method Setup(props: byte) returns (ret: Ret)
      requires Apparatus()
      modifies this, chunk, chunk.lzma, chunk.lzma.dict
      ensures ret in {Ok, OptionsError, MemlimitError}
      ensures ret == OptionsError <==> props > 39
      ensures ret == MemlimitError <==> props <= 39 && DictSize(props) > sizeMax
      ensures ret == Ok ==> Valid() && script == Fresh(DictSize(props)) && Consumed() == [] && Output() == []
      ensures ret == Ok ==> sequence == Control && needDictReset && fresh(chunk.lzma.dict.buf)
    {
      if props > 39 {
        return OptionsError;
      }
      var size := DictSize(props);
      if size > sizeMax {
        return MemlimitError;
      }
      chunk.lzma.dict.Resize(size);
      chunk.lzma.len := 0;
      sequence := Control;
      needDictReset := true;
      chunk.tempSize := 0;
      script, earlier := Fresh(size), [];
      return Ok;
    }

    ghost predicate Apart(b: XzBuf)
      reads chunk.lzma.dict
    {
      && b.out != chunk.lzma.dict.buf && b.out != chunk.tempBuf
      && b.out as object != chunk.lzma.rc.probs as object
    }

    /** What was output since `before` went to the caller's buffer, behind `outBefore`. */
    ghost predicate Delivered(before: seq<byte>, outBefore: seq<byte>, b: XzBuf)
      reads this`needDictReset, this`earlier, chunk.lzma.dict`emitted, b, b.out
    {
      b.Valid() && before <= Output() && b.out[..b.outPos] == outBefore + Output()[|before|..]
    }

    /** Starts a new history; what the old one emitted stays output. */
    method ResetDictionary()
      requires Shape()
      modifies this`needDictReset, this`needProps, this`earlier
      modifies chunk.lzma.dict`start, chunk.lzma.dict`pos, chunk.lzma.dict`full,
        chunk.lzma.dict`limit, chunk.lzma.dict`history, chunk.lzma.dict`emitted
      ensures Shape() && !needDictReset && needProps && earlier == Output() == old(Output())
      ensures chunk.lzma.dict.Valid() && chunk.lzma.dict.history == []
      ensures chunk.lzma.dict.start == chunk.lzma.dict.pos == 0
    {
      earlier := Output();
      needProps := true;
      needDictReset := false;
      chunk.lzma.dict.Reset();
    }

    /** A fresh LZMA state under the old properties. */
    method ResetLzma()
      requires Shape() && chunk.lzma.Valid()
      modifies chunk.lzma`state, chunk.lzma`rep0, chunk.lzma`rep1, chunk.lzma`rep2, chunk.lzma`rep3
      modifies chunk.lzma.rc`range, chunk.lzma.rc`code, chunk.lzma.rc`initBytesLeft, chunk.lzma.rc.probs
      ensures chunk.lzma.Valid() && chunk.lzma.rc.range == WORD - 1 && Rewound()
      ensures chunk.lzma.rc.probs[..] == EvenOdds() && chunk.lzma.TheCoder() == INITIAL_CODER
    {
      hide RingHolds;
      chunk.lzma.ResetState();
      AllEven(chunk.lzma.rc.probs[..]);
    }

    /** An LZMA chunk: which of props, state reset or old state comes first. */
    method ChooseLzma(control: byte) returns (ok: bool)
      requires Shape() && LegalScript(script) && !needDictReset && chunk.tempSize == 0
      requires header == [control] && control >= 0x80 && Settled(Base(), []) && Kept(Base())
      modifies this`sequence, this`nextSequence, this`uncompressed, this`needProps
      modifies chunk.lzma`state, chunk.lzma`rep0, chunk.lzma`rep1, chunk.lzma`rep2, chunk.lzma`rep3
      modifies chunk.lzma.rc`range, chunk.lzma.rc`code, chunk.lzma.rc`initBytesLeft, chunk.lzma.rc.probs
      ensures ok <==> control >= 0xC0 || !old(needProps)
      ensures ok ==> Shape() && LzmaNext(1) && sequence == Uncompressed1 && uncompressed == TopSize(control)
    {
      hide RingHolds, LegalScript, Meaning, TopSize, Dictionary.Valid, EvenOdds, Settled, AtControl;
      uncompressed := TopSize(control);
      sequence := Uncompressed1;
      if control >= 0xC0 {
        needProps := false;
        nextSequence := Properties;
      } else if needProps {
        return false;
      } else {
        nextSequence := LzmaPrepare;
        if control >= 0xA0 {
          ResetLzma();
        }
      }
      return true;
    }

    lemma NothingDelivered(before: seq<byte>, outBefore: seq<byte>, b: XzBuf)
      requires b.Valid() && Output() == before && b.out[..b.outPos] == outBefore
      ensures Delivered(before, outBefore, b)
    {
    }

    lemma DeliveredTwice(before: seq<byte>, outBefore: seq<byte>, mid: seq<byte>, outMid: seq<byte>, b: XzBuf)
      requires before <= mid && outMid == outBefore + mid[|before|..] && Delivered(mid, outMid, b)
      ensures Delivered(before, outBefore, b)
    {
      var now := Output();
      assert now[|before|..] == mid[|before|..] + now[|mid|..];
    }

    /** The control byte: end marker, resets, and the kind of the chunk; refused exactly if that may not come next. */
    method ReadControl(b: XzBuf) returns (step: Step)
      requires Valid() && sequence == Control && b.Valid() && b.inPos < |b.input|
      modifies this`sequence, this`nextSequence, this`uncompressed, this`needDictReset, this`needProps
      modifies this`header, this`script, this`earlier, b`inPos
      modifies chunk.lzma.dict`start, chunk.lzma.dict`pos, chunk.lzma.dict`full,
        chunk.lzma.dict`limit, chunk.lzma.dict`history, chunk.lzma.dict`emitted
      modifies chunk.lzma`state, chunk.lzma`rep0, chunk.lzma`rep1, chunk.lzma`rep2, chunk.lzma`rep3
      modifies chunk.lzma.rc`range, chunk.lzma.rc`code, chunk.lzma.rc`initBytesLeft, chunk.lzma.rc.probs
      ensures b.inPos == old(b.inPos) + 1 && Output() == old(Output())
      ensures step == Stop(DataError) <==> !old(Allowed(Meaning(script), b.input[b.inPos]))
      ensures step == Stop(StreamEnd) <==> b.input[old(b.inPos)] == 0
      ensures step != Stop(DataError) ==> Valid() && Consumed() == old(Consumed()) + [b.input[old(b.inPos)]]
      ensures script == if step == Stop(StreamEnd) then More(old(script), EndMark) else old(script)
      ensures step == Stop(StreamEnd) ==> sequence == Control
      ensures step == Go ==> header == [b.input[old(b.inPos)]] && (sequence == Uncompressed1 || sequence == Compressed0)
      ensures step == Go || step == Stop(StreamEnd) || step == Stop(DataError)
    {
      hide Shape, LegalScript, Meaning, Spelled, StageOk, ControlOk;
      var control := b.input[b.inPos];
      b.inPos := b.inPos + 1;
      if control == 0 {
        MarkEnd();
        return Stop(StreamEnd);
      }
      var ok := BeginChunk(control);
      return if ok then Go else Stop(DataError);
    }

    /** The end of the stream is recorded. */
    ghost method MarkEnd()
      requires Valid() && sequence == Control
      modifies this`script
      ensures Valid() && script == More(old(script), EndMark) && Consumed() == old(Consumed()) + [0]
    {
      hide LegalScript, Meaning, Spelled, Settled, Primed;
      ScriptGrows(script, EndMark);
      script := More(script, EndMark);
    }

    /** What the control byte of a chunk asks for. */
    method BeginChunk(control: byte) returns (ok: bool)
      requires Valid() && sequence == Control && control != 0
      modifies this`sequence, this`nextSequence, this`uncompressed, this`needDictReset, this`needProps, this`header
      modifies this`earlier
      modifies chunk.lzma.dict`start, chunk.lzma.dict`pos, chunk.lzma.dict`full,
        chunk.lzma.dict`limit, chunk.lzma.dict`history, chunk.lzma.dict`emitted
      modifies chunk.lzma`state, chunk.lzma`rep0, chunk.lzma`rep1, chunk.lzma`rep2, chunk.lzma`rep3
      modifies chunk.lzma.rc`range, chunk.lzma.rc`code, chunk.lzma.rc`initBytesLeft, chunk.lzma.rc.probs
      ensures Output() == old(Output()) && (ok <==> Allowed(Meaning(script), control))
      ensures ok ==> Valid() && header == [control] && (sequence == Uncompressed1 || sequence == Compressed0)
    {
      hide LegalScript, Meaning, TopSize, Settled, AtControl, Begun, PropertiesOk, PreparedOk, RunOk, Kept;
      ok := OpenDictionary(control);
      if ok && control >= 0x80 {
        ok := ChooseLzma(control);
      } else {
        ok := ok && control <= 2;
        sequence := Compressed0;
        nextSequence := Copy;
      }
    }

    /** A chunk either starts a new dictionary or needs one. */
    method OpenDictionary(control: byte) returns (ok: bool)
      requires Shape() && LegalScript(script) && ControlOk()
      modifies this`header, this`needDictReset, this`needProps, this`earlier
      modifies chunk.lzma.dict`start, chunk.lzma.dict`pos, chunk.lzma.dict`full,
        chunk.lzma.dict`limit, chunk.lzma.dict`history, chunk.lzma.dict`emitted
      ensures header == [control] && Output() == old(Output()) && Shape()
      ensures ok <==> control >= 0xE0 || control == 1 || Meaning(script).ready
      ensures ok ==> !needDictReset && Settled(Base(), []) && Kept(Base())
      ensures ok ==> (needProps <==> control >= 0xE0 || control == 1 || !Meaning(script).primed)
    {
      hide RingHolds, LegalScript, Meaning, Dictionary.Valid, Primed;
      if !needDictReset {
        chunk.lzma.dict.AllEmitted();
      }
      header := [control];
      ok := true;
      if control >= 0xE0 || control == 1 {
        ResetDictionary();
      } else if needDictReset {
        ok := false;
      }
    }

    /** One byte of the sizes in a header, but for the last. */
    method ReadSize(b: XzBuf)
      requires Valid() && b.Valid() && b.inPos < |b.input| && sequence in {Uncompressed1, Uncompressed2, Compressed0}
      modifies this`sequence, this`uncompressed, this`header, chunk`compressed, b`inPos
      ensures Valid() && b.inPos == old(b.inPos) + 1 && header == old(header) + [b.input[old(b.inPos)]]
      ensures Output() == old(Output()) && Consumed() == old(Consumed()) + [b.input[old(b.inPos)]]
      ensures sequence in {Uncompressed2, Compressed0, Compressed1}
    {
      hide LegalScript, Meaning, TopSize, RunOk, Primed, Spelled, Settled, Kept, AtControl, Begun, Allowed;
      var x: int := b.input[b.inPos];
      header := header + [b.input[b.inPos]];
      b.inPos := b.inPos + 1;
      match sequence
      case Uncompressed1 =>
        uncompressed := uncompressed + x * 0x100;
        sequence := Uncompressed2;
      case Uncompressed2 =>
        uncompressed := uncompressed + x + 1;
        sequence := Compressed0;
      case Compressed0 =>
        chunk.compressed := x * 0x100;
        sequence := Compressed1;
    }

    /** The last byte of the sizes: what follows was chosen by the control byte. */
    method ReadLastSize(b: XzBuf)
      requires Valid() && b.Valid() && b.inPos < |b.input| && sequence == Compressed1
      modifies this`sequence, this`header, this`propsBytes, this`initBytes, this`stored, chunk`compressed, b`inPos
      ensures Valid() && b.inPos == old(b.inPos) + 1 && header == old(header) + [b.input[old(b.inPos)]]
      ensures Output() == old(Output()) && Consumed() == old(Consumed()) + [b.input[old(b.inPos)]]
      ensures sequence in {Properties, LzmaPrepare, Copy}
    {
      hide LegalScript, Meaning, TopSize, RunOk, Primed, Spelled, Settled, AtControl, Begun, Allowed;
      var x: int := b.input[b.inPos];
      header := header + [b.input[b.inPos]];
      propsBytes, initBytes, stored := [], [], [];
      b.inPos := b.inPos + 1;
      chunk.compressed := chunk.compressed + x + 1;
      sequence := nextSequence;
    }

    /** The header a chunk was announced by is exactly the encoding of its kind and sizes. */
    lemma HeaderEncodes()
      requires Valid()
      ensures sequence in {Properties, LzmaPrepare, LzmaRun} ==>
                |header| == 5 && LzmaKind(Kind(header[0])) && 0 < SizeIn(header) <= 0x20_0000
                && 0 < CompressedIn(header) <= 0x1_0000
                && header == LzmaHeader(Kind(header[0]), SizeIn(header), CompressedIn(header))
      ensures sequence == Copy ==>
                && |header| == 3 && 0 < CompressedIn(header) <= 0x1_0000
                && header == StoredHeader(header[0], CompressedIn(header))
    {
      hide RingHolds, LegalScript, Meaning, Dictionary.Valid, Lzma2.Running, LzmaHeader, StoredHeader, SizeIn,
        CompressedIn,
        Begun, AtControl, Kind, Primed;
      if sequence in {Properties, LzmaPrepare, LzmaRun} {
        LzmaHeaderInverts(header);
      } else if sequence == Copy {
        StoredHeaderInverts(header);
      }
    }

    /** The properties byte, refused exactly if it spells no valid properties. */
    method ReadProps(b: XzBuf) returns (ok: bool)
      requires Valid() && sequence == Properties && b.Valid() && b.inPos < |b.input|
      modifies this`sequence, this`propsBytes, this`initBytes, b`inPos
      modifies chunk.lzma`lc, chunk.lzma`literalPosMask, chunk.lzma`posMask, chunk.lzma`props
      modifies chunk.lzma`state, chunk.lzma`rep0, chunk.lzma`rep1, chunk.lzma`rep2, chunk.lzma`rep3
      modifies chunk.lzma.rc`range, chunk.lzma.rc`code, chunk.lzma.rc`initBytesLeft, chunk.lzma.rc.probs
      ensures b.inPos == old(b.inPos) + 1 && Output() == old(Output())
      ensures ok ==> Valid() && sequence == LzmaPrepare
      ensures ok ==> ValidProps(chunk.lzma.props) && PropsByte(chunk.lzma.props) == b.input[old(b.inPos)]
      ensures ok ==> Current() == old(Current()) + [b.input[old(b.inPos)]]
      ensures !ok ==> NoProps(b.input[old(b.inPos)])
    {
      hide LegalScript, Meaning, PropsByte, NoProps, SizeIn, CompressedIn, AtControl, Begun, Dictionary.Valid, EvenOdds,
        Allowed, ControlOk, LzmaNext, StoredNext, RunOk, InitCode, Output, Lzma.Valid, WellModelled;
      ok := NewProps(b.input[b.inPos]);
      BegunAnew(Meaning(script), header[0], chunk.lzma.props);
      propsBytes, initBytes := [b.input[b.inPos]], [];
      b.inPos := b.inPos + 1;
      sequence := LzmaPrepare;
      NoCode();
      assert header + propsBytes + initBytes == header + [b.input[old(b.inPos)]];
    }

    /** A fresh LZMA state under new properties. */
    method NewProps(x: byte) returns (ok: bool)
      requires Shape() && chunk.lzma.dict.Valid() && chunk.lzma.len == 0
      modifies chunk.lzma`lc, chunk.lzma`literalPosMask, chunk.lzma`posMask, chunk.lzma`props
      modifies chunk.lzma`state, chunk.lzma`rep0, chunk.lzma`rep1, chunk.lzma`rep2, chunk.lzma`rep3
      modifies chunk.lzma.rc`range, chunk.lzma.rc`code, chunk.lzma.rc`initBytesLeft, chunk.lzma.rc.probs
      ensures ok ==> ValidProps(chunk.lzma.props) && PropsByte(chunk.lzma.props) == x
      ensures ok ==> chunk.lzma.Valid() && chunk.lzma.rc.range == WORD - 1 && Rewound()
      ensures ok ==> chunk.lzma.rc.probs[..] == EvenOdds() && chunk.lzma.TheCoder() == INITIAL_CODER
      ensures chunk.lzma.dict.Valid()
      ensures !ok ==> NoProps(x)
    {
      hide Dictionary.Valid, PropsByte, EvenOdds, Pow2, NoProps;
      chunk.lzma.FullBound();
      ok := chunk.lzma.SetProps(x);
      if ok {
        AllEven(chunk.lzma.rc.probs[..]);
      }
    }

    /** Reads the five bytes that start the range decoder, over several calls if need be. */
    method Prepare(b: XzBuf) returns (step: Step)
      requires Valid() && sequence == LzmaPrepare && b.Valid()
      modifies this`sequence, this`initBytes, b`inPos, chunk`compressed, chunk`declaredIn, chunk`taken, chunk`started
      modifies chunk`packets
      modifies chunk.lzma.rc`code, chunk.lzma.rc`initBytesLeft
      modifies chunk.lzma.rc`origin, chunk.lzma.rc`stream, chunk.lzma.rc`trace
      ensures b.Valid() && old(b.inPos) <= b.inPos && Output() == old(Output())
      ensures step == Stop(DataError) <==> CompressedIn(header) < 5
      ensures step == Stop(DataError) ==> b.inPos == old(b.inPos)
      ensures step != Stop(DataError) ==> Valid() && initBytes == old(initBytes) + b.input[old(b.inPos)..b.inPos]
      ensures step != Stop(DataError) ==> Current() == old(Current()) + b.input[old(b.inPos)..b.inPos]
      ensures step == Go ==> sequence == LzmaRun && old(b.inPos) < b.inPos
      ensures step == Stop(Ok) ==> sequence == LzmaPrepare && b.inPos == |b.input|
      ensures step == Go || step == Stop(Ok) || step == Stop(DataError)
    {
      hide LegalScript, Meaning, InitCode, CompressedIn, SizeIn, PropsBytes, Primed, Settled, Base, Setting, Allowed,
        ControlOk,
        LzmaNext, StoredNext, PropertiesOk, RunOk, Output;
      if chunk.compressed < 5 {
        return Stop(DataError);
      }
      var done := ReadInit(b);
      if !done {
        return Stop(Ok);
      }
      StartRun();
      return Go;
    }

    /** Shifts input bytes into the code until five have been read in all. */
    method ReadInit(b: XzBuf) returns (done: bool)
      requires b.Valid() && |initBytes| < 5
      requires chunk.lzma.rc.initBytesLeft == 5 - |initBytes| && chunk.lzma.rc.code == InitCode(initBytes)
      modifies this`initBytes, b`inPos, chunk.lzma.rc`code, chunk.lzma.rc`initBytesLeft
      ensures b.Valid() && old(b.inPos) <= b.inPos && |initBytes| <= 5
      ensures initBytes == old(initBytes) + b.input[old(b.inPos)..b.inPos]
      ensures chunk.lzma.rc.initBytesLeft == 5 - |initBytes| && chunk.lzma.rc.code == InitCode(initBytes)
      ensures done <==> |initBytes| == 5
      ensures done ==> old(b.inPos) < b.inPos
      ensures !done ==> b.inPos == |b.input|
    {
      hide InitCode;
      while chunk.lzma.rc.initBytesLeft > 0
        invariant b.Valid() && old(b.inPos) <= b.inPos && |initBytes| <= 5
        invariant initBytes == old(initBytes) + b.input[old(b.inPos)..b.inPos]
        invariant chunk.lzma.rc.initBytesLeft == 5 - |initBytes| && chunk.lzma.rc.code == InitCode(initBytes)
        decreases chunk.lzma.rc.initBytesLeft
      {
        if b.inPos == |b.input| {
          return false;
        }
        var x := b.input[b.inPos];
        InitCodeStep(initBytes, x);
        chunk.lzma.rc.code := (chunk.lzma.rc.code * 256 + x) % WORD;
        initBytes := initBytes + [x];
        assert b.input[old(b.inPos)..b.inPos + 1] == b.input[old(b.inPos)..b.inPos] + [x];
        b.inPos := b.inPos + 1;
        chunk.lzma.rc.initBytesLeft := chunk.lzma.rc.initBytesLeft - 1;
      }
      return true;
    }

    /** The range decoder is initialised: the chunk's packets begin. */
    method StartRun()
      requires Shape() && LegalScript(script) && Meaning(script).window == chunk.lzma.dict.end
      requires !needDictReset && PreparedOk() && Allowed(Meaning(script), header[0]) && CompressedIn(header) >= 5
      requires |initBytes| == 5 && chunk.lzma.rc.code == InitCode(initBytes)
      modifies this`sequence, chunk`compressed, chunk`declaredIn, chunk`taken, chunk`started, chunk`packets
      modifies chunk.lzma.rc`origin, chunk.lzma.rc`stream, chunk.lzma.rc`trace
      ensures Valid() && sequence == LzmaRun && chunk.taken == []
    {
      hide RingHolds, Legal, Play, LegalScript, Meaning, Dictionary.Valid, InitCode, TopSize, SessionBits, ShiftLeft,
        CompressedIn, PropsBytes, WellModelled;
      chunk.lzma.dict.AllEmitted();
      chunk.lzma.GroundedSession();
      NoneYet(Start, chunk.lzma.props, chunk.lzma.TheSession());
      chunk.declaredIn := chunk.compressed;
      chunk.compressed := chunk.compressed - 5;
      chunk.lzma.rc.Begin();
      chunk.taken, chunk.started, chunk.packets := [], chunk.lzma.TheSession(), NoPackets;
      sequence := LzmaRun;
    }

    /** Decodes into the dictionary as much as fits the output, and flushes it. */
    method DecodeSome(b: XzBuf) returns (ok: bool)
      requires Shape() && RunOk() && !needDictReset && Apart(b) && b.Valid()
      modifies this`uncompressed, chunk`packets, chunk`tempSize, chunk`compressed, chunk`taken, chunk.tempBuf
      modifies chunk.lzma`state, chunk.lzma`rep0, chunk.lzma`rep1, chunk.lzma`rep2, chunk.lzma`rep3, chunk.lzma`len
      modifies chunk.lzma.rc`range, chunk.lzma.rc`code, chunk.lzma.rc`input, chunk.lzma.rc`inPos, chunk.lzma.rc`inLimit
      modifies chunk.lzma.rc`stream, chunk.lzma.rc`trace, chunk.lzma.rc`mark, chunk.lzma.rc`markPos
      modifies chunk.lzma.rc`base, chunk.lzma.rc`basePos, chunk.lzma.rc.probs
      modifies chunk.lzma.dict`start, chunk.lzma.dict`pos, chunk.lzma.dict`full, chunk.lzma.dict`limit
      modifies chunk.lzma.dict`history, chunk.lzma.dict`emitted, chunk.lzma.dict.buf, b`inPos, b`outPos, b.out
      ensures b.Valid() && old(b.inPos) <= b.inPos && old(b.outPos) <= b.outPos
      ensures ok ==> Shape() && RunBody() && uncompressed <= old(uncompressed)
      ensures ok ==> old(uncompressed) - uncompressed == b.outPos - old(b.outPos)
      ensures ok ==> Delivered(old(Output()), old(b.out[..b.outPos]), b)
      ensures ok ==> chunk.taken == old(chunk.taken) + b.input[old(b.inPos)..b.inPos]
      ensures ok && old(b.outPos) < b.out.Length ==>
                || uncompressed < old(uncompressed)
                || (b.inPos == |b.input| && chunk.tempSize < chunk.compressed)
                || (old(chunk.tempSize < chunk.compressed) && chunk.tempSize == chunk.compressed)
      ensures !ok ==> Refuted(old(chunk.taken) + b.input[old(b.inPos)..])
    {
      hide LegalScript, Meaning, Setting, Allowed, PropsBytes, SizeIn, InitCode, Refuted, Lzma2.Refused, Lzma2.Running,
        Dictionary.Valid, Delivered, Output, Origin;
      Restrict(b);
      ok := chunk.Feed(b);
      if ok {
        Deliver(b);
      } else {
        RefusedWithin(old(chunk.taken) + b.input[old(b.inPos)..]);
      }
    }

    /** A refusal while the output restricts the decoder comes before or at the declared size. */
    lemma RefusedWithin(known: seq<byte>)
      requires InChunk() && chunk.Refused(known) && chunk.lzma.dict.Valid()
      requires chunk.lzma.dict.pos <= chunk.lzma.dict.limit
      requires chunk.lzma.dict.limit - chunk.lzma.dict.start <= uncompressed
      requires |chunk.started.history| + SizeIn(header) == |chunk.lzma.dict.emitted| + uncompressed
      ensures Refuted(known)
    {
      hide LegalScript, Meaning, Setting, PropsBytes, SizeIn, InitCode, Strays, RangeDecoder.Tracks, Lzma2.Overran,
        Lzma.PropsSet;
      chunk.lzma.dict.Undelivered();
    }

    /** Lets the decoder write no more than the output and the chunk have room for. */
    method Restrict(b: XzBuf)
      requires b.Valid() && chunk.Running()
      modifies chunk.lzma.dict`limit
      ensures chunk.Running() && chunk.lzma.dict.pos <= chunk.lzma.dict.limit
      ensures chunk.lzma.dict.limit - chunk.lzma.dict.pos <= b.out.Length - b.outPos
      ensures chunk.lzma.dict.limit - chunk.lzma.dict.pos <= uncompressed
      ensures chunk.lzma.dict.pos < chunk.lzma.dict.end && b.outPos < b.out.Length && 0 < uncompressed ==>
                chunk.lzma.dict.HasSpace()
    {
      hide RingHolds, Legal, Play, RangeDecoder.Tracks, Lzma2.Decoded, Lzma.PropsSet;
      var space := b.out.Length - b.outPos;
      chunk.lzma.dict.SetLimit(if space < uncompressed then space else uncompressed);
    }

    /** Flushes what was decoded and takes it off the chunk's remaining size. */
    method Deliver(b: XzBuf)
      requires Shape() && !needDictReset && Apart(b) && b.Valid() && chunk.Running()
      requires chunk.lzma.dict.pos - chunk.lzma.dict.start <= b.out.Length - b.outPos
      requires chunk.lzma.dict.pos - chunk.lzma.dict.start <= uncompressed
      modifies this`uncompressed, chunk.lzma.dict`start, chunk.lzma.dict`pos, chunk.lzma.dict`emitted, b`outPos, b.out
      ensures Shape() && b.Valid() && chunk.Running()
      ensures chunk.lzma.dict.start == chunk.lzma.dict.pos < chunk.lzma.dict.end
      ensures old(uncompressed) - uncompressed == b.outPos - old(b.outPos)
              == old(chunk.lzma.dict.pos - chunk.lzma.dict.start)
      ensures |chunk.lzma.dict.emitted| + uncompressed == old(|chunk.lzma.dict.emitted| + uncompressed)
      ensures Delivered(old(Output()), old(b.out[..b.outPos]), b)
    {
      hide RingHolds, Legal, Play, RangeDecoder.Tracks, Lzma2.Decoded;
      var dict := chunk.lzma.dict;
      var n := dict.Flush(b);
      uncompressed := uncompressed - n;
      assert (earlier + dict.emitted)[|old(Output())|..] == dict.emitted[|old(dict.emitted)|..];
    }

    /** The chunk just decoded. */
    ghost function Complete(): Chunk
      reads this, chunk, chunk.lzma
      requires |header| == 5
    {
      LzmaChunk(Kind(header[0]), chunk.lzma.props, SizeIn(header), initBytes, chunk.taken, chunk.packets)
    }

    /** A chunk with nothing left over is a legal one, and the decoder is in the place it leads to. */
    lemma CompleteIsLegal()
      requires RunBody() && uncompressed == 0 && chunk.compressed == 0 && chunk.lzma.len == 0 && chunk.lzma.rc.code == 0
      ensures var p, q := Meaning(script), Setting();
              && LegalChunk(p, Complete()) && ChunkBytes(Complete()) == header + propsBytes + initBytes + chunk.taken
              && AfterChunk(p, Complete()) == q.(session := chunk.lzma.TheSession(), probs := chunk.lzma.rc.probs[..])
              && q.ready && q.primed && q.window == p.window
      ensures chunk.lzma.Whole() == chunk.lzma.dict.history && WellModelled(chunk.lzma.rc.probs[..])
    {
      hide RingHolds, Legal, Play, Windowed, SessionBits, Replay, Learned, LegalScript, Meaning, InitCode, TopSize,
        CompressedIn, LzmaHeader, Lzma.PropsSet;
      var rc := chunk.lzma.rc;
      chunk.lzma.dict.AllEmitted();
      LzmaHeaderInverts(header);
      SameKind(Meaning(script), header[0], chunk.lzma.props);
      assert chunk.taken == rc.stream;
      SpentDecodes(rc.origin, rc.stream, chunk.lzma.props, chunk.started, chunk.packets, rc.Current());
      ReplayLearns(rc.origin, rc.stream, rc.trace);
      FollowsValid(rc.origin, rc.stream, rc.trace, rc.Current());
      chunk.lzma.GroundedSession();
    }

    /** The chunk is complete only if both sizes and the range coder are exactly spent. */
    method FinishChunk() returns (ok: bool)
      requires Shape() && RunBody() && !needDictReset && uncompressed == 0 && sequence == LzmaRun
      modifies this`sequence, this`script, chunk.lzma.rc`range, chunk.lzma.rc`code, chunk.lzma.rc`initBytesLeft
      ensures ok <==> old(chunk.compressed == 0 && chunk.lzma.len == 0 && chunk.lzma.rc.code == 0)
      ensures !ok ==> LeftOver() && script == old(script)
      ensures ok ==>
                && Valid() && sequence == Control
                && script == More(old(script), Complete()) && Consumed() == old(Consumed())
    {
      hide Legal, LegalScript, Meaning, Spelled, InitCode, TopSize, LegalChunk, AfterChunk, ChunkBytes, Begun,
        Dictionary.Valid,
        RangeDecoder.Tracks, WellModelled, Lzma2.Decoded;
      if chunk.compressed > 0 || chunk.lzma.len > 0 || chunk.lzma.rc.code != 0 {
        return false;
      }
      CompleteIsLegal();
      ScriptGrows(script, Complete());
      chunk.lzma.rc.Reset();
      sequence := Control;
      script := More(script, Complete());
      assert Settled(Meaning(script), []);
      assert Primed(Meaning(script));
      return true;
    }

    // ----- a chunk is refused only if no legal one begins with its bytes -----

    /** The packets `ps` are what a payload of the declared sizes decodes to, within the window. */
    ghost predicate Announced(payload: seq<byte>, ps: Packets)
      reads this, chunk, chunk.lzma, chunk.lzma.rc, chunk.lzma.dict
    {
      && |header| == 5 && |payload| + 5 == CompressedIn(header)
      && Decodes(chunk.lzma.rc.origin, payload, chunk.lzma.props, chunk.started, ps)
      && Fits(chunk.started, ps, chunk.lzma.dict.end, SizeIn(header))
    }

    /** A legal chunk that begins with the bytes read is one that the header announced. */
    lemma LegalIsAnnounced(known: seq<byte>, c: Chunk)
      requires InChunk() && LegalChunk(Meaning(script), c)
      requires Agree(header + propsBytes + initBytes + known, ChunkBytes(c))
      ensures c.LzmaChunk? && Agree(known, c.payload) && Announced(c.payload, c.packets)
    {
      hide LegalScript, Meaning, InitCode, SizeIn, CompressedIn, Fits, Decodes, ChunkBytes, PropsByte, EvenOdds;
      assert header + propsBytes + initBytes + known == header + (propsBytes + initBytes + known);
      HeaderTells(c, header, propsBytes + initBytes + known);
      SameKind(Meaning(script), header[0], chunk.lzma.props);
      PayloadTells(c, Kind(header[0]), chunk.lzma.props, initBytes, known);
    }

    /** A chunk that has come to its declared output, on the bytes of a legal one, has nothing left over. */
    lemma AnnouncedFinishes(payload: seq<byte>, ps: Packets)
      requires RunBody() && uncompressed == 0 && Agree(chunk.taken, payload) && Announced(payload, ps)
      ensures chunk.compressed == 0 && chunk.lzma.len == 0 && chunk.lzma.rc.code == 0 && chunk.packets == ps
    {
      hide RingHolds, Play, Legal, SessionBits, Replay, LegalScript, Meaning, InitCode, TopSize, Decodes, Windowed,
        Begun, AtControl, PropsBytes, Allowed;
      var rc := chunk.lzma.rc;
      chunk.lzma.dict.AllEmitted();
      chunk.LastBegun();
      StreamAgrees(rc.stream, chunk.taken, payload);
      DecodedArePrefix(rc.origin, rc.stream, payload, chunk.lzma.props, chunk.started, ps, chunk.packets);
      LzmaUnique.PacketsGrow(chunk.started, chunk.packets, ps);
      ReadsWithin(rc.origin, rc.stream, payload, chunk.lzma.props, chunk.started, ps, chunk.packets, rc.Current());
    }

    /** A chunk is refused only if the bytes known of it are not those of a payload that was announced. */
    lemma RefusedIsCorrupt(known: seq<byte>, payload: seq<byte>, ps: Packets)
      requires Refuted(known) && Agree(known, payload) && |payload| + 5 == CompressedIn(header)
      ensures !Announced(payload, ps)
    {
      hide Play, Legal, SessionBits, Replay, LegalScript, Meaning, TopSize, InitCode, Announced, Lzma2.Strayed,
        Lzma2.Overran,
        Begun, AtControl, PropsBytes, Allowed;
      if Announced(payload, ps) {
        ShownAgrees(chunk.lzma.rc.stream, known, payload);
        if chunk.Strayed() {
          StrayedIsCorrupt(payload, ps);
        } else {
          OverranIsCorrupt(payload, ps);
        }
      }
    }

    lemma StrayedIsCorrupt(payload: seq<byte>, ps: Packets)
      requires chunk.Strayed() && Agree(chunk.lzma.rc.stream, payload)
      requires |header| == 5 && |chunk.lzma.dict.history| < |chunk.started.history| + SizeIn(header)
      ensures !Announced(payload, ps)
    {
      hide Play, SessionBits, Replay, TopSize, Decodes, PacketBits, Expand, After;
      if Announced(payload, ps) {
        var rc, qs := chunk.lzma.rc, chunk.packets;
        DecodedLegal(rc.origin, payload, chunk.lzma.props, chunk.started, ps);
        NextIsEncoded(rc.origin, rc.stream, payload, chunk.lzma.props, chunk.started, ps, qs.prev, qs.last);
        PrefixExtends(Start, chunk.lzma.props, chunk.started, qs, ps);
        PrefixWindowed(chunk.started, qs, ps, chunk.lzma.dict.end);
      }
    }

    lemma OverranIsCorrupt(payload: seq<byte>, ps: Packets)
      requires chunk.Overran() && Agree(chunk.lzma.rc.stream, payload)
      requires |header| == 5 && chunk.declaredIn == CompressedIn(header)
      requires |chunk.lzma.dict.history| <= |chunk.started.history| + SizeIn(header)
      ensures !Announced(payload, ps)
    {
      hide RingHolds, Play, Legal, SessionBits, Replay, TopSize, Decodes, Windowed;
      if Announced(payload, ps) {
        var rc := chunk.lzma.rc;
        chunk.LastBegun();
        DecodedLegal(rc.origin, payload, chunk.lzma.props, chunk.started, ps);
        DecodedArePrefix(rc.origin, rc.stream, payload, chunk.lzma.props, chunk.started, ps, chunk.packets);
        ReadsWithin(rc.origin, rc.stream, payload, chunk.lzma.props, chunk.started, ps, chunk.packets, rc.Current());
      }
    }

    lemma RefutedIsDoomed(known: seq<byte>)
      requires Refuted(known)
      ensures Doomed(Meaning(script), header + propsBytes + initBytes + known)
    {
      hide LegalChunk, LegalScript, Meaning, ChunkBytes, Begun, PropsBytes, Allowed, InitCode, Lzma2.Refused, Decodes,
        Fits;
      forall c | LegalChunk(Meaning(script), c)
        ensures !Agree(header + propsBytes + initBytes + known, ChunkBytes(c))
      {
        if Agree(header + propsBytes + initBytes + known, ChunkBytes(c)) {
          LegalIsAnnounced(known, c);
          RefusedIsCorrupt(known, c.payload, c.packets);
        }
      }
    }

    lemma LeftOverIsDoomed(more: seq<byte>)
      requires LeftOver()
      ensures Doomed(Meaning(script), header + propsBytes + initBytes + (chunk.taken + more))
    {
      hide LegalChunk, LegalScript, Meaning, ChunkBytes, Begun, PropsBytes, Allowed, InitCode, Lzma2.Running, Decodes,
        Fits;
      forall c | LegalChunk(Meaning(script), c)
        ensures !Agree(header + propsBytes + initBytes + (chunk.taken + more), ChunkBytes(c))
      {
        if Agree(header + propsBytes + initBytes + (chunk.taken + more), ChunkBytes(c)) {
          LegalIsAnnounced(chunk.taken + more, c);
          AgreeTwice(chunk.taken, more, c.payload);
          AnnouncedFinishes(c.payload, c.packets);
        }
      }
    }

    // ----- the machine -----

    /** It stops only for want of input, within a chunk of which more is to come, or of room, with output owed. */
    ghost predicate Waiting(b: XzBuf)
      reads this`sequence, chunk, b
    {
      || (b.inPos == |b.input| && (sequence == LzmaRun ==> chunk.tempSize < chunk.compressed))
      || (b.outPos == b.out.Length && (sequence == LzmaRun || sequence == Copy))
    }

    /** No legal chunk begins with `rest` where the last complete one ended. */
    ghost predicate Stuck(rest: seq<byte>)
      reads this`script
    {
      LegalScript(script) && Doomed(Meaning(script), rest)
    }

    /** The script is the same, or a chunk longer that is not the end mark. */
    ghost predicate Continues(before: Script)
      reads this`script
    {
      script == before || (script.More? && script.prev == before && !script.chunk.EndMark?)
    }

    /** One round of an LZMA chunk. */
    method RunLzma(b: XzBuf) returns (step: Step)
      requires Valid() && sequence == LzmaRun && Apart(b) && b.Valid()
      modifies this`sequence, this`script, this`uncompressed, chunk`packets, chunk`tempSize, chunk`compressed
      modifies chunk`taken, chunk.tempBuf
      modifies chunk.lzma`state, chunk.lzma`rep0, chunk.lzma`rep1, chunk.lzma`rep2, chunk.lzma`rep3, chunk.lzma`len
      modifies chunk.lzma.rc`range, chunk.lzma.rc`code, chunk.lzma.rc`input, chunk.lzma.rc`inPos, chunk.lzma.rc`inLimit
      modifies chunk.lzma.rc`initBytesLeft
      modifies chunk.lzma.rc`stream, chunk.lzma.rc`trace, chunk.lzma.rc`mark, chunk.lzma.rc`markPos
      modifies chunk.lzma.rc`base, chunk.lzma.rc`basePos, chunk.lzma.rc.probs
      modifies chunk.lzma.dict`start, chunk.lzma.dict`pos, chunk.lzma.dict`full, chunk.lzma.dict`limit
      modifies chunk.lzma.dict`history, chunk.lzma.dict`emitted, chunk.lzma.dict.buf, b`inPos, b`outPos, b.out
      ensures b.Valid() && old(b.inPos) <= b.inPos && old(b.outPos) <= b.outPos
      ensures step == Go || step == Stop(Ok) || step == Stop(DataError)
      ensures step != Stop(DataError) ==> Valid() && Delivered(old(Output()), old(b.out[..b.outPos]), b)
      ensures step != Stop(DataError) ==> Consumed() == old(Consumed()) + b.input[old(b.inPos)..b.inPos]
      ensures step == Stop(DataError) ==> Stuck(old(Current()) + b.input[old(b.inPos)..])
      ensures step != Go ==> script == old(script)
      ensures step == Stop(Ok) ==> Waiting(b)
      ensures step == Go ==> Continues(old(script)) && (sequence != Control ==> script == old(script))
      ensures step == Go ==>
                || sequence == Control
                || (sequence == LzmaRun && uncompressed < old(uncompressed))
                || (sequence == LzmaRun && uncompressed == old(uncompressed) &&
                    old(chunk.tempSize < chunk.compressed) && chunk.tempSize == chunk.compressed)
    {
      hide Valid, Shape, RunOk, RunBody, LegalScript, Meaning, Refuted, Stuck, Spelled, Output, Delivered, Continues,
        Waiting;
      InRun();
      ghost var was := chunk.taken;
      var ok := DecodeSome(b);
      if !ok {
        RefutedStuck(was, b.input[old(b.inPos)..]);
        return Stop(DataError);
      }
      Regroup(Spelled(script), header + propsBytes + initBytes, was, b.input[old(b.inPos)..b.inPos]);
      step := Conclude(b, was, old(b.inPos));
    }

    lemma InRun()
      requires Valid() && sequence == LzmaRun
      ensures Shape() && RunOk() && !needDictReset && LegalScript(script)
    {
      hide Shape, RunOk, LegalScript, Meaning, Allowed;
    }

    /** After a round: the chunk is complete, or waits for input or room, or goes on. */
    method Conclude(b: XzBuf, ghost was: seq<byte>, ghost i: nat) returns (step: Step)
      requires Shape() && RunBody() && !needDictReset && sequence == LzmaRun && b.Valid()
      requires i <= b.inPos && chunk.taken == was + b.input[i..b.inPos]
      modifies this`sequence, this`script, chunk.lzma.rc`range, chunk.lzma.rc`code, chunk.lzma.rc`initBytesLeft
      ensures step == Go || step == Stop(Ok) || step == Stop(DataError)
      ensures step != Stop(DataError) ==> Valid() && Consumed() == old(Consumed())
      ensures step == Stop(DataError) ==> Stuck(header + propsBytes + initBytes + was + b.input[i..])
      ensures step != Go ==> script == old(script)
      ensures step == Stop(Ok) ==> Waiting(b)
      ensures step == Go ==> Continues(old(script)) && (sequence != Control ==> script == old(script))
      ensures step == Go ==>
                || sequence == Control
                || (sequence == LzmaRun && b.outPos < b.out.Length &&
                    (b.inPos < |b.input| || chunk.tempSize == chunk.compressed))
    {
      hide Shape, LegalScript, Meaning, LeftOver, Stuck, Spelled, Allowed, ControlOk, Dictionary.Valid, Begun,
        PropsBytes,
        RangeDecoder.Tracks, Lzma.Valid, Lzma2.Decoded, InitCode, TopSize;
      if uncompressed == 0 {
        var ok := FinishChunk();
        if !ok {
          LeftOverStuck(was, b.input[i..b.inPos], b.input[b.inPos..]);
          assert b.input[i..] == b.input[i..b.inPos] + b.input[b.inPos..];
        }
        return if ok then Go else Stop(DataError);
      }
      if b.outPos == b.out.Length || (b.inPos == |b.input| && chunk.tempSize < chunk.compressed) {
        return Stop(Ok);
      }
      return Go;
    }

    lemma RefutedStuck(was: seq<byte>, more: seq<byte>)
      requires Refuted(was + more)
      ensures Stuck(header + propsBytes + initBytes + was + more)
    {
      hide LegalScript, Meaning, Allowed, Doomed, Begun, PropsBytes, InitCode, Lzma2.Refused;
      RefutedIsDoomed(was + more);
      var start := header + propsBytes + initBytes;
      assert start + (was + more) == start + was + more;
    }

    lemma LeftOverStuck(was: seq<byte>, now: seq<byte>, more: seq<byte>)
      requires LeftOver() && chunk.taken == was + now
      ensures Stuck(header + propsBytes + initBytes + was + (now + more))
    {
      hide LegalScript, Meaning, Allowed, Doomed, Begun, PropsBytes, InitCode, Lzma2.Running;
      LeftOverIsDoomed(more);
      var start := header + propsBytes + initBytes;
      assert start + (was + now + more) == start + was + (now + more);
    }

    /** Copies a stored chunk, or as much of it as input and output allow. */
    method CopyStored(b: XzBuf) returns (step: Step)
      requires Valid() && sequence == Copy && Apart(b) && b.Valid()
      modifies this`sequence, this`script, this`stored, chunk`compressed
      modifies chunk.lzma.dict`start, chunk.lzma.dict`pos, chunk.lzma.dict`full, chunk.lzma.dict`history
      modifies chunk.lzma.dict`emitted
      modifies chunk.lzma.dict.buf, b`inPos, b`outPos, b.out
      ensures b.Valid() && old(b.inPos) <= b.inPos && old(b.outPos) <= b.outPos
      ensures Valid() && Delivered(old(Output()), old(b.out[..b.outPos]), b)
      ensures stored == old(stored) + b.input[old(b.inPos)..b.inPos]
      ensures Consumed() == old(Consumed()) + b.input[old(b.inPos)..b.inPos]
      ensures step == Stop(Ok) ==> sequence == Copy && script == old(script) && Waiting(b)
      ensures step == Go ==> sequence == Control && old(b.inPos) < b.inPos && |stored| == CompressedIn(header)
      ensures step == Go ==> script == More(old(script), StoredChunk(header[0], stored))
      ensures step == Go || step == Stop(Ok)
    {
      hide LegalScript, Meaning, Spelled, LegalChunk, Primed, Settled, Allowed, AtControl, CompressedIn, Delivered,
        WellModelled, Lzma.Valid, Dictionary.Valid, Kept;
      CopySome(b);
      if chunk.compressed > 0 {
        return Stop(Ok);
      }
      FinishStored();
      return Go;
    }

    /** The stored chunk is complete. */
    method FinishStored()
      requires Shape() && LegalScript(script) && Meaning(script).window == chunk.lzma.dict.end && !needDictReset
      requires StoredAnnounced() && Allowed(Meaning(script), header[0]) && |header| == 3
      requires |stored| == CompressedIn(header)
      requires Settled(Base(), stored) && Kept(Base()) && chunk.tempSize == 0 && chunk.lzma.len == 0 && sequence == Copy
      modifies this`sequence, this`script
      ensures Valid() && sequence == Control && script == More(old(script), StoredChunk(header[0], stored))
      ensures Consumed() == old(Consumed())
    {
      hide LegalScript, Meaning, Spelled, LegalChunk, AfterChunk, ChunkBytes, AtControl, CompressedIn, Dictionary.Valid,
        Lzma.Valid, WellModelled, Allowed;
      StoredIsLegal();
      ScriptGrows(script, StoredChunk(header[0], stored));
      sequence := Control;
      script := More(script, StoredChunk(header[0], stored));
      assert Settled(Meaning(script), []);
    }

    lemma StoredIsLegal()
      requires LegalScript(script) && StoredAnnounced() && |header| == 3 && Allowed(Meaning(script), header[0])
      requires |stored| == CompressedIn(header)
      ensures var p, c := Meaning(script), StoredChunk(header[0], stored);
              && LegalChunk(p, c) && ChunkBytes(c) == header + stored
              && AfterChunk(p, c) == Base().(session := Base().session.(history := Base().session.history + stored))
              && Base().ready && Base().window == p.window
    {
      hide LegalScript, Meaning;
      StoredHeaderInverts(header);
    }

    method CopySome(b: XzBuf)
      requires Shape() && LegalScript(script) && |header| > 0 && !needDictReset && Apart(b) && b.Valid()
      requires Settled(Base(), stored) && Kept(Base())
      modifies this`stored, chunk`compressed
      modifies chunk.lzma.dict`start, chunk.lzma.dict`pos, chunk.lzma.dict`full, chunk.lzma.dict`history
      modifies chunk.lzma.dict`emitted
      modifies chunk.lzma.dict.buf, b`inPos, b`outPos, b.out
      ensures b.Valid() && old(b.inPos) <= b.inPos && old(b.outPos) <= b.outPos
      ensures Shape() && Settled(Base(), stored) && Kept(Base())
      ensures stored == old(stored) + b.input[old(b.inPos)..b.inPos]
      ensures |stored| + chunk.compressed == old(|stored| + chunk.compressed)
      ensures chunk.compressed == 0 || b.inPos == |b.input| || b.outPos == b.out.Length
      ensures Delivered(old(Output()), old(b.out[..b.outPos]), b)
    {
      hide RingHolds, LegalScript, Meaning, AtControl;
      var left := chunk.lzma.dict.Uncompressed(b, chunk.compressed);
      chunk.compressed := left;
      ghost var data := b.input[old(b.inPos)..b.inPos];
      stored := stored + data;
      assert chunk.lzma.dict.emitted == chunk.lzma.dict.history;
      assert old(chunk.lzma.dict.emitted) == old(chunk.lzma.dict.history);
      assert Output() == old(Output()) + data;
    }

    /** Between chunks, what was output is what the stream means. */
    lemma OutputIsMeaning()
      requires Valid() && sequence == Control
      ensures Output() == Meaning(script).Output()
    {
      hide RingHolds, LegalScript, Meaning, Primed;
      if !needDictReset {
        chunk.lzma.dict.AllEmitted();
      }
    }

    /** What was read of a chunk is not all of it. */
    lemma CurrentUnfinished(c: Chunk)
      requires Valid() && (sequence == LzmaRun ==> chunk.tempSize < chunk.compressed) && LegalChunk(Meaning(script), c)
      ensures !(ChunkBytes(c) <= Current())
    {
      hide Valid, LegalScript, Meaning, Current, ChunkBytes, Incomplete;
      var h, tail := CurrentParts();
      IncompleteUnfinished(c, h, tail);
    }

    lemma CurrentParts() returns (h: seq<byte>, tail: seq<byte>)
      requires Valid() && (sequence == LzmaRun ==> chunk.tempSize < chunk.compressed)
      ensures Current() == h + tail && Incomplete(h, tail)
    {
      hide LegalScript, Meaning, Settled, Primed, Kept, Setting, Allowed, SizeIn, CompressedIn, InitCode, PropsByte,
        Lzma2.Decoded, RangeDecoder.Tracks, Lzma.Valid;
      match sequence {
        case Control => h, tail := [], [];
        case LzmaPrepare => h, tail := header, propsBytes + initBytes;
        case LzmaRun => h, tail := header, propsBytes + initBytes + chunk.taken;
        case Copy => h, tail := header, stored;
        case _ => h, tail := header, [];
      }
      Gathered(header, propsBytes, initBytes, if sequence == LzmaRun then chunk.taken else []);
    }

    /** While a chunk's payload is being read, output is still owed. */
    lemma OutputOwed(c: Chunk)
      requires Valid() && (sequence == LzmaRun || sequence == Copy)
      requires LegalChunk(Meaning(script), c) && Agree(Current(), ChunkBytes(c))
      ensures |Output()| < |AfterChunk(Meaning(script), c).Output()|
    {
      hide LegalScript, Meaning, Primed, Kept, Allowed, TopSize, SizeIn, CompressedIn, InitCode, PropsByte, LegalChunk,
        AfterChunk,
        ChunkBytes, RingHolds, Lzma2.Decoded, RangeDecoder.Tracks, Lzma.PropsSet, LzmaHeader, StoredHeader, Kind;
      ChunkOutputs(Meaning(script), c);
      chunk.lzma.dict.AllEmitted();
      if sequence == LzmaRun {
        assert Current() == header + (propsBytes + initBytes + chunk.taken);
        HeaderTells(c, header, propsBytes + initBytes + chunk.taken);
      } else {
        StoredHeaderTells(c, header, stored);
      }
    }

    /** What a caller is promised of a whole stream `s`, if the bytes `known` agree with it. */
    ghost predicate Honours(from: Script, known: seq<byte>, room: int, ret: Ret)
      reads this`script
    {
      forall s :: Stream(from, s) && Agree(known, Spelled(s)) ==>
                    && ret != DataError
                    && (ret == StreamEnd ==> script == s)
                    && (Spelled(s) <= known && |Meaning(s).Output()| <= room ==> ret == StreamEnd)
    }

    /** With the bytes at hand the next chunk is not complete, or its output does not fit. */
    lemma WaitingOwes(c: Chunk, b: XzBuf)
      requires Valid() && b.Valid() && Waiting(b) && LegalChunk(Meaning(script), c)
      requires ChunkBytes(c) <= Current() + b.input[b.inPos..]
      ensures |Output()| + (b.out.Length - b.outPos) < |AfterChunk(Meaning(script), c).Output()|
    {
      hide Shape, StageOk, LegalScript, Meaning, Spelled, Current, Output, LegalChunk, AfterChunk, ChunkBytes, Allowed;
      if b.inPos == |b.input| && (sequence == LzmaRun ==> chunk.tempSize < chunk.compressed) {
        assert Current() + b.input[b.inPos..] == Current();
        CurrentUnfinished(c);
      } else {
        AgreeTwice(Current(), b.input[b.inPos..], ChunkBytes(c));
        OutputOwed(c);
      }
    }

    lemma HonoursByWaiting(from: Script, known: seq<byte>, room: int, b: XzBuf)
      requires Valid() && b.Valid() && Waiting(b) && Unended(from, script)
      requires known == Consumed() + b.input[b.inPos..] && room == |Output()| + (b.out.Length - b.outPos)
      ensures Honours(from, known, room, Ok)
    {
      hide Shape, StageOk, LegalScript, Meaning, Spelled, Current, Output, LegalChunk, AfterChunk, ChunkBytes, Allowed,
        Waiting;
      var rest := Current() + b.input[b.inPos..];
      assert known == Spelled(script) + rest;
      forall s | Stream(from, s) && Agree(known, Spelled(s)) && Spelled(s) <= known
        ensures |Meaning(s).Output()| > room
      {
        var d := ComesNext(from, script, rest, s);
        ScriptGrows(script, d);
        OutputGrows(More(script, d), s);
        PrefixSplit(Spelled(script), ChunkBytes(d), rest);
        WaitingOwes(d, b);
      }
    }

    lemma HonoursByRefusal(from: Script, known: seq<byte>, room: int, rest: seq<byte>)
      requires Stuck(rest) && Unended(from, script) && known == Spelled(script) + rest
      ensures Honours(from, known, room, DataError)
    {
      hide LegalScript, Meaning, Spelled, Doomed;
      forall s | Stream(from, s)
        ensures !Agree(known, Spelled(s))
      {
        DoomedStream(from, script, rest, s);
      }
    }

    lemma HonoursByEnd(from: Script, known: seq<byte>, room: int)
      requires Stream(from, script) && Spelled(script) <= known
      ensures Honours(from, known, room, StreamEnd)
    {
      hide LegalScript, Meaning, Spelled;
      forall s | Stream(from, s) && Agree(known, Spelled(s))
        ensures script == s
      {
        AgreeShorter(Spelled(s), known, Spelled(script));
        OneEnd(from, script, s);
      }
    }

    /**
     The decoder proper: any input, cut anywhere, into any output buffer. What it has read is the
     spelling of the chunks completed and the beginning of one more; what it outputs is what they mean.
     It returns Ok only when it needs more input or more room, and an error only if no legal stream
     begins with the bytes at hand. `from` is where the stream began, in a previous call or this one.
     */
    method Run(b: XzBuf, ghost from: Script) returns (ret: Ret)
      requires Valid() && Apart(b) && b.Valid() && Unended(from, script)
      modifies this, chunk, chunk.tempBuf, chunk.lzma, chunk.lzma.rc, chunk.lzma.rc.probs
      modifies chunk.lzma.dict, chunk.lzma.dict.buf, b`inPos, b`outPos, b.out
      ensures b.Valid() && old(b.inPos) <= b.inPos && old(b.outPos) <= b.outPos
      ensures ret in {Ok, StreamEnd, DataError}
      ensures ret != DataError ==> Valid() && Delivered(old(Output()), old(b.out[..b.outPos]), b)
      ensures ret != DataError ==> Consumed() == old(Consumed()) + b.input[old(b.inPos)..b.inPos]
      ensures ret == Ok ==> Unended(from, script) && Waiting(b)
      ensures ret == StreamEnd ==>
                Stream(from, script) && Consumed() == Spelled(script) && Output() == Meaning(script).Output()
      ensures ret == DataError ==>
                && LegalScript(script)
                && exists rest :: Stuck(rest) && old(Consumed()) + b.input[old(b.inPos)..] == Spelled(script) + rest
      ensures Honours(from, old(Consumed()) + b.input[old(b.inPos)..], old(|Output()| + b.out.Length - b.outPos), ret)
    {
      hide Valid, Output, Current, LegalScript, Meaning, Spelled, Stuck, Honours, Stream, Waiting, Delivered, Underway,
        Unended;
      SetOut(from, b);
      ghost var read, i, sent, out := Consumed(), b.inPos, Output(), b.out[..b.outPos];
      ghost var known, room := read + b.input[i..], |sent| + b.out.Length - b.outPos;
      while b.inPos < |b.input| || sequence == LzmaRun
        invariant Underway(from, b, read, i, sent, out)
        invariant b.Valid() && i <= b.inPos && old(b.outPos) <= b.outPos
        invariant chunk.lzma.dict.buf == old(chunk.lzma.dict.buf)
        decreases |b.input| - b.inPos, sequence == LzmaRun, uncompressed, chunk.tempSize < chunk.compressed
      {
        var step := Turn(b, from, read, i, sent, out);
        if step == Stop(DataError) {
          ghost var rest :| Stuck(rest) && known == Spelled(script) + rest;
          HonoursByRefusal(from, known, room, rest);
          return DataError;
        }
        if step == Stop(StreamEnd) {
          Ended(from, b, read, i, room);
          return StreamEnd;
        }
        if step == Stop(Ok) {
          break;
        }
      }
      AllRead(b);
      Paused(from, b, read, i, sent, out);
      return Ok;
    }

    /**
     In a call that began when `read` had been read and `sent` output, with the input at `i` and `out` in the output
     buffer: what has been read and output since is the input's and in the buffer, and the stream has not ended.
     */
    ghost predicate Underway(from: Script, b: XzBuf, read: seq<byte>, i: nat, sent: seq<byte>, out: seq<byte>)
      reads this, chunk, chunk.tempBuf, chunk.lzma, chunk.lzma.rc, chunk.lzma.rc.probs
      reads chunk.lzma.dict, chunk.lzma.dict.buf, b, b.out
    {
      && Valid() && Apart(b) && b.Valid() && i <= b.inPos && Unended(from, script)
      && Consumed() == read + b.input[i..b.inPos] && Delivered(sent, out, b)
    }

    lemma SetOut(from: Script, b: XzBuf)
      requires Valid() && Apart(b) && b.Valid() && Unended(from, script)
      ensures LegalScript(script) && Underway(from, b, Consumed(), b.inPos, Output(), b.out[..b.outPos])
    {
      hide Shape, StageOk, Current, LegalScript, Meaning, Spelled, Allowed, Unended;
      NothingDelivered(Output(), b.out[..b.outPos], b);
    }

    /** A turn of the loop, seen from the beginning of the call. */
    method Turn(b: XzBuf, ghost from: Script, ghost read: seq<byte>, ghost i: nat, ghost sent: seq<byte>,
        ghost out: seq<byte>) returns (step: Step)
      requires Underway(from, b, read, i, sent, out) && (b.inPos < |b.input| || sequence == LzmaRun)
      modifies this, chunk, chunk.tempBuf, chunk.lzma, chunk.lzma.rc, chunk.lzma.rc.probs
      modifies chunk.lzma.dict, chunk.lzma.dict.buf, b`inPos, b`outPos, b.out
      ensures b.Valid() && old(b.inPos) <= b.inPos && old(b.outPos) <= b.outPos
      ensures step == Go || step.ret in {Ok, StreamEnd, DataError}
      ensures step != Stop(DataError) ==> chunk.lzma.dict.buf == old(chunk.lzma.dict.buf)
      ensures step == Go || step == Stop(Ok) ==> Underway(from, b, read, i, sent, out)
      ensures step == Stop(Ok) ==> Waiting(b)
      ensures step == Stop(StreamEnd) ==>
                && Valid() && sequence == Control && script.More? && script.chunk.EndMark? && Unended(from, script.prev)
                && Consumed() == read + b.input[i..b.inPos] && Delivered(sent, out, b)
      ensures step == Stop(DataError) ==>
                && LegalScript(script) && Unended(from, script)
                && exists rest :: Stuck(rest) && read + b.input[i..] == Spelled(script) + rest
      ensures step == Go ==>
                || old(b.inPos) < b.inPos
                || (old(sequence) == LzmaRun && sequence != LzmaRun)
                || (old(sequence) == LzmaRun == sequence && uncompressed < old(uncompressed))
                || (old(sequence) == LzmaRun == sequence && uncompressed == old(uncompressed) &&
                    old(chunk.tempSize < chunk.compressed) && chunk.tempSize == chunk.compressed)
    {
      hide Shape, StageOk, Output, Current, LegalScript, Meaning, Spelled, Allowed, Doomed, Waiting;
      ghost var mid, outMid, j, rest := Output(), b.out[..b.outPos], b.inPos, Current() + b.input[b.inPos..];
      Regrouped(read, b.input, i, j);
      step := Advance(b);
      if step != Stop(DataError) {
        DeliveredTwice(sent, out, mid, outMid, b);
        OneCut(read, b.input, i, j, b.inPos);
      }
    }

    lemma Ended(from: Script, b: XzBuf, read: seq<byte>, i: nat, room: int)
      requires Valid() && sequence == Control && script.More? && script.chunk.EndMark? && Unended(from, script.prev)
      requires i <= b.inPos <= |b.input| && Consumed() == read + b.input[i..b.inPos]
      ensures Stream(from, script) && Consumed() == Spelled(script) && Output() == Meaning(script).Output()
      ensures Honours(from, read + b.input[i..], room, StreamEnd)
    {
      hide Shape, StageOk, Current, LegalScript, Meaning, Spelled, Allowed, Honours, Stream;
      Regrouped(read, b.input, i, b.inPos);
      ScriptEnded(from, read + b.input[i..], room, b.input[b.inPos..]);
    }

    lemma Paused(from: Script, b: XzBuf, read: seq<byte>, i: nat, sent: seq<byte>, out: seq<byte>)
      requires Underway(from, b, read, i, sent, out) && Waiting(b)
      ensures Valid() && Unended(from, script) && Delivered(sent, out, b) && Consumed() == read + b.input[i..b.inPos]
      ensures Honours(from, read + b.input[i..], |sent| + b.out.Length - |out|, Ok)
    {
      hide Shape, StageOk, Output, Current, LegalScript, Meaning, Spelled, Allowed, Honours, Waiting;
      Regrouped(read, b.input, i, b.inPos);
      HonoursByWaiting(from, read + b.input[i..], |sent| + b.out.Length - |out|, b);
    }

    /** What was read and what is still there are all the bytes there were. */
    lemma Regrouped(before: seq<byte>, input: seq<byte>, i: nat, j: nat)
      requires LegalScript(script) && i <= j <= |input| && Consumed() == before + input[i..j]
      ensures before + input[i..] == Consumed() + input[j..] == Spelled(script) + (Current() + input[j..])
    {
      hide LegalScript, Spelled, Current;
      assert input[i..] == input[i..j] + input[j..];
    }

    lemma AllRead(b: XzBuf)
      ensures b.inPos == |b.input| && sequence != LzmaRun ==> Waiting(b)
    {
    }

    lemma ScriptEnded(from: Script, known: seq<byte>, room: int, more: seq<byte>)
      requires Valid() && sequence == Control && script.More? && script.chunk.EndMark? && Unended(from, script.prev)
      requires known == Consumed() + more
      ensures Stream(from, script) && Consumed() == Spelled(script) && Output() == Meaning(script).Output()
      ensures Honours(from, known, room, StreamEnd)
    {
      hide LegalScript, Meaning, Spelled, StageOk, Allowed, Honours;
      OutputIsMeaning();
      assert Spelled(script) <= known;
      HonoursByEnd(from, known, room);
    }

    /** One turn of the loop: a byte of a header, or a round of a chunk's payload. */
    method Advance(b: XzBuf) returns (step: Step)
      requires Valid() && Apart(b) && b.Valid() && (b.inPos < |b.input| || sequence == LzmaRun)
      modifies this, chunk, chunk.tempBuf, chunk.lzma, chunk.lzma.rc, chunk.lzma.rc.probs
      modifies chunk.lzma.dict, chunk.lzma.dict.buf, b`inPos, b`outPos, b.out
      ensures b.Valid() && old(b.inPos) <= b.inPos && old(b.outPos) <= b.outPos
      ensures step == Go || step.ret in {Ok, StreamEnd, DataError}
      ensures step != Stop(DataError) ==> Valid() && Delivered(old(Output()), old(b.out[..b.outPos]), b)
      ensures step != Stop(DataError) ==> Consumed() == old(Consumed()) + b.input[old(b.inPos)..b.inPos]
      ensures step != Stop(DataError) ==> chunk.lzma.dict.buf == old(chunk.lzma.dict.buf)
      ensures step == Go ==> Continues(old(script))
      ensures step == Stop(Ok) ==> script == old(script) && Waiting(b)
      ensures step == Stop(StreamEnd) ==> sequence == Control && script == More(old(script), EndMark)
      ensures step == Stop(DataError) ==> script == old(script) && Stuck(old(Current()) + b.input[old(b.inPos)..])
      ensures step == Go ==>
                || old(b.inPos) < b.inPos
                || (old(sequence) == LzmaRun && sequence != LzmaRun)
                || (old(sequence) == LzmaRun == sequence && uncompressed < old(uncompressed))
                || (old(sequence) == LzmaRun == sequence && uncompressed == old(uncompressed) &&
                    old(chunk.tempSize < chunk.compressed) && chunk.tempSize == chunk.compressed)
    {
      hide Shape, StageOk, Output, Current, LegalScript, Meaning, Spelled, Allowed, Doomed, Waiting;
      match sequence
      case LzmaRun =>
        step := RunLzma(b);
      case Copy =>
        step := CopyStored(b);
      case Properties =>
        step := FromProps(b);
      case LzmaPrepare =>
        step := FromPrepare(b);
      case _ =>
        step := ReadHeader(b);
    }

    /** One byte of a chunk header. */
    method ReadHeader(b: XzBuf) returns (step: Step)
      requires Valid() && b.Valid() && b.inPos < |b.input|
      requires sequence in {Control, Uncompressed1, Uncompressed2, Compressed0, Compressed1}
      modifies this, chunk, chunk.lzma, chunk.lzma.rc, chunk.lzma.rc.probs
      modifies chunk.lzma.dict`start, chunk.lzma.dict`pos, chunk.lzma.dict`full,
        chunk.lzma.dict`limit, chunk.lzma.dict`history, chunk.lzma.dict`emitted, b`inPos
      ensures b.inPos == old(b.inPos) + 1
      ensures step == Go || step == Stop(StreamEnd) || step == Stop(DataError)
      ensures step != Stop(DataError) ==> Valid() && Delivered(old(Output()), old(b.out[..b.outPos]), b)
      ensures step != Stop(DataError) ==> Consumed() == old(Consumed()) + b.input[old(b.inPos)..b.inPos]
      ensures step == Stop(StreamEnd) ==> sequence == Control
      ensures script == if step == Stop(StreamEnd) then More(old(script), EndMark) else old(script)
      ensures step == Stop(DataError) ==> Stuck(old(Current()) + b.input[old(b.inPos)..])
    {
      hide Shape, StageOk, Output, LegalScript, Meaning, Spelled, Allowed, Doomed;
      assert b.input[b.inPos..b.inPos + 1] == [b.input[b.inPos]];
      if sequence == Control {
        ghost var place, rest := Meaning(script), Current() + b.input[b.inPos..];
        assert rest[0] == b.input[b.inPos];
        step := ReadControl(b);
        if step == Stop(DataError) {
          BadControl(place, rest);
        }
      } else {
        if sequence == Compressed1 {
          ReadLastSize(b);
        } else {
          ReadSize(b);
        }
        step := Go;
      }
      NothingDelivered(old(Output()), old(b.out[..b.outPos]), b);
    }

    /** Properties, then straight on to the range decoder's first bytes. */
    method FromProps(b: XzBuf) returns (step: Step)
      requires Valid() && sequence == Properties && Apart(b) && b.Valid() && b.inPos < |b.input|
      modifies this, chunk, chunk.tempBuf, chunk.lzma, chunk.lzma.rc, chunk.lzma.rc.probs
      modifies chunk.lzma.dict, chunk.lzma.dict.buf, b`inPos, b`outPos, b.out
      ensures b.Valid() && old(b.inPos) < b.inPos && old(b.outPos) <= b.outPos
      ensures step == Go || step == Stop(Ok) || step == Stop(DataError)
      ensures step != Stop(DataError) ==> Valid() && Delivered(old(Output()), old(b.out[..b.outPos]), b)
      ensures step != Stop(DataError) ==> Consumed() == old(Consumed()) + b.input[old(b.inPos)..b.inPos]
      ensures step != Stop(DataError) ==> chunk.lzma.dict.buf == old(chunk.lzma.dict.buf)
      ensures step == Go ==> Continues(old(script))
      ensures step == Stop(Ok) ==> script == old(script) && Waiting(b)
      ensures step == Stop(DataError) ==> script == old(script) && Stuck(old(Current()) + b.input[old(b.inPos)..])
    {
      hide Shape, StageOk, Output, LegalScript, Meaning, Spelled, Allowed, Doomed, Waiting;
      ghost var i, rest := b.inPos, Current() + b.input[b.inPos..];
      HeaderRead();
      var ok := ReadProps(b);
      assert rest == header + [b.input[i]] + b.input[b.inPos..];
      if !ok {
        BadProps(Meaning(script), header, b.input[i], b.input[b.inPos..]);
        return Stop(DataError);
      }
      assert rest == Current() + b.input[b.inPos..];
      assert Consumed() == old(Consumed()) + b.input[i..b.inPos];
      step := FromPrepare(b);
      OneCut(old(Consumed()), b.input, i, i + 1, b.inPos);
    }

    /** Before properties and before the range decoder's first bytes, the whole header has been read. */
    lemma HeaderRead()
      requires Valid() && (sequence == Properties || sequence == LzmaPrepare)
      ensures |header| == 5 && header[0] >= 0x80 && (sequence == Properties ==> header[0] >= 0xC0)
    {
      hide Shape, LegalScript, Meaning, Settled, Primed;
    }

    /** The range decoder's first bytes, then straight on to decoding. */
    method FromPrepare(b: XzBuf) returns (step: Step)
      requires Valid() && sequence == LzmaPrepare && Apart(b) && b.Valid()
      modifies this, chunk, chunk.tempBuf, chunk.lzma, chunk.lzma.rc, chunk.lzma.rc.probs
      modifies chunk.lzma.dict, chunk.lzma.dict.buf, b`inPos, b`outPos, b.out
      ensures b.Valid() && old(b.inPos) <= b.inPos && old(b.outPos) <= b.outPos
      ensures step == Go || step == Stop(Ok) || step == Stop(DataError)
      ensures step != Stop(DataError) ==> Valid() && Delivered(old(Output()), old(b.out[..b.outPos]), b)
      ensures step != Stop(DataError) ==> Consumed() == old(Consumed()) + b.input[old(b.inPos)..b.inPos]
      ensures step != Stop(DataError) ==> chunk.lzma.dict.buf == old(chunk.lzma.dict.buf)
      ensures step == Go ==> old(b.inPos) < b.inPos && Continues(old(script))
      ensures step == Stop(Ok) ==> script == old(script) && Waiting(b)
      ensures step == Stop(DataError) ==> script == old(script) && Stuck(old(Current()) + b.input[old(b.inPos)..])
    {
      hide Shape, StageOk, Output, LegalScript, Meaning, Spelled, Allowed, Doomed, Waiting, Delivered, Continues;
      ghost var i, before, tail := b.inPos, Current(), propsBytes + initBytes + b.input[b.inPos..];
      HeaderRead();
      Gathered(header, propsBytes, initBytes, b.input[i..]);
      step := Prepare(b);
      ghost var j := b.inPos;
      if step == Go {
        OneCut(before, b.input, i, j, |b.input|);
        Longer(Spelled(script), before, b.input[i..j]);
        step := RunLzma(b);
        OneCut(old(Consumed()), b.input, i, j, b.inPos);
      } else {
        NothingDelivered(old(Output()), old(b.out[..b.outPos]), b);
        if step == Stop(DataError) {
          TooShort(Meaning(script), header, tail);
        } else {
          Longer(Spelled(script), before, b.input[i..j]);
          AllRead(b);
        }
      }
    }
  }

  lemma Gathered(a: seq<byte>, b: seq<byte>, c: seq<byte>, d: seq<byte>)
    ensures a + b + c + d == a + (b + c + d) && a + b + c + [] == a + (b + c + []) == a + (b + c)
  {
  }

  lemma Regroup(a: seq<byte>, b: seq<byte>, c: seq<byte>, d: seq<byte>)
    ensures a + (b + (c + d)) == a + (b + c) + d
  {
  }
}
