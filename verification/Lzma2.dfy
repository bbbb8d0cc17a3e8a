/**
 The LZMA2 layer: chunks behind control bytes, decoded from input that arrives in pieces.

 The ghost state follows the chunk being decoded: `taken` is what it took from the caller,
 and the range decoder's `stream` is what was decoded of that; the rest waits in tempBuf.
 */
module Lzma2Decoding {
  import opened BitArithmetic
  import opened RangeCoder
  import opened RangeDecoding
  import opened LzDictionary
  import opened LzmaPackets
  import opened LzmaDecoding

  /** Enough input to decode one symbol and normalize once more. */
  const IN_REQUIRED: nat := 21

  datatype Fed = Failed | Returned | Continued

  class Lzma2 {
    const lzma: Lzma
    const tempBuf: array<byte>
    var tempSize: nat
    var compressed: nat

    ghost var declaredIn: nat
    ghost var taken: seq<byte>
    ghost var started: Session
    ghost var packets: Packets

    constructor (lzma: Lzma)
      ensures this.lzma == lzma && fresh(tempBuf) && tempBuf.Length == 3 * IN_REQUIRED && tempSize == 0
    {
      this.lzma := lzma;
      tempBuf := new byte[3 * IN_REQUIRED];
      tempSize := 0;
    }

    ghost predicate Separate(b: XzBuf)
      reads lzma.dict`buf
    {
      && lzma.Separate() && tempBuf.Length == 3 * IN_REQUIRED
      && tempBuf != lzma.dict.buf && tempBuf != b.out && b.out != lzma.dict.buf
      && tempBuf as object != lzma.rc.probs as object && b.out as object != lzma.rc.probs as object
    }

    /** What was decoded and what waits is what was taken; the rest of the chunk is still to come. */
    ghost predicate Accounted()
      reads this, lzma.rc`stream, tempBuf
    {
      && tempSize < IN_REQUIRED && tempSize <= compressed && tempSize <= tempBuf.Length
      && taken == lzma.rc.stream + tempBuf[..tempSize]
      && compressed + |lzma.rc.stream| + 5 == declaredIn
    }

    /** The chunk so far is what `packets` say, starting from the session `started`. */
    ghost predicate Decoded()
      reads this`started, this`packets, lzma, lzma.rc`trace, lzma.dict`history, lzma.dict`end
    {
      && ValidProps(lzma.props) && Legal(started, packets) && Windowed(started, packets, lzma.dict.end)
      && (lzma.len > 0 ==> lzma.rep0 < |lzma.dict.history|) && lzma.CutShort(packets, 0)
      && lzma.TheSession() == Play(started, packets)
      && lzma.rc.trace == SessionBits(Start, lzma.props, started, packets)
    }

    ghost predicate Running()
      reads this, lzma, lzma.rc, lzma.rc.probs, lzma.dict, lzma.dict.buf, tempBuf
    {
      && lzma.Valid() && lzma.rc.Tracks() && lzma.rc.range >= TOP
      && Accounted() && Decoded()
    }

    /** The bits decoded go on, after legal packets, with one that copies from outside the window. */
    ghost predicate Strayed()
      reads this`started, this`packets, lzma, lzma.rc, lzma.rc.probs, lzma.dict
    {
      lzma.rc.Tracks() && lzma.Stopped(started, Start, packets)
    }

    /** More bytes were decoded than the chunk has. */
    ghost predicate Overran()
      reads this, lzma, lzma.rc, lzma.rc.probs, lzma.dict, lzma.dict.buf
    {
      lzma.Valid() && lzma.rc.Tracks() && lzma.rc.range >= TOP && Decoded() && |lzma.rc.stream| + 5 > declaredIn
    }

    /** The chunk's bytes among those decoded are the first of `known`. */
    ghost predicate Shows(known: seq<byte>)
      reads this`declaredIn, lzma.rc`stream
    {
      var k := if |lzma.rc.stream| + 5 <= declaredIn then |lzma.rc.stream| else declaredIn - 5;
      0 <= k <= |known| && lzma.rc.stream[..k] == known[..k]
    }

    /** Why a chunk was refused, given the bytes known of it. */
    ghost predicate Refused(known: seq<byte>)
      reads this, lzma, lzma.rc, lzma.rc.probs, lzma.dict, lzma.dict.buf
    {
      (Strayed() || Overran()) && Shows(known)
    }

    /** The last packet was begun before the present end of the history, which its pending part goes beyond. */
    lemma LastBegun()
      requires Decoded()
      ensures |Play(started, packets).history| == |lzma.dict.history| + lzma.len
      ensures packets.Add? ==> |Play(started, packets.prev).history| < |lzma.dict.history|
    {
      hide SessionBits, LzCopy, After;
      LzCopyBytes(lzma.dict.history, lzma.rep0, lzma.len);
      if packets.Add? {
        var u := Play(started, packets.prev);
        if !packets.last.Literal? {
          LzCopyBytes(u.history, After(u.coder, packets.last).reps[0], PacketLength(packets.last));
        }
      }
    }

    /** Runs the symbol decoder on a buffer and adds its packets to the chunk's. */
    method Decode() returns (ok: bool)
      requires lzma.Valid() && lzma.Separate() && lzma.rc.Tracks() && lzma.rc.range >= TOP && Decoded()
      requires lzma.dict.pos <= lzma.dict.limit
      requires lzma.rc.inPos <= lzma.rc.inLimit && lzma.rc.inLimit + IN_REQUIRED <= |lzma.rc.input|
      modifies this`packets
      modifies lzma`state, lzma`rep0, lzma`rep1, lzma`rep2, lzma`rep3, lzma`len
      modifies lzma.rc`range, lzma.rc`code, lzma.rc`inPos, lzma.rc`stream, lzma.rc`trace, lzma.rc`mark, lzma.rc`markPos
      modifies lzma.rc`base, lzma.rc`basePos, lzma.rc.probs
      modifies lzma.dict`pos, lzma.dict`full, lzma.dict`history, lzma.dict.buf
      ensures lzma.dict.Valid() && lzma.dict.pos <= lzma.dict.limit
      ensures old(lzma.rc.inPos) <= lzma.rc.inPos <= lzma.rc.inLimit + IN_REQUIRED
      ensures lzma.rc.stream == old(lzma.rc.stream) + lzma.rc.input[old(lzma.rc.inPos)..lzma.rc.inPos]
      ensures ok ==> lzma.Valid() && lzma.rc.Tracks() && lzma.rc.range >= TOP && Decoded()
      ensures ok ==> old(lzma.dict.pos) <= lzma.dict.pos
      ensures ok && old(lzma.dict.HasSpace()) ==> old(lzma.dict.pos) < lzma.dict.pos
      ensures !ok ==> Strayed() && old(lzma.dict.pos) <= lzma.dict.pos
    {
      hide Dictionary.Valid, RangeDecoder.Tracks, Legal, Play, SessionBits, LzCopy, Strays, Windowed;
      ghost var ps;
      ok, ps := lzma.DecodeSymbols();
      if ok {
        JoinRuns(Start, lzma.props, started, packets, ps);
        JoinWindowed(started, packets, ps, lzma.props, lzma.dict.end);
      } else {
        JoinStrays(Start, lzma.props, started, packets, ps, lzma.dict.end, lzma.rc.trace);
      }
      packets := Join(packets, ps);
    }

    /** How many bytes of input to put behind those waiting. */
    function Room(b: XzBuf): (n: nat)
      reads this, b
      requires b.Valid() && tempSize < IN_REQUIRED && tempSize <= compressed
      ensures n <= |b.input| - b.inPos && tempSize + n <= 2 * IN_REQUIRED && tempSize + n <= compressed
      ensures n == |b.input| - b.inPos || tempSize + n == 2 * IN_REQUIRED || tempSize + n == compressed
    {
      var n := 2 * IN_REQUIRED - tempSize;
      var n := if n > compressed - tempSize then compressed - tempSize else n;
      if n > |b.input| - b.inPos then |b.input| - b.inPos else n
    }

    /** Puts `n` bytes behind those waiting, zeroes after the end of the chunk, and aims the decoder at them. */
    method TopUp(b: XzBuf, n: nat)
      requires b.Valid() && Separate(b) && tempSize < IN_REQUIRED && tempSize <= compressed && n == Room(b)
      requires tempSize + n == compressed || tempSize + n >= IN_REQUIRED
      modifies tempBuf, lzma.rc`input, lzma.rc`inPos, lzma.rc`inLimit
      ensures tempBuf[..tempSize] == old(tempBuf[..tempSize])
      ensures tempBuf[..tempSize + n] == old(tempBuf[..tempSize]) + b.input[b.inPos..b.inPos + n]
      ensures tempSize + n == compressed ==> forall i :: compressed <= i < tempBuf.Length ==> tempBuf[i] == 0
      ensures lzma.rc.input == tempBuf[..] && lzma.rc.inPos == 0 && lzma.rc.inLimit + IN_REQUIRED <= |lzma.rc.input|
      ensures tempSize + n < compressed ==> lzma.rc.inLimit + IN_REQUIRED == tempSize + n
    {
      PutBehind(b.input[b.inPos..b.inPos + n]);
      ghost var waiting := tempBuf[..tempSize + n];
      if tempSize + n == compressed {
        forall i | tempSize + n <= i < tempBuf.Length {
          tempBuf[i] := 0;
        }
        lzma.rc.inLimit := tempSize + n;
      } else {
        lzma.rc.inLimit := tempSize + n - IN_REQUIRED;
      }
      assert tempBuf[..tempSize + n] == waiting;
      assert tempBuf[..tempSize] == waiting[..tempSize];
      lzma.rc.input := tempBuf[..];
      lzma.rc.inPos := 0;
    }

    /** Decodes from the waiting bytes, topped up so that the decoder can leave them behind. */
    method FromTemp(b: XzBuf) returns (fed: Fed)
      requires Running() && Separate(b) && b.Valid() && lzma.dict.pos <= lzma.dict.limit
      modifies this`packets, this`tempSize, this`compressed, this`taken, tempBuf, b`inPos
      modifies lzma`state, lzma`rep0, lzma`rep1, lzma`rep2, lzma`rep3, lzma`len
      modifies lzma.rc`range, lzma.rc`code, lzma.rc`input, lzma.rc`inPos, lzma.rc`inLimit, lzma.rc`stream, lzma.rc`trace
      modifies lzma.rc`mark, lzma.rc`markPos, lzma.rc`base, lzma.rc`basePos, lzma.rc.probs
      modifies lzma.dict`pos, lzma.dict`full, lzma.dict`history, lzma.dict.buf
      ensures lzma.dict.Valid() && lzma.dict.pos <= lzma.dict.limit && b.Valid() && old(b.inPos) <= b.inPos
      ensures !fed.Failed? ==> Running() && taken == old(taken) + b.input[old(b.inPos)..b.inPos]
      ensures !fed.Failed? ==> old(lzma.dict.pos) <= lzma.dict.pos
      ensures fed.Continued? ==> tempSize == 0
      ensures !fed.Failed? && old(lzma.dict.HasSpace()) ==>
                old(lzma.dict.pos) < lzma.dict.pos || (fed.Returned? && b.inPos == |b.input| && tempSize < compressed)
      ensures fed.Failed? ==> Refused(old(taken) + b.input[old(b.inPos)..]) && old(lzma.dict.pos) <= lzma.dict.pos
    {
      hide Dictionary.Valid, RangeDecoder.Tracks, Decoded, Lzma.PropsSet, Strayed, Refused;
      var n := Room(b);
      if tempSize + n != compressed && tempSize + n < IN_REQUIRED {
        Wait(b, n);
        return Returned;
      }
      ghost var before, waiting := lzma.rc.stream, tempBuf[..tempSize];
      var ok := DecodeTemp(b, n);
      if !ok || lzma.rc.inPos > tempSize + n {
        RefusedTemp(before, waiting, b.input, b.inPos, tempBuf[..], tempSize + n, lzma.rc.inPos);
        return Failed;
      }
      fed := if lzma.rc.inPos < tempSize then Returned else Continued;
      LeaveBehind(b, n, lzma.rc.inPos, before, tempBuf[..tempSize + n]);
    }

    /** Tops up the waiting bytes by `n` and decodes from them. */
    method DecodeTemp(b: XzBuf, n: nat) returns (ok: bool)
      requires Running() && Separate(b) && b.Valid() && lzma.dict.pos <= lzma.dict.limit && n == Room(b)
      requires tempSize + n == compressed || tempSize + n >= IN_REQUIRED
      modifies this`packets, tempBuf
      modifies lzma`state, lzma`rep0, lzma`rep1, lzma`rep2, lzma`rep3, lzma`len
      modifies lzma.rc`range, lzma.rc`code, lzma.rc`input, lzma.rc`inPos, lzma.rc`inLimit, lzma.rc`stream, lzma.rc`trace
      modifies lzma.rc`mark, lzma.rc`markPos, lzma.rc`base, lzma.rc`basePos, lzma.rc.probs
      modifies lzma.dict`pos, lzma.dict`full, lzma.dict`history, lzma.dict.buf
      ensures lzma.dict.Valid() && old(lzma.dict.pos) <= lzma.dict.pos <= lzma.dict.limit
      ensures tempBuf[..tempSize] == old(tempBuf[..tempSize])
      ensures tempBuf[..tempSize + n] == tempBuf[..][..tempSize + n]
              == old(tempBuf[..tempSize]) + b.input[b.inPos..b.inPos + n]
      ensures lzma.rc.inPos <= tempBuf.Length && (lzma.rc.inPos <= tempSize + n || tempSize + n == compressed)
      ensures lzma.rc.stream == old(lzma.rc.stream) + tempBuf[..][..lzma.rc.inPos]
      ensures ok ==> lzma.Valid() && lzma.rc.Tracks() && lzma.rc.range >= TOP && Decoded()
      ensures ok && old(lzma.dict.HasSpace()) ==> old(lzma.dict.pos) < lzma.dict.pos
      ensures !ok ==> Strayed()
    {
      hide Dictionary.Valid, RangeDecoder.Tracks, Decoded, Lzma.PropsSet, Strayed;
      TopUp(b, n);
      ok := Decode();
    }

    /** What the decoder has used of its buffer are bytes of the chunk, up to its end. */
    lemma RefusedTemp(before: seq<byte>, waiting: seq<byte>, input: seq<byte>, from: nat, buf: seq<byte>, m: nat,
        used: nat)
      requires Strayed() || Overran()
      requires |waiting| <= m <= |buf| && from + (m - |waiting|) <= |input| && used <= |buf|
      requires buf[..m] == waiting + input[from..from + (m - |waiting|)] && lzma.rc.stream == before + buf[..used]
      requires declaredIn >= 5 + |before| && (used <= m || |before| + m + 5 == declaredIn)
      ensures Refused(before + waiting + input[from..])
    {
      hide Strayed, Overran;
      FirstBytes(before, waiting, input, from, buf, m, used,
                 if |lzma.rc.stream| + 5 <= declaredIn then |lzma.rc.stream| else declaredIn - 5);
    }

    /** Too little to decode yet: keep it all. */
    method Wait(b: XzBuf, n: nat)
      requires Accounted() && Separate(b) && b.Valid() && n <= |b.input| - b.inPos
      requires tempSize + n < IN_REQUIRED && tempSize + n <= compressed
      modifies this`tempSize, this`taken, tempBuf, b`inPos
      ensures Accounted() && b.Valid() && b.inPos == old(b.inPos) + n && tempSize == old(tempSize) + n
      ensures taken == old(taken) + b.input[old(b.inPos)..b.inPos]
    {
      ghost var waiting := tempBuf[..tempSize];
      var data := b.input[b.inPos..b.inPos + n];
      PutBehind(data);
      Longer(lzma.rc.stream, waiting, data);
      tempSize := tempSize + n;
      taken := taken + data;
      b.inPos := b.inPos + n;
    }

    method PutBehind(data: seq<byte>)
      requires tempSize + |data| <= tempBuf.Length
      modifies tempBuf
      ensures tempBuf[..tempSize + |data|] == old(tempBuf[..tempSize]) + data
    {
      hide Overwrite;
      ghost var old' := tempBuf[..];
      assert old'[..tempSize] == tempBuf[..tempSize];
      Memcpy(tempBuf, tempSize, data);
      assert tempBuf[..tempSize + |data|] == tempBuf[..][..tempSize + |data|];
    }

    /** Drops the `used` decoded bytes from those waiting, or from the input beyond them. */
    method LeaveBehind(b: XzBuf, n: nat, used: nat, ghost before: seq<byte>, ghost waiting: seq<byte>)
      requires Separate(b) && b.Valid() && n <= |b.input| - b.inPos && tempSize + n <= tempBuf.Length
      requires used <= tempSize + n <= compressed && tempSize < IN_REQUIRED
      requires tempBuf[..tempSize + n] == waiting && waiting[tempSize..] == b.input[b.inPos..b.inPos + n]
      requires taken == before + waiting[..tempSize]
      requires lzma.rc.stream == before + waiting[..used]
      requires compressed - used + |lzma.rc.stream| + 5 == declaredIn
      modifies this`tempSize, this`compressed, this`taken, tempBuf, b`inPos
      ensures Accounted() && b.Valid() && old(b.inPos) <= b.inPos
      ensures taken == old(taken) + b.input[old(b.inPos)..b.inPos]
      ensures used >= old(tempSize) ==> tempSize == 0
    {
      compressed := compressed - used;
      if used < tempSize {
        Dropped(before, waiting, used, tempSize);
        forall i | used <= i < tempSize
          ensures tempBuf[i] == waiting[i]
        {
          assert tempBuf[..tempSize + n][i] == tempBuf[i];
        }
        assert tempBuf[used..tempSize] == waiting[used..tempSize];
        Memcpy(tempBuf, 0, tempBuf[used..tempSize]);
        tempSize := tempSize - used;
        OverwriteFirst(old(tempBuf[..]), waiting[used..old(tempSize)]);
        assert tempBuf[..tempSize] == tempBuf[..][..tempSize];
      } else {
        Dropped(before, waiting, tempSize, used);
        var m := used - tempSize;
        assert waiting[tempSize..used] == waiting[tempSize..][..m] == b.input[b.inPos..b.inPos + m];
        taken := taken + b.input[b.inPos..b.inPos + m];
        b.inPos := b.inPos + m;
        tempSize := 0;
      }
    }

    /** Decodes straight from the caller's input while at least 21 bytes are left of it. */
    method FromInput(b: XzBuf) returns (ok: bool)
      requires Running() && Separate(b) && b.Valid() && lzma.dict.pos <= lzma.dict.limit
      requires tempSize == 0 && |b.input| - b.inPos >= IN_REQUIRED
      modifies this`packets, this`tempSize, this`compressed, this`taken, tempBuf, b`inPos
      modifies lzma`state, lzma`rep0, lzma`rep1, lzma`rep2, lzma`rep3, lzma`len
      modifies lzma.rc`range, lzma.rc`code, lzma.rc`input, lzma.rc`inPos, lzma.rc`inLimit, lzma.rc`stream, lzma.rc`trace
      modifies lzma.rc`mark, lzma.rc`markPos, lzma.rc`base, lzma.rc`basePos, lzma.rc.probs
      modifies lzma.dict`pos, lzma.dict`full, lzma.dict`history, lzma.dict.buf
      ensures lzma.dict.Valid() && lzma.dict.pos <= lzma.dict.limit && b.Valid() && old(b.inPos) <= b.inPos
      ensures ok ==> Running() && tempSize == 0 && taken == old(taken) + b.input[old(b.inPos)..b.inPos]
      ensures ok ==> old(lzma.dict.pos) <= lzma.dict.pos
      ensures ok && old(lzma.dict.HasSpace()) ==> old(lzma.dict.pos) < lzma.dict.pos
      ensures !ok ==> Refused(old(taken) + b.input[old(b.inPos)..]) && old(lzma.dict.pos) <= lzma.dict.pos
    {
      hide Dictionary.Valid, RangeDecoder.Tracks, Decoded, Lzma.Valid, Strayed, Refused;
      ghost var before := lzma.rc.stream;
      assert taken == before;
      ok := DecodeInput(b);
      if !ok || lzma.rc.inPos - b.inPos > compressed {
        RefusedInput(before, b.input, b.inPos, lzma.rc.inPos);
        return false;
      }
      compressed := compressed - (lzma.rc.inPos - b.inPos);
      taken := taken + b.input[b.inPos..lzma.rc.inPos];
      b.inPos := lzma.rc.inPos;
    }

    /** Aims the decoder at the caller's input, as far as the chunk or the input goes, and decodes. */
    method DecodeInput(b: XzBuf) returns (ok: bool)
      requires Running() && Separate(b) && b.Valid() && lzma.dict.pos <= lzma.dict.limit
      requires |b.input| - b.inPos >= IN_REQUIRED
      modifies this`packets
      modifies lzma`state, lzma`rep0, lzma`rep1, lzma`rep2, lzma`rep3, lzma`len
      modifies lzma.rc`range, lzma.rc`code, lzma.rc`input, lzma.rc`inPos, lzma.rc`inLimit, lzma.rc`stream, lzma.rc`trace
      modifies lzma.rc`mark, lzma.rc`markPos, lzma.rc`base, lzma.rc`basePos, lzma.rc.probs
      modifies lzma.dict`pos, lzma.dict`full, lzma.dict`history, lzma.dict.buf
      ensures lzma.dict.Valid() && old(lzma.dict.pos) <= lzma.dict.pos <= lzma.dict.limit
      ensures b.inPos <= lzma.rc.inPos <= |b.input|
      ensures lzma.rc.stream == old(lzma.rc.stream) + b.input[b.inPos..lzma.rc.inPos]
      ensures ok ==> lzma.Valid() && lzma.rc.Tracks() && lzma.rc.range >= TOP && Decoded()
      ensures ok && old(lzma.dict.HasSpace()) ==> old(lzma.dict.pos) < lzma.dict.pos
      ensures !ok ==> Strayed()
    {
      hide Dictionary.Valid, RangeDecoder.Tracks, Decoded, Lzma.Valid, Strayed;
      lzma.rc.input := b.input;
      lzma.rc.inPos := b.inPos;
      if |b.input| - b.inPos >= compressed + IN_REQUIRED {
        lzma.rc.inLimit := b.inPos + compressed;
      } else {
        lzma.rc.inLimit := |b.input| - IN_REQUIRED;
      }
      ok := Decode();
    }

    lemma RefusedInput(before: seq<byte>, input: seq<byte>, from: nat, to: nat)
      requires Strayed() || Overran()
      requires from <= to <= |input| && lzma.rc.stream == before + input[from..to] && declaredIn >= 5 + |before|
      ensures Refused(before + input[from..])
    {
      hide Strayed, Overran;
      InputBytes(before, input, from, to,
          if |lzma.rc.stream| + 5 <= declaredIn then |lzma.rc.stream| else declaredIn - 5);
    }

    /**
     Feeds the chunk's bytes to the symbol decoder from wherever they are. However the input is
     cut, the decoder never reads outside the buffer it is given, and the bytes it decodes are
     the chunk's, each once and in order.
     */
    method Feed(b: XzBuf) returns (ok: bool)
      requires Running() && Separate(b) && b.Valid() && lzma.dict.pos <= lzma.dict.limit
      modifies this`packets, this`tempSize, this`compressed, this`taken, tempBuf, b`inPos
      modifies lzma`state, lzma`rep0, lzma`rep1, lzma`rep2, lzma`rep3, lzma`len
      modifies lzma.rc`range, lzma.rc`code, lzma.rc`input, lzma.rc`inPos, lzma.rc`inLimit, lzma.rc`stream, lzma.rc`trace
      modifies lzma.rc`mark, lzma.rc`markPos, lzma.rc`base, lzma.rc`basePos, lzma.rc.probs
      modifies lzma.dict`pos, lzma.dict`full, lzma.dict`history, lzma.dict.buf
      ensures lzma.dict.Valid() && lzma.dict.pos <= lzma.dict.limit && b.Valid() && old(b.inPos) <= b.inPos
      ensures ok ==> Running() && taken == old(taken) + b.input[old(b.inPos)..b.inPos]
      ensures ok ==> old(lzma.dict.pos) <= lzma.dict.pos
      ensures ok && old(lzma.dict.HasSpace()) ==>
                || old(lzma.dict.pos) < lzma.dict.pos
                || (b.inPos == |b.input| && tempSize < compressed)
                || (old(tempSize < compressed) && tempSize == compressed)
      ensures !ok ==> Refused(old(taken) + b.input[old(b.inPos)..]) && old(lzma.dict.pos) <= lzma.dict.pos
    {
      hide Dictionary.Valid, RangeDecoder.Tracks, Decoded, Refused;
      if tempSize > 0 || compressed == 0 {
        var fed := FromTemp(b);
        if fed.Failed? {
          return false;
        }
        if fed.Returned? {
          return true;
        }
      }
      ghost var i := b.inPos;
      OneCut(old(taken), b.input, old(b.inPos), i, |b.input|);
      ok := FeedRest(b);
      OneCut(old(taken), b.input, old(b.inPos), i, b.inPos);
    }

    /** With nothing waiting: decode from the input, then keep what is too short to decode from. */
    method FeedRest(b: XzBuf) returns (ok: bool)
      requires Running() && Separate(b) && b.Valid() && lzma.dict.pos <= lzma.dict.limit && tempSize == 0
      modifies this`packets, this`tempSize, this`compressed, this`taken, tempBuf, b`inPos
      modifies lzma`state, lzma`rep0, lzma`rep1, lzma`rep2, lzma`rep3, lzma`len
      modifies lzma.rc`range, lzma.rc`code, lzma.rc`input, lzma.rc`inPos, lzma.rc`inLimit, lzma.rc`stream, lzma.rc`trace
      modifies lzma.rc`mark, lzma.rc`markPos, lzma.rc`base, lzma.rc`basePos, lzma.rc.probs
      modifies lzma.dict`pos, lzma.dict`full, lzma.dict`history, lzma.dict.buf
      ensures lzma.dict.Valid() && lzma.dict.pos <= lzma.dict.limit && b.Valid() && old(b.inPos) <= b.inPos
      ensures ok ==> Running() && taken == old(taken) + b.input[old(b.inPos)..b.inPos]
      ensures ok ==> old(lzma.dict.pos) <= lzma.dict.pos
      ensures ok && old(lzma.dict.HasSpace()) ==>
                || old(lzma.dict.pos) < lzma.dict.pos
                || (b.inPos == |b.input| && tempSize < compressed)
                || tempSize == compressed
      ensures !ok ==> Refused(old(taken) + b.input[old(b.inPos)..]) && old(lzma.dict.pos) <= lzma.dict.pos
    {
      hide Dictionary.Valid, RangeDecoder.Tracks, Decoded, Refused;
      if |b.input| - b.inPos >= IN_REQUIRED {
        ok := FromInput(b);
        if !ok {
          return false;
        }
      }
      ghost var i := b.inPos;
      assert taken == old(taken) + b.input[old(b.inPos)..i];
      var left := |b.input| - b.inPos;
      if left < IN_REQUIRED {
        Wait(b, if left > compressed then compressed else left);
        OneCut(old(taken), b.input, old(b.inPos), i, b.inPos);
      }
      return true;
    }
  }

  /** The first bytes of what was decoded from a buffer are those that were put into it. */
  lemma FirstBytes(before: seq<byte>, waiting: seq<byte>, input: seq<byte>, from: nat, buf: seq<byte>, m: nat,
      used: nat, k: nat)
    requires |waiting| <= m <= |buf| && from + (m - |waiting|) <= |input| && used <= |buf|
    requires buf[..m] == waiting + input[from..from + (m - |waiting|)]
    requires k <= |before| + used && k <= |before| + m
    ensures k <= |before + waiting + input[from..]|
    ensures (before + buf[..used])[..k] == (before + waiting + input[from..])[..k]
  {
    forall i | 0 <= i < k
      ensures (before + buf[..used])[i] == (before + waiting + input[from..])[i]
    {
      if i >= |before| {
        assert buf[i - |before|] == buf[..m][i - |before|];
      }
    }
  }

  lemma InputBytes(before: seq<byte>, input: seq<byte>, from: nat, to: nat, k: nat)
    requires from <= to <= |input| && k <= |before| + (to - from)
    ensures k <= |before + input[from..]| && (before + input[from..to])[..k] == (before + input[from..])[..k]
    ensures before + [] == before
  {
    assert input[from..] == input[from..to] + input[to..];
    assert before + input[from..] == (before + input[from..to]) + input[to..];
  }

  lemma Longer(before: seq<byte>, waiting: seq<byte>, data: seq<byte>)
    ensures before + waiting + data == before + (waiting + data)
  {
  }

  lemma Dropped(before: seq<byte>, waiting: seq<byte>, i: nat, j: nat)
    requires i <= j <= |waiting|
    ensures before + waiting[..j] == before + waiting[..i] + waiting[i..j]
  {
    assert waiting[..j] == waiting[..i] + waiting[i..j];
  }
}
