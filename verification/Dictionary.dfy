/**
 The LZ77 dictionary: a circular buffer that stands for an unbounded history.

 `history` is everything written since the last reset. `Valid` says that the buffer holds
 its last `full` bytes and that what was flushed is the history without the pending bytes.
 */
module LzDictionary {
  import opened BitArithmetic

  /** The caller's buffers (struct xz_buf). */
  class XzBuf {
    const input: seq<byte>
    const out: array<byte>
    var inPos: nat
    var outPos: nat

    ghost predicate Valid()
      reads this
    {
      inPos <= |input| && outPos <= out.Length
    }

    constructor (input: seq<byte>, out: array<byte>)
      ensures this.input == input && this.out == out && inPos == 0 && outPos == 0
      ensures Valid()
    {
      this.input := input;
      this.out := out;
      inPos, outPos := 0, 0;
    }
  }

  /** A sequence with the block `data` written over it at `at`. */
  function Overwrite(s: seq<byte>, at: nat, data: seq<byte>): (r: seq<byte>)
    requires at + |data| <= |s|
    ensures |r| == |s| && r[..at] == s[..at] && r[at..at + |data|] == data
    ensures r[..at + |data|] == s[..at] + data
  {
    s[..at] + data + s[at + |data|..]
  }

  lemma OverwriteFirst(s: seq<byte>, data: seq<byte>)
    requires |data| <= |s|
    ensures Overwrite(s, 0, data)[..|data|] == data
  {
  }

  method Memcpy(dst: array<byte>, at: nat, src: seq<byte>)
    requires at + |src| <= dst.Length
    modifies dst
    ensures dst[..] == Overwrite(old(dst[..]), at, src)
  {
    forall i | 0 <= i < |src| {
      dst[at + i] := src[i];
    }
  }

  /** A history extended by `n` bytes, each a copy of the byte `dist + 1` places before it. */
  function LzCopy(h: seq<byte>, dist: nat, n: nat): (r: seq<byte>)
    requires n > 0 ==> dist < |h|
    decreases n
  {
    if n == 0 then h else LzCopy(h + [h[|h| - 1 - dist]], dist, n - 1)
  }

  /** The overlapping copy: old bytes stay, each new byte equals the one `dist + 1` earlier. */
  lemma {:induction false} LzCopyBytes(h: seq<byte>, dist: nat, n: nat)
    requires n > 0 ==> dist < |h|
    ensures |LzCopy(h, dist, n)| == |h| + n
    ensures LzCopy(h, dist, n)[..|h|] == h
    ensures forall i :: |h| <= i < |h| + n ==> LzCopy(h, dist, n)[i] == LzCopy(h, dist, n)[i - dist - 1]
    decreases n
  {
    if n > 0 {
      var h' := h + [h[|h| - 1 - dist]];
      LzCopyBytes(h', dist, n - 1);
      var r := LzCopy(h, dist, n);
      assert r[..|h|] == r[..|h'|][..|h|] == h;
      assert r[|h|] == h'[|h|] == h[|h| - 1 - dist] == r[|h| - 1 - dist];
    }
  }

  /** A copy interrupted after `a` bytes and resumed for `b` more is one copy of a + b bytes. */
  lemma {:induction false} LzCopyResumes(h: seq<byte>, dist: nat, a: nat, b: nat)
    requires a + b > 0 ==> dist < |h|
    ensures |LzCopy(h, dist, a)| == |h| + a
    ensures LzCopy(LzCopy(h, dist, a), dist, b) == LzCopy(h, dist, a + b)
    decreases a
  {
    if a > 0 {
      LzCopyResumes(h + [h[|h| - 1 - dist]], dist, a - 1, b);
    }
  }

  // ----- the circular buffer, as a value -----

  /** Where a ring of `size` slots keeps the byte at distance `dist` from write position `pos`. */
  function RingIndex(size: nat, pos: nat, dist: nat): int {
    if dist >= pos then pos - dist - 1 + size else pos - dist - 1
  }

  /** The ring holds the last `f` bytes of `h`, the latest just before `pos`. */
  ghost predicate RingHolds(ring: seq<byte>, pos: nat, f: nat, h: seq<byte>) {
    && 0 < |ring| && pos <= f <= |ring|
    && f <= |h| && (f < |ring| ==> pos == f == |h|)
    && (forall k :: 0 <= k < f ==> ring[RingIndex(|ring|, pos, k)] == h[|h| - 1 - k])
  }

  function Max(a: nat, b: nat): nat { if a < b then b else a }

  lemma RingPut(ring: seq<byte>, pos: nat, f: nat, h: seq<byte>, b: byte)
    requires RingHolds(ring, pos, f, h) && pos < |ring|
    ensures RingHolds(ring[pos := b], pos + 1, Max(f, pos + 1), h + [b])
  {
    var ring', pos', h' := ring[pos := b], pos + 1, h + [b];
    forall k | 0 <= k < Max(f, pos')
      ensures ring'[RingIndex(|ring'|, pos', k)] == h'[|h'| - 1 - k]
    {
      if k > 0 {
        assert RingIndex(|ring|, pos', k) == RingIndex(|ring|, pos, k - 1) != pos;
      }
    }
  }

  /** One byte of an overlapping copy: what the ring holds after it, and what it read. */
  lemma RingCopy(ring: seq<byte>, pos: nat, f: nat, h: seq<byte>, dist: nat, n: nat)
    requires dist < f && dist < |h| && pos < |ring|
    requires |LzCopy(h, dist, n)| == |h| + n && RingHolds(ring, pos, f, LzCopy(h, dist, n))
    ensures 0 <= RingIndex(|ring|, pos, dist) < |ring|
    ensures |LzCopy(h, dist, n + 1)| == |h| + n + 1
    ensures LzCopy(h, dist, n + 1) == LzCopy(h, dist, n) + [ring[RingIndex(|ring|, pos, dist)]]
    ensures RingHolds(ring[pos := ring[RingIndex(|ring|, pos, dist)]], pos + 1, Max(f, pos + 1), LzCopy(h, dist, n + 1))
  {
    LzCopyResumes(h, dist, n, 1);
    RingPut(ring, pos, f, LzCopy(h, dist, n), ring[RingIndex(|ring|, pos, dist)]);
  }

  lemma RingBounds(ring: seq<byte>, pos: nat, f: nat, h: seq<byte>)
    requires RingHolds(ring, pos, f, h)
    ensures pos <= f <= |ring| && f <= |h|
  {
  }

  lemma RingWrap(ring: seq<byte>, h: seq<byte>)
    requires RingHolds(ring, |ring|, |ring|, h)
    ensures RingHolds(ring, 0, |ring|, h)
  {
    forall k | 0 <= k < |ring|
      ensures ring[RingIndex(|ring|, 0, k)] == h[|h| - 1 - k]
    {
      assert RingIndex(|ring|, 0, k) == RingIndex(|ring|, |ring|, k);
    }
  }

  /** A block written at `pos` is the same as its bytes put one by one. */
  lemma {:induction false} RingWrite(ring: seq<byte>, pos: nat, f: nat, h: seq<byte>, data: seq<byte>)
    requires RingHolds(ring, pos, f, h) && pos + |data| <= |ring|
    ensures RingHolds(Overwrite(ring, pos, data), pos + |data|, Max(f, pos + |data|), h + data)
    decreases |data|
  {
    if data == [] {
      assert Overwrite(ring, pos, data) == ring && h + data == h;
    } else {
      var ring', h' := ring[pos := data[0]], h + [data[0]];
      RingPut(ring, pos, f, h, data[0]);
      RingWrite(ring', pos + 1, Max(f, pos + 1), h', data[1..]);
      assert Overwrite(ring', pos + 1, data[1..]) == Overwrite(ring, pos, data);
      assert h' + data[1..] == h + data;
    }
  }

  /** The bytes between two positions of one lap are the last ones of the history. */
  lemma RingTail(ring: seq<byte>, from: nat, pos: nat, f: nat, h: seq<byte>)
    requires RingHolds(ring, pos, f, h) && from <= pos
    ensures ring[from..pos] == h[|h| - (pos - from)..]
  {
    forall i | 0 <= i < pos - from
      ensures ring[from..pos][i] == h[|h| - (pos - from)..][i]
    {
      assert RingIndex(|ring|, pos, pos - 1 - (from + i)) == from + i;
    }
  }

  /** Where writing `n` bytes from `pos` on leads in a ring of `end` slots. */
  function Lap(pos: nat, n: nat, end: nat): (p: nat)
    requires pos < end
    ensures p < end
    decreases n
  {
    if pos + n < end then pos + n else Lap(0, pos + n - end, end)
  }

  /** Writing on from where writing led. */
  lemma {:induction false} LapAgain(pos: nat, m: nat, n: nat, end: nat)
    requires pos < end && n <= end - Lap(pos, m, end)
    ensures var p := Lap(pos, m, end); Lap(pos, m + n, end) == if p + n == end then 0 else p + n
    decreases m
  {
    if pos + m >= end {
      LapAgain(0, pos + m - end, n, end);
    }
  }

  lemma LapDone(pos: nat, end: nat)
    requires pos < end
    ensures Lap(pos, 0, end) == pos
  {
  }

  /** Input taken in two pieces is the input taken. */
  lemma OneCut(before: seq<byte>, input: seq<byte>, i: nat, j: nat, k: nat)
    requires i <= j <= k <= |input|
    ensures before + input[i..j] + input[j..k] == before + input[i..k] && before + input[i..i] == before
    ensures input[i..] == input[i..|input|] && input[j..] == input[j..|input|]
  {
    assert input[i..k] == input[i..j] + input[j..k];
  }

  /** How many stored bytes can be moved: as many as are left of the chunk, the input and the output. */
  function Movable(left: nat, input: nat, output: nat): nat {
    Min(left, Min(input, output))
  }

  lemma MovableReached(left: nat, input: nat, output: nat, n: nat)
    requires n <= left && n <= input && n <= output && (n == left || n == input || n == output)
    ensures n == Movable(left, input, output)
  {
  }

  function Min(a: nat, b: nat): nat { if a < b then a else b }

  class Dictionary {
    var buf: array<byte>
    var start: nat
    var pos: nat
    var full: nat
    var limit: nat
    var end: nat

    ghost var history: seq<byte>
    ghost var emitted: seq<byte>

    ghost predicate Valid()
      reads this, buf
    {
      && end == buf.Length && end % 16 == 0
      && start <= pos && limit <= end
      && RingHolds(buf[..], pos, full, history)
      && (|history| - pos) % 16 == 0
      && emitted == history[..|history| - (pos - start)]
    }

    constructor (size: nat)
      requires size > 0 && size % 16 == 0
      ensures Valid() && end == size && history == [] && fresh(buf)
    {
      buf := new byte[size];
      end := size;
      start, pos, full, limit := 0, 0, 0, 0;
      history, emitted := [], [];
    }

    /** Replaces the buffer; its contents mean nothing until the next Reset. */
    method Resize(size: nat)
      requires size > 0
      modifies this`buf, this`end
      ensures fresh(buf) && end == buf.Length == size
    {
      buf := new byte[size];
      end := size;
    }

    method Reset()
      requires 0 < end == buf.Length && end % 16 == 0
      modifies this`start, this`pos, this`full, this`limit, this`history, this`emitted
      ensures Valid() && history == [] && emitted == [] && start == pos == full == limit == 0 < end
    {
      start, pos, limit, full := 0, 0, 0, 0;
      history, emitted := [], [];
    }

    method SetLimit(outMax: nat)
      requires Valid()
      modifies this`limit
      ensures Valid() && pos <= limit && limit - pos <= outMax
      ensures limit == end || limit - pos == outMax
    {
      if end - pos <= outMax {
        limit := end;
      } else {
        limit := pos + outMax;
      }
    }

    function HasSpace(): bool
      reads this
    {
      pos < limit
    }

    /** Reading back: the byte `dist + 1` places before the end of the history. */
    method Get(dist: nat) returns (b: byte)
      requires Valid() && (dist < full || (dist == 0 && full == 0))
      ensures b == if full == 0 then 0 else history[|history| - 1 - dist]
    {
      if full == 0 {
        return 0;
      }
      assert buf[..][RingIndex(end, pos, dist)] == history[|history| - 1 - dist];
      b := buf[RingIndex(end, pos, dist)];
    }

    method Put(b: byte)
      requires Valid() && HasSpace()
      modifies this`pos, this`full, this`history, buf
      ensures Valid() && pos == old(pos) + 1 && full == Max(old(full), pos) && full <= |history| && pos <= limit
      ensures history == old(history) + [b]
    {
      RingPut(buf[..], pos, full, history, b);
      buf[pos] := b;
      assert buf[..] == old(buf[..])[pos := b];
      pos := pos + 1;
      if full < pos {
        full := pos;
      }
      history := history + [b];
    }

    /** Copies up to `len` bytes from `dist + 1` places back; `left` of them did not fit. */
    method Repeat(len: nat, dist: nat) returns (ok: bool, left: nat)
      requires Valid() && HasSpace() && len > 0
      modifies this`pos, this`full, this`history, buf
      ensures Valid() && full <= |history| && pos <= limit
      ensures ok <==> dist < old(full)
      ensures !ok ==> left == len && pos == old(pos) && full == old(full) && history == old(history)
      ensures ok ==> var n := len - left;
                     && n == (if limit - old(pos) < len then limit - old(pos) else len)
                     && pos == old(pos) + n && full == Max(old(full), pos) && history == LzCopy(old(history), dist, n)
    {
      if dist >= full {
        return false, len;
      }
      var n := if limit - pos < len then limit - pos else len;
      CopyBack(n, dist);
      LzCopyBytes(old(history), dist, n);
      if full < pos {
        full := pos;
      }
      return true, len - n;
    }

    /** The copying loop: `back` chases `pos` around the ring. */
    method CopyBack(n: nat, dist: nat)
      requires 0 < end == buf.Length && 0 < n <= end - pos && dist < full
      requires RingHolds(buf[..], pos, full, history)
      modifies this`pos, this`history, buf
      ensures pos == old(pos) + n && RingHolds(buf[..], pos, Max(full, pos), history)
      ensures |history| == |old(history)| + n && history == LzCopy(old(history), dist, n)
    {
      assert LzCopy(history, dist, 0) == history;
      assert pos <= full <= |history|;
      hide RingHolds, LzCopy;
      var back := RingIndex(end, pos, dist);
      ghost var h := history;
      for i := 0 to n
        invariant pos == old(pos) + i
        invariant i < n ==> back == RingIndex(end, pos, dist)
        invariant |history| == |h| + i && history == LzCopy(h, dist, i)
        invariant RingHolds(buf[..], pos, Max(full, pos), history)
      {
        ghost var ring := buf[..];
        RingCopy(ring, pos, Max(full, pos), h, dist, i);
        history := LzCopy(h, dist, i + 1);
        buf[pos] := buf[back];
        assert buf[..] == ring[pos := ring[back]];
        pos := pos + 1;
        back := back + 1;
        if back == end {
          back := 0;
        }
      }
    }

    /** Copies stored bytes from the input into the dictionary and straight to the output. */
    method Uncompressed(b: XzBuf, left: nat) returns (left': nat)
      requires Valid() && b.Valid() && start == pos < end && buf != b.out
      modifies this`start, this`pos, this`full, this`history, this`emitted, buf, b`inPos, b`outPos, b.out
      ensures Valid() && b.Valid() && start == pos < end && old(full) <= full <= |history|
      ensures old(b.inPos) <= b.inPos && left - left' == b.inPos - old(b.inPos) == b.outPos - old(b.outPos)
      ensures history == old(history) + b.input[old(b.inPos)..b.inPos]
      ensures b.out[..b.outPos] == old(b.out[..b.outPos]) + b.input[old(b.inPos)..b.inPos]
      ensures left' == 0 || b.inPos == |b.input| || b.outPos == b.out.Length
      ensures left - left' == old(Movable(left, |b.input| - b.inPos, b.out.Length - b.outPos))
      ensures pos == Lap(old(pos), left - left', end)
      ensures pos <= limit <==> old(Lap(pos, Movable(left, |b.input| - b.inPos, b.out.Length - b.outPos), end)) <= limit
    {
      hide Valid, Lap, Movable;
      FullIsWindow();
      LapDone(pos, end);
      ghost var h0, o0, i0, p0 := history, b.out[..b.outPos], b.inPos, pos;
      left' := left;
      while left' > 0 && b.inPos < |b.input| && b.outPos < b.out.Length
        invariant Valid() && b.Valid() && start == pos < end && old(full) <= full <= |history|
        invariant i0 <= b.inPos && left - left' == b.inPos - i0 == b.outPos - old(b.outPos)
        invariant history == h0 + b.input[i0..b.inPos]
        invariant b.out[..b.outPos] == o0 + b.input[i0..b.inPos]
        invariant pos == Lap(p0, left - left', end)
        decreases left'
      {
        ghost var i := b.inPos;
        var n := CopyIn(b, left');
        LapAgain(p0, left - left', n, end);
        left' := left' - n;
        OneCut(h0, b.input, i0, i, b.inPos);
        OneCut(o0, b.input, i0, i, b.inPos);
      }
      MovableReached(left, |b.input| - i0, b.out.Length - old(b.outPos), left - left');
    }

    /** One memcpy of stored bytes, with the wrap to the front of a full buffer. */
    method CopyIn(b: XzBuf, left: nat) returns (n: nat)
      requires Valid() && b.Valid() && start == pos < end && buf != b.out
      requires 0 < left && b.inPos < |b.input| && b.outPos < b.out.Length
      modifies this`start, this`pos, this`full, this`history, this`emitted, buf, b`inPos, b`outPos, b.out
      ensures Valid() && b.Valid() && start == pos < end && old(full) <= full <= |history|
      ensures 0 < n <= left && n <= end - old(pos) && b.inPos == old(b.inPos) + n && b.outPos == old(b.outPos) + n
      ensures history == old(history) + b.input[old(b.inPos)..b.inPos]
      ensures b.out[..b.outPos] == old(b.out[..b.outPos]) + b.input[old(b.inPos)..b.inPos]
      ensures pos == if old(pos) + n == end then 0 else old(pos) + n
    {
      hide RingHolds;
      n := |b.input| - b.inPos;
      if n > b.out.Length - b.outPos { n := b.out.Length - b.outPos; }
      if n > end - pos { n := end - pos; }
      if n > left { n := left; }
      Absorb(b.input[b.inPos..b.inPos + n]);
      Memcpy(b.out, b.outPos, b.input[b.inPos..b.inPos + n]);
      b.outPos := b.outPos + n;
      b.inPos := b.inPos + n;
    }

    method Absorb(data: seq<byte>)
      requires Valid() && start == pos < end && 0 < |data| <= end - pos
      modifies this`start, this`pos, this`full, this`history, this`emitted, buf
      ensures Valid() && start == pos < end && old(full) <= full <= |history|
      ensures history == old(history) + data
      ensures pos == if old(pos) + |data| == end then 0 else old(pos) + |data|
    {
      hide RingHolds;
      RingBounds(buf[..], pos, full, history);
      RingWrite(buf[..], pos, full, history, data);
      Memcpy(buf, pos, data);
      history := history + data;
      pos := pos + |data|;
      if full < pos {
        full := pos;
      }
      RingBounds(buf[..], pos, full, history);
      if pos == end {
        RingWrap(buf[..], history);
        pos := 0;
      }
      start := pos;
      emitted := history;
    }

    /** How much of the history can be read back: all of it, or as much as the buffer holds. */
    lemma FullIsWindow()
      requires Valid()
      ensures full == if |history| < end then |history| else end
    {
    }

    /** What has not been delivered yet is what lies between start and position. */
    lemma Undelivered()
      requires Valid()
      ensures |history| == |emitted| + (pos - start)
    {
    }

    /** With nothing left to flush, the whole history has been delivered. */
    lemma AllEmitted()
      requires Valid() && start == pos
      ensures emitted == history
    {
    }

    /** Delivers the pending bytes: exactly the part of the history not yet emitted. */
    method Flush(b: XzBuf) returns (n: nat)
      requires Valid() && b.Valid() && buf != b.out && pos - start <= b.out.Length - b.outPos
      modifies this`start, this`pos, this`emitted, b`outPos, b.out
      ensures Valid() && b.Valid() && start == pos < end
      ensures n == old(pos - start) == b.outPos - old(b.outPos)
      ensures emitted == history && old(emitted) <= emitted && |emitted| == |old(emitted)| + n
      ensures b.out[..b.outPos] == old(b.out[..b.outPos]) + emitted[|old(emitted)|..]
    {
      assert pos <= full <= |history| && full <= end;
      hide RingHolds;
      n := pos - start;
      var pending := buf[start..pos];
      RingTail(buf[..], start, pos, full, history);
      if pos == end {
        RingWrap(buf[..], history);
        pos := 0;
      }
      Memcpy(b.out, b.outPos, pending);
      start := pos;
      emitted := history;
      b.outPos := b.outPos + n;
    }
  }

  /**
   The position can pass the limit: a stored chunk of one byte after a reset, which leaves the limit
   at zero, does it.
   */
  method LimitPassed() returns (dict: Dictionary)
    ensures dict.Valid() && dict.history == [7] && dict.pos > dict.limit
  {
    dict := new Dictionary(16);
    var out := new byte[1];
    var b := new XzBuf([7], out);
    dict.Reset();
    assert Lap(0, 1, 16) == 1;
    hide Dictionary.Valid;
    var _ := dict.Uncompressed(b, 1);
  }
}
