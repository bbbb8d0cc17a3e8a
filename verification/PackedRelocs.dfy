/**
 APS2 packed relocations: a stream of signed LEB128 numbers that spells relocations in groups.
 The decoder is given as a fold over the stream and as the loop that computes it; an encoder
 for any grouping shows that nothing is lost.
 */
module PackedRelocs {
  import opened BitArithmetic
  import opened Sleb128

  datatype Reloc = Reloc(offset: u64, info: u64, addend: i64)

  /** How a group is packed: what its members share, and whether they have addends at all. */
  datatype Flags = Flags(byInfo: bool, byDelta: bool, byAddend: bool, hasAddend: bool)

  /** The running values, which carry over from group to group, and the relocations emitted so far. */
  datatype Cursor = Cursor(rest: seq<byte>, offset: u64, info: u64, addend: i64, out: seq<Reloc>)

  /** `Stuck`: the input ended early, and the group loop goes round without end. */
  datatype Outcome = BadMagic | Finished(relocs: seq<Reloc>) | Stuck(relocs: seq<Reloc>)

  const MAGIC: seq<byte> := [0x41, 0x50, 0x53, 0x32]

  function FlagsOf(word: u64): Flags {
    Flags(word % 2 == 1, word / 2 % 2 == 1, word / 4 % 2 == 1, word / 8 % 2 == 1)
  }

  /** Each flag is a bit of the word: 1, 2, 4 and 8. */
  lemma FlagsTold(word: u64)
    ensures FlagsOf(word)
            == Flags(BitAnd(word, 1) != 0, BitAnd(word, 2) != 0, BitAnd(word, 4) != 0, BitAnd(word, 8) != 0)
  {
    hide BitAnd;
    OneBit(word);
    OneBit(word / 2);
    OneBit(word / 4);
    OneBit(word / 8);
    AndStep(word, 2);
    AndStep(word, 4);
    AndStep(word / 2, 2);
    AndStep(word, 8);
    AndStep(word / 2, 4);
    AndStep(word / 4, 2);
  }

  lemma OneBit(v: nat)
    ensures BitAnd(v, 1) == v % 2
  {
  }

  /** The number at the head of the stream as the reader returns it. */
  function Int(s: seq<byte>): Number {
    Number(Signed(Wrap64(Sleb(s).value)), Sleb(s).rest)
  }

  function Plus(a: i64, d: int): i64 {
    Signed(Wrap64(a + d))
  }

  /** One relocation of a group. */
  function Member(c: Cursor, f: Flags, delta: u64): Cursor {
    var d := if f.byDelta then Number(delta, c.rest) else Int(c.rest);
    var i := if f.byInfo then Number(c.info, d.rest) else Int(d.rest);
    var a := if f.hasAddend && !f.byAddend then Int(i.rest) else Number(0, i.rest);
    var r := Reloc(Wrap64(c.offset + d.value), Wrap64(i.value),
        if f.hasAddend && !f.byAddend then Plus(c.addend, a.value) else c.addend);
    Cursor(a.rest, r.offset, r.info, r.addend, c.out + [r])
  }

  function Members(c: Cursor, f: Flags, delta: u64, n: nat): Cursor {
    if n == 0 then c else Member(Members(c, f, delta, n - 1), f, delta)
  }

  /** The head of a group: its size, its flags and what its members share. */
  datatype Head = Head(size: int, flags: Flags, delta: u64, cursor: Cursor)

  function GroupHead(c: Cursor): Head {
    var size := Int(c.rest);
    var word := Int(size.rest);
    var f := FlagsOf(Wrap64(word.value));
    var d := if f.byDelta then Int(word.rest) else Number(0, word.rest);
    var i := if f.byInfo then Int(d.rest) else Number(c.info, d.rest);
    var a := if f.hasAddend && f.byAddend then Int(i.rest) else Number(0, i.rest);
    var addend := if !f.hasAddend then 0 else if f.byAddend then Plus(c.addend, a.value) else c.addend;
    Head(size.value, f, Wrap64(d.value), Cursor(a.rest, c.offset, Wrap64(i.value), addend, c.out))
  }

  /** One turn of the group loop. */
  function Group(c: Cursor): Cursor {
    var h := GroupHead(c);
    Members(h.cursor, h.flags, h.delta, if h.size < 0 then 0 else h.size)
  }

  lemma Shrinks(s: seq<byte>)
    ensures |Int(s).rest| <= |s| && (s != [] ==> |Int(s).rest| < |s|)
  {
    Consumes(s);
  }

  lemma HeadConsumes(c: Cursor)
    ensures |GroupHead(c).cursor.rest| <= |c.rest| && GroupHead(c).cursor.out == c.out
    ensures c.rest != [] ==> |GroupHead(c).cursor.rest| < |c.rest|
  {
    hide FlagsOf, Wrap64, Plus, Int;
    var size := Int(c.rest).rest;
    Shrinks(c.rest);
    var word := Int(size).rest;
    Shrinks(size);
    Shrinks(word);
    Shrinks(Int(word).rest);
    Shrinks(Int(Int(word).rest).rest);
  }

  lemma {:induction false} MembersConsume(c: Cursor, f: Flags, delta: u64, n: nat)
    ensures |Members(c, f, delta, n).rest| <= |c.rest| && |Members(c, f, delta, n).out| == |c.out| + n
  {
    hide Wrap64, Plus, Int;
    if n > 0 {
      MembersConsume(c, f, delta, n - 1);
      var m := Members(c, f, delta, n - 1);
      Shrinks(m.rest);
      var d := if f.byDelta then m.rest else Int(m.rest).rest;
      Shrinks(d);
      Shrinks(if f.byInfo then d else Int(d).rest);
    }
  }

  lemma GroupConsumes(c: Cursor)
    ensures c.rest != [] ==> |Group(c).rest| < |c.rest|
    ensures |Group(c).out| == |c.out| + if GroupHead(c).size < 0 then 0 else GroupHead(c).size
  {
    hide GroupHead, Members;
    HeadConsumes(c);
    var h := GroupHead(c);
    MembersConsume(h.cursor, h.flags, h.delta, if h.size < 0 then 0 else h.size);
  }

  /** The group loop, until `total` relocations are accounted for. */
  function Walk(c: Cursor, idx: int, total: int): Outcome
    decreases |c.rest|
  {
    if idx >= total then Finished(c.out)
    else if c.rest == [] then Stuck(c.out)
    else
      GroupConsumes(c);
      Walk(Group(c), idx + GroupHead(c).size, total)
  }

  function Decode(stream: seq<byte>): Outcome {
    if |stream| < 4 || stream[..4] != MAGIC then BadMagic
    else
      var total := Int(stream[4..]);
      var first := Int(total.rest);
      Walk(Cursor(first.rest, Wrap64(first.value), 0, 0, []), 0, total.value)
  }

  /** The state after n turns of the group loop, and the sizes that those groups gave, added up. */
  function Turns(c: Cursor, n: nat): Cursor
    decreases n
  {
    if n == 0 then c else Turns(Group(c), n - 1)
  }

  function SizesOf(c: Cursor, n: nat): int
    decreases n
  {
    if n == 0 then 0 else GroupHead(c).size + SizesOf(Group(c), n - 1)
  }

  /** After n groups the input is used up, and till then the sizes never came to the total. */
  ghost predicate FallsShort(c: Cursor, idx: int, total: int, n: nat) {
    Turns(c, n).rest == [] && forall k: nat :: k <= n ==> idx + SizesOf(c, k) < total
  }

  /** Stuck exactly if the input is used up after some groups with every partial sum of sizes below the total. */
  lemma {:induction false} StuckExactly(c: Cursor, idx: int, total: int)
    ensures Walk(c, idx, total).Stuck? <==> exists n: nat :: FallsShort(c, idx, total, n)
    decreases |c.rest|
  {
    hide Group, GroupHead;
    assert SizesOf(c, 0) == 0 && Turns(c, 0) == c;
    if idx >= total {
      assert forall n: nat :: !FallsShort(c, idx, total, n);
    } else if c.rest == [] {
      assert FallsShort(c, idx, total, 0);
    } else {
      GroupConsumes(c);
      var next := idx + GroupHead(c).size;
      StuckExactly(Group(c), next, total);
      if Walk(c, idx, total).Stuck? {
        var n: nat :| FallsShort(Group(c), next, total, n);
        ShortAgain(c, idx, total, n);
      }
      if n: nat :| FallsShort(c, idx, total, n) {
        ShortAgain(c, idx, total, n - 1);
      }
    }
  }

  lemma ShortAgain(c: Cursor, idx: int, total: int, n: nat)
    requires idx < total
    ensures FallsShort(c, idx, total, n + 1) <==> FallsShort(Group(c), idx + GroupHead(c).size, total, n)
  {
    hide Group, GroupHead;
    if FallsShort(c, idx, total, n + 1) {
      forall k: nat | k <= n
        ensures idx + GroupHead(c).size + SizesOf(Group(c), k) < total
      {
        assert idx + SizesOf(c, k + 1) < total;
      }
    }
    if FallsShort(Group(c), idx + GroupHead(c).size, total, n) {
      forall k: nat | k <= n + 1
        ensures idx + SizesOf(c, k) < total
      {
        if k > 0 {
          assert SizesOf(c, k) == GroupHead(c).size + SizesOf(Group(c), k - 1);
        }
      }
    }
  }

  /** The same of a whole stream, from behind its magic, total and first offset. */
  lemma DecodeStuckExactly(stream: seq<byte>)
    ensures Decode(stream).Stuck? <==>
            |stream| >= 4 && stream[..4] == MAGIC &&
            var total := Int(stream[4..]);
            var first := Int(total.rest);
            exists n: nat :: FallsShort(Cursor(first.rest, Wrap64(first.value), 0, 0, []), 0, total.value, n)
  {
    hide Int, Walk, FallsShort;
    if |stream| >= 4 && stream[..4] == MAGIC {
      var total := Int(stream[4..]);
      var first := Int(total.rest);
      StuckExactly(Cursor(first.rest, Wrap64(first.value), 0, 0, []), 0, total.value);
    }
  }

  /** A stream that announces a relocation and then ends: the group loop is entered without input, and never left. */
  lemma ShortStream()
    ensures Decode(MAGIC + [1, 0]) == Stuck([])
  {
    var stream := MAGIC + [1, 0];
    assert stream[..4] == MAGIC && stream[4..] == [1, 0] && [1, 0][1..] == [0] && [0][1..] == [];
    assert Sleb([0]) == Number(0, []);
    assert Sleb([1, 0]) == Number(1, [0]);
  }

  /** With no input left, a turn of the loop emits nothing, counts nothing, and soon changes nothing. */
  lemma StuckForEver(c: Cursor)
    requires c.rest == []
    ensures GroupHead(c).size == 0 && Group(c) == c.(addend := 0) && Group(Group(c)) == Group(c)
  {
    assert Sleb([]) == Number(0, []);
  }

  method ReadInt64(stream: seq<byte>, p: nat) returns (value: i64, next: nat)
    requires p <= |stream|
    ensures p <= next <= |stream| && Number(value, stream[next..]) == Int(stream[p..])
  {
    value, next := ReadSleb128(stream, p);
  }

  /** The decoding loop: it emits exactly the relocations that the stream spells. */
  method ForEachPackedReloc(stream: seq<byte>) returns (outcome: Outcome)
    ensures outcome == Decode(stream)
  {
    hide Int, GroupHead, Group;
    if |stream| < 4 || stream[..4] != MAGIC {
      return BadMagic;
    }
    var total, p := ReadInt64(stream, 4);
    var first, q := ReadInt64(stream, p);
    p := q;
    var rOffset, rInfo, rAddend: i64 := Wrap64(first), 0 as u64, 0;
    var out, idx: int := [], 0;
    while idx < total
      invariant p <= |stream| && Walk(Cursor(stream[p..], rOffset, rInfo, rAddend, out), idx, total) == Decode(stream)
      decreases |stream| - p
    {
      if p == |stream| {
        // Every further turn reads a group of no members here: see StuckForEver.
        return Stuck(out);
      }
      ghost var c := Cursor(stream[p..], rOffset, rInfo, rAddend, out);
      GroupConsumes(c);
      var size;
      size, rOffset, rInfo, rAddend, out, p := DecodeGroup(stream, p, rOffset, rInfo, rAddend, out);
      idx := idx + size;
    }
    return Finished(out);
  }

  /** One group: its head, then its members one by one. */
  method DecodeGroup(stream: seq<byte>, start: nat, offset: u64, info: u64, addend: i64, emitted: seq<Reloc>)
    returns (size: i64, rOffset: u64, rInfo: u64, rAddend: i64, out: seq<Reloc>, p: nat)
    requires start <= |stream|
    ensures start <= p <= |stream|
    ensures size == GroupHead(Cursor(stream[start..], offset, info, addend, emitted)).size
    ensures Cursor(stream[p..], rOffset, rInfo, rAddend, out)
            == Group(Cursor(stream[start..], offset, info, addend, emitted))
  {
    hide Int, Wrap64, FlagsOf, Plus;
    ghost var h := GroupHead(Cursor(stream[start..], offset, info, addend, emitted));
    size, p := ReadInt64(stream, start);
    var word, delta;
    word, p := ReadInt64(stream, p);
    var f := FlagsOf(Wrap64(word));
    delta := 0;
    if f.byDelta {
      delta, p := ReadInt64(stream, p);
    }
    rOffset, rInfo, rAddend, out := offset, info, addend, emitted;
    if f.byInfo {
      var v;
      v, p := ReadInt64(stream, p);
      rInfo := Wrap64(v);
    }
    WrapSmall(info);
    if !f.hasAddend {
      rAddend := 0;
    } else if f.byAddend {
      var v;
      v, p := ReadInt64(stream, p);
      rAddend := Plus(rAddend, v);
    }
    assert h == Head(size, f, Wrap64(delta), Cursor(stream[p..], rOffset, rInfo, rAddend, out));
    hide GroupHead;
    var i := 0;
    while i < size
      invariant 0 <= i && (i <= size || i == 0) && start <= p <= |stream|
      invariant Cursor(stream[p..], rOffset, rInfo, rAddend, out) == Members(h.cursor, f, Wrap64(delta), i)
    {
      rOffset, rInfo, rAddend, out, p := DecodeMember(stream, p, rOffset, rInfo, rAddend, out, f, Wrap64(delta));
      i := i + 1;
    }
  }

  method DecodeMember(stream: seq<byte>, start: nat, offset: u64, info: u64, addend: i64, emitted: seq<Reloc>, f: Flags,
      delta: u64)
    returns (rOffset: u64, rInfo: u64, rAddend: i64, out: seq<Reloc>, p: nat)
    requires start <= |stream|
    ensures start <= p <= |stream|
    ensures Cursor(stream[p..], rOffset, rInfo, rAddend, out) ==
            Member(Cursor(stream[start..], offset, info, addend, emitted), f, delta)
  {
    hide Int, Wrap64, Plus;
    p := start;
    var d: int := delta;
    if !f.byDelta {
      d, p := ReadInt64(stream, p);
    }
    rOffset := Wrap64(offset + d);
    rInfo := info;
    WrapSmall(info);
    if !f.byInfo {
      var v;
      v, p := ReadInt64(stream, p);
      rInfo := Wrap64(v);
    }
    rAddend := addend;
    if f.hasAddend && !f.byAddend {
      var v;
      v, p := ReadInt64(stream, p);
      rAddend := Plus(rAddend, v);
    }
    out := emitted + [Reloc(rOffset, rInfo, rAddend)];
  }

  /** Whatever the stream, a decoder that finishes has emitted as many relocations as it announces. */
  lemma {:induction false} WalkEmitsAll(c: Cursor, idx: int, total: int)
    requires idx <= |c.out|
    ensures Walk(c, idx, total).Finished? ==> |Walk(c, idx, total).relocs| >= total
    decreases |c.rest|
  {
    hide Group, GroupHead;
    hide Members;
    if idx < total && c.rest != [] {
      GroupConsumes(c);
      WalkEmitsAll(Group(c), idx + GroupHead(c).size, total);
    }
  }

  // ----- the encoder -----

  datatype Packed = Packed(flags: Flags, relocs: seq<Reloc>)

  function FlagsWord(f: Flags): (word: u64)
    ensures word < 16
  {
    (if f.byInfo then 1 else 0) + (if f.byDelta then 2 else 0) +
    (if f.byAddend then 4 else 0) + (if f.hasAddend then 8 else 0)
  }

  function LastOffset(rs: seq<Reloc>, offset: u64): u64 {
    if rs == [] then offset else rs[|rs| - 1].offset
  }

  function LastAddend(rs: seq<Reloc>, addend: i64): i64 {
    if rs == [] then addend else rs[|rs| - 1].addend
  }

  /** The members share what the flags say they share. */
  ghost predicate Fits(g: Packed, offset: u64) {
    && 0 < |g.relocs| < HALF64
    && (g.flags.byDelta ==> forall i :: 0 <= i < |g.relocs| ==>
          Wrap64(g.relocs[i].offset - LastOffset(g.relocs[..i], offset)) == Delta(g, offset))
    && (g.flags.byInfo ==> forall i :: 0 <= i < |g.relocs| ==> g.relocs[i].info == g.relocs[0].info)
    && (!g.flags.hasAddend ==> forall i :: 0 <= i < |g.relocs| ==> g.relocs[i].addend == 0)
    && (g.flags.byAddend ==> forall i :: 0 <= i < |g.relocs| ==> g.relocs[i].addend == g.relocs[0].addend)
  }

  function Delta(g: Packed, offset: u64): u64 {
    if g.relocs == [] then 0 else Wrap64(g.relocs[0].offset - offset)
  }

  /** A word, and a difference of addends, in the form the reader adds or assigns. */
  function Word(w: u64): seq<byte> {
    Encode(Signed(w))
  }

  function MaybeWord(written: bool, w: u64): seq<byte> {
    if written then Word(w) else []
  }

  function EncodeMember(f: Flags, offset: u64, addend: i64, r: Reloc): seq<byte> {
    MaybeWord(!f.byDelta, Wrap64(r.offset - offset)) + MaybeWord(!f.byInfo, r.info) +
    MaybeWord(f.hasAddend && !f.byAddend, Wrap64(r.addend - addend))
  }

  function EncodeMembers(f: Flags, offset: u64, addend: i64, rs: seq<Reloc>): seq<byte> {
    if rs == [] then []
    else
      var front := rs[..|rs| - 1];
      EncodeMembers(f, offset, addend, front) +
      EncodeMember(f, LastOffset(front, offset), LastAddend(front, addend), rs[|rs| - 1])
  }

  function EncodeHead(g: Packed, offset: u64, addend: i64): seq<byte>
    requires 0 < |g.relocs| < HALF64
  {
    Encode(|g.relocs|) + Encode(FlagsWord(g.flags)) +
    MaybeWord(g.flags.byDelta, Delta(g, offset)) + MaybeWord(g.flags.byInfo, g.relocs[0].info) +
    MaybeWord(g.flags.hasAddend && g.flags.byAddend, Wrap64(g.relocs[0].addend - addend))
  }

  ghost predicate AllFit(gs: seq<Packed>, offset: u64) {
    gs != [] ==> Fits(gs[0], offset) && AllFit(gs[1..], LastOffset(gs[0].relocs, offset))
  }

  function EncodeGroups(gs: seq<Packed>, offset: u64, addend: i64): seq<byte>
    requires AllFit(gs, offset)
  {
    if gs == [] then []
    else
      EncodeHead(gs[0], offset, addend) + EncodeMembers(gs[0].flags, offset, addend, gs[0].relocs) +
      EncodeGroups(gs[1..], LastOffset(gs[0].relocs, offset), LastAddend(gs[0].relocs, addend))
  }

  function Flatten(gs: seq<Packed>): seq<Reloc> {
    if gs == [] then [] else gs[0].relocs + Flatten(gs[1..])
  }

  function EncodeStream(gs: seq<Packed>, first: u64): seq<byte>
    requires AllFit(gs, first)
  {
    MAGIC + Encode(|Flatten(gs)|) + Word(first) + EncodeGroups(gs, first, 0)
  }

  // ----- decoding inverts encoding -----

  lemma ReadWord(w: u64, tail: seq<byte>)
    ensures Int(Word(w) + tail) == Number(Signed(w), tail) && Wrap64(Signed(w)) == w
  {
    RoundTrip(Signed(w), tail);
    SignedWrap(Signed(w));
    WrapSigned(w);
  }

  lemma ReadInt(v: i64, tail: seq<byte>)
    ensures Int(Encode(v) + tail) == Number(v, tail)
  {
    RoundTrip(v, tail);
    SignedWrap(v);
  }

  /** Adding a difference restores the value it was taken from. */
  lemma Restore(a: u64, b: u64)
    ensures Wrap64(a + Signed(Wrap64(b - a))) == b
    ensures Wrap64(a + Wrap64(b - a)) == b
  {
  }

  lemma RestoreAddend(a: i64, b: i64)
    ensures Plus(a, Signed(Wrap64(b - a))) == b
  {
  }

  lemma FlagsRoundTrip(f: Flags)
    ensures FlagsOf(FlagsWord(f)) == f
  {
  }

  /** A member that shares what the flags say decodes to itself. */
  lemma MemberRoundTrip(c: Cursor, f: Flags, delta: u64, r: Reloc, tail: seq<byte>)
    requires c.rest == EncodeMember(f, c.offset, c.addend, r) + tail
    requires f.byDelta ==> Wrap64(r.offset - c.offset) == delta
    requires f.byInfo ==> r.info == c.info
    requires !(f.hasAddend && !f.byAddend) ==> r.addend == c.addend
    ensures Member(c, f, delta) == Cursor(tail, r.offset, r.info, r.addend, c.out + [r])
  {
    hide Word, Int, Wrap64, Signed, Plus;
    var addend := MaybeWord(f.hasAddend && !f.byAddend, Wrap64(r.addend - c.addend));
    var info := MaybeWord(!f.byInfo, r.info);
    var offset := MaybeWord(!f.byDelta, Wrap64(r.offset - c.offset));
    Regroup(offset, info, addend, tail);
    ReadMaybe(!f.byDelta, Wrap64(r.offset - c.offset), info + (addend + tail));
    ReadMaybe(!f.byInfo, r.info, addend + tail);
    ReadMaybe(f.hasAddend && !f.byAddend, Wrap64(r.addend - c.addend), tail);
    Restore(c.offset, r.offset);
    RestoreAddend(c.addend, r.addend);
    WrapSmall(r.info);
  }

  lemma Regroup(a: seq<byte>, b: seq<byte>, c: seq<byte>, d: seq<byte>)
    ensures a + b + c + d == a + (b + (c + d))
  {
  }

  /** A word, where one is written. */
  lemma ReadMaybe(written: bool, w: u64, tail: seq<byte>)
    ensures written ==> Int(MaybeWord(written, w) + tail) == Number(Signed(w), tail) && Wrap64(Signed(w)) == w
    ensures !written ==> MaybeWord(written, w) + tail == tail
  {
    ReadWord(w, tail);
  }

  lemma WrapSmall(w: u64)
    ensures Wrap64(w) == w
  {
  }

  /** Members that follow on one another, after a head that holds what they share. */
  ghost predicate Follow(f: Flags, delta: u64, c: Cursor, rs: seq<Reloc>) {
    && (f.byDelta ==> forall i :: 0 <= i < |rs| ==> Wrap64(rs[i].offset - LastOffset(rs[..i], c.offset)) == delta)
    && (f.byInfo ==> forall i :: 0 <= i < |rs| ==> rs[i].info == c.info)
    && (!(f.hasAddend && !f.byAddend) ==> forall i :: 0 <= i < |rs| ==> rs[i].addend == c.addend)
  }

  lemma FollowFront(f: Flags, delta: u64, c: Cursor, rs: seq<Reloc>, n: nat)
    requires Follow(f, delta, c, rs) && n < |rs|
    ensures Follow(f, delta, c, rs[..n])
    ensures f.byDelta ==> Wrap64(rs[n].offset - LastOffset(rs[..n], c.offset)) == delta
    ensures f.byInfo ==> rs[n].info == c.info
    ensures !(f.hasAddend && !f.byAddend) ==> rs[n].addend == LastAddend(rs[..n], c.addend)
  {
    hide Wrap64, LastOffset;
    forall i | 0 <= i < n
      ensures rs[..n][..i] == rs[..i]
    {
    }
  }

  lemma {:induction false} MembersRoundTrip(c: Cursor, f: Flags, delta: u64, rs: seq<Reloc>, tail: seq<byte>)
    requires Follow(f, delta, c, rs) && c.rest == EncodeMembers(f, c.offset, c.addend, rs) + tail
    ensures var m := Members(c, f, delta, |rs|);
            && m.rest == tail && m.out == c.out + rs
            && m.offset == LastOffset(rs, c.offset) && m.addend == LastAddend(rs, c.addend)
            && (f.byInfo || rs == [] ==> m.info == c.info)
    decreases |rs|
  {
    hide Member, EncodeMember, Wrap64, Follow;
    if rs != [] {
      var n := |rs| - 1;
      var front, last := rs[..n], rs[n];
      var bytes := EncodeMember(f, LastOffset(front, c.offset), LastAddend(front, c.addend), last);
      assert c.rest == EncodeMembers(f, c.offset, c.addend, front) + (bytes + tail);
      FollowFront(f, delta, c, rs, n);
      MembersRoundTrip(c, f, delta, front, bytes + tail);
      var m := Members(c, f, delta, n);
      assert rs == front + [last];
      MemberRoundTrip(m, f, delta, last, tail);
    }
  }

  lemma HeadRoundTrip(c: Cursor, g: Packed, tail: seq<byte>)
    requires 0 < |g.relocs| < HALF64 && c.rest == EncodeHead(g, c.offset, c.addend) + tail
    ensures var h := GroupHead(c);
            && h.size == |g.relocs| && h.flags == g.flags && (g.flags.byDelta ==> h.delta == Delta(g, c.offset))
            && h.cursor == Cursor(tail, c.offset, if g.flags.byInfo then g.relocs[0].info else c.info,
                                  if !g.flags.hasAddend then 0
                                  else if g.flags.byAddend then g.relocs[0].addend else c.addend, c.out)
  {
    hide Word, Int, Wrap64, Signed, Plus, Delta, FlagsOf, FlagsWord, Encode;
    var f, r := g.flags, g.relocs[0];
    var a := MaybeWord(f.hasAddend && f.byAddend, Wrap64(r.addend - c.addend));
    var i := MaybeWord(f.byInfo, r.info);
    var d := MaybeWord(f.byDelta, Delta(g, c.offset));
    var word := Encode(FlagsWord(f));
    Regroup(Encode(|g.relocs|) + word, d, i, a + tail);
    assert c.rest == Encode(|g.relocs|) + (word + (d + (i + (a + tail))));
    ReadInt(|g.relocs|, word + (d + (i + (a + tail))));
    ReadInt(FlagsWord(f), d + (i + (a + tail)));
    WrapSmall(FlagsWord(f));
    FlagsRoundTrip(f);
    ReadMaybe(f.byDelta, Delta(g, c.offset), i + (a + tail));
    ReadMaybe(f.byInfo, r.info, a + tail);
    ReadMaybe(f.hasAddend && f.byAddend, Wrap64(r.addend - c.addend), tail);
    RestoreAddend(c.addend, r.addend);
    WrapSmall(c.info);
  }

  lemma GroupRoundTrip(c: Cursor, g: Packed, tail: seq<byte>)
    requires Fits(g, c.offset)
    requires c.rest == EncodeHead(g, c.offset, c.addend) + EncodeMembers(g.flags, c.offset, c.addend, g.relocs) + tail
    ensures GroupHead(c).size == |g.relocs|
    ensures var m := Group(c);
            && m.rest == tail && m.out == c.out + g.relocs
            && m.offset == LastOffset(g.relocs, c.offset) && m.addend == LastAddend(g.relocs, c.addend)
  {
    hide EncodeHead, GroupHead, Members, Delta, EncodeMembers;
    var members := EncodeMembers(g.flags, c.offset, c.addend, g.relocs);
    assert c.rest == EncodeHead(g, c.offset, c.addend) + (members + tail);
    HeadRoundTrip(c, g, members + tail);
    var h := GroupHead(c);
    SameMembers(g.flags, c.offset, c.addend, h.cursor.addend, g.relocs);
    MembersRoundTrip(h.cursor, h.flags, h.delta, g.relocs, tail);
  }

  /** Members without addends of their own are spelled alike whatever the running addend. */
  lemma {:induction false} SameMembers(f: Flags, offset: u64, a: i64, b: i64, rs: seq<Reloc>)
    requires f.hasAddend && !f.byAddend ==> a == b
    ensures EncodeMembers(f, offset, a, rs) == EncodeMembers(f, offset, b, rs)
    decreases |rs|
  {
    if rs != [] {
      SameMembers(f, offset, a, b, rs[..|rs| - 1]);
    }
  }

  lemma {:induction false} WalkRoundTrip(c: Cursor, gs: seq<Packed>, idx: int, tail: seq<byte>)
    requires AllFit(gs, c.offset) && c.rest == EncodeGroups(gs, c.offset, c.addend) + tail
    ensures Walk(c, idx, idx + |Flatten(gs)|) == Finished(c.out + Flatten(gs))
    decreases |gs|
  {
    hide EncodeHead, EncodeMembers, GroupHead, Group, Fits;
    if gs == [] {
      assert c.out + Flatten(gs) == c.out;
    } else {
      var g := gs[0];
      HeadNonempty(g, c.offset, c.addend);
      var rest := EncodeGroups(gs[1..], LastOffset(g.relocs, c.offset), LastAddend(g.relocs, c.addend));
      assert c.rest == EncodeHead(g, c.offset, c.addend)
                       + EncodeMembers(g.flags, c.offset, c.addend, g.relocs) + (rest + tail);
      GroupRoundTrip(c, g, rest + tail);
      WalkRoundTrip(Group(c), gs[1..], idx + |g.relocs|, tail);
      assert c.out + Flatten(gs) == (c.out + g.relocs) + Flatten(gs[1..]);
    }
  }

  lemma HeadNonempty(g: Packed, offset: u64, addend: i64)
    requires Fits(g, offset)
    ensures 0 < |g.relocs| < HALF64 && |EncodeHead(g, offset, addend)| > 0
  {
  }

  /** Every grouping that fits decodes to the relocations it groups, in order and each exactly once. */
  lemma StreamRoundTrip(gs: seq<Packed>, first: u64, tail: seq<byte>)
    requires AllFit(gs, first) && |Flatten(gs)| < HALF64
    ensures Decode(EncodeStream(gs, first) + tail) == Finished(Flatten(gs))
  {
    hide Word, Int, Wrap64, EncodeGroups, Encode, Walk;
    var stream := EncodeStream(gs, first) + tail;
    var groups := EncodeGroups(gs, first, 0);
    assert stream[..4] == MAGIC;
    assert stream[4..] == Encode(|Flatten(gs)|) + (Word(first) + (groups + tail));
    ReadInt(|Flatten(gs)|, Word(first) + (groups + tail));
    ReadWord(first, groups + tail);
    WalkRoundTrip(Cursor(groups + tail, first, 0, 0, []), gs, 0, tail);
    assert [] + Flatten(gs) == Flatten(gs);
  }

  /** Every list of relocations has an encoding: ungrouped, as one group. */
  function Ungrouped(rs: seq<Reloc>): seq<Packed> {
    if rs == [] then [] else [Packed(Flags(false, false, false, true), rs)]
  }

  lemma UngroupedRoundTrip(rs: seq<Reloc>)
    requires |rs| < HALF64
    ensures AllFit(Ungrouped(rs), 0) && Decode(EncodeStream(Ungrouped(rs), 0)) == Finished(rs)
  {
    var gs := Ungrouped(rs);
    if rs != [] {
      assert gs[1..] == [] && Flatten(gs) == rs + Flatten([]) == rs;
    }
    StreamRoundTrip(gs, 0, []);
    assert EncodeStream(gs, 0) + [] == EncodeStream(gs, 0);
  }

  // ----- the layout, in numbers of one byte -----

  /** A byte below 64 is a number by itself. */
  predicate Small(b: byte) {
    b < 64
  }

  lemma SmallInt(b: byte, tail: seq<byte>)
    requires Small(b)
    ensures Int([b] + tail) == Number(b, tail)
  {
    assert ([b] + tail)[1..] == tail;
  }

  /** All flags set: size, flags, offset step, info and addend step come in this order and serve the whole group. */
  lemma SharedHead(c: Cursor, n: byte, d: byte, i: byte, a: byte, tail: seq<byte>)
    requires Small(n) && Small(d) && Small(i) && Small(a) && c.rest == [n] + ([15] + ([d] + ([i] + ([a] + tail))))
    ensures GroupHead(c)
            == Head(n, Flags(true, true, true, true), d, Cursor(tail, c.offset, i, Plus(c.addend, a), c.out))
  {
    hide Int, Plus;
    SmallInt(n, [15] + ([d] + ([i] + ([a] + tail))));
    SmallInt(15, [d] + ([i] + ([a] + tail)));
    SmallInt(d, [i] + ([a] + tail));
    SmallInt(i, [a] + tail);
    SmallInt(a, tail);
  }

  /** n relocations at a step from each other, alike but for that. */
  function Steps(c: Cursor, delta: u64, n: nat): seq<Reloc> {
    seq(n, k requires 0 <= k < n => Reloc(Wrap64(c.offset + (k + 1) * delta), c.info, c.addend))
  }

  /** Its members follow from that alone: offsets go up by the step, info and addend stay. */
  lemma {:induction false} SharedMembers(c: Cursor, delta: u64, n: nat)
    ensures Members(c, Flags(true, true, true, true), delta, n)
            == c.(offset := if n == 0 then c.offset else Wrap64(c.offset + n * delta),
                  out := c.out + Steps(c, delta, n))
    decreases n
  {
    hide Wrap64, Int;
    if n == 0 {
      assert c.out + [] == c.out;
    } else {
      SharedMembers(c, delta, n - 1);
      var before, after := Steps(c, delta, n - 1), Steps(c, delta, n);
      assert n * delta == (n - 1) * delta + delta;
      Wrap64Adds(c.offset + (n - 1) * delta, delta);
      WrapSmall(c.info);
      var r := Reloc(Wrap64(c.offset + n * delta), c.info, c.addend);
      assert after == before + [r];
      assert c.out + after == (c.out + before) + [r];
    }
  }

  /** Only addends, and nothing shared: each member has its own steps and info. */
  lemma ApartGroup(c: Cursor, d: byte, i: byte, a: byte, tail: seq<byte>)
    requires Small(d) && Small(i) && Small(a) && c.rest == [1] + ([8] + ([d] + ([i] + ([a] + tail))))
    ensures Group(c)
            == Cursor(tail, Wrap64(c.offset + d), i, Plus(c.addend, a),
                      c.out + [Reloc(Wrap64(c.offset + d), i, Plus(c.addend, a))])
  {
    hide Int, Plus, Wrap64;
    SmallInt(1, [8] + ([d] + ([i] + ([a] + tail))));
    SmallInt(8, [d] + ([i] + ([a] + tail)));
    SmallInt(d, [i] + ([a] + tail));
    SmallInt(i, [a] + tail);
    SmallInt(a, tail);
    SmallWord(8);
    SmallWord(i);
    var h := GroupHead(c);
    assert h.flags == Flags(false, false, false, true) && h.size == 1;
    assert h.cursor == Cursor([d] + ([i] + ([a] + tail)), c.offset, Wrap64(c.info), c.addend, c.out);
    OneMember(h.cursor, h.flags, h.delta);
  }

  /** No addends: they are zero from here on. */
  lemma BareGroup(c: Cursor, d: byte, i: byte, tail: seq<byte>)
    requires Small(d) && Small(i) && c.rest == [1] + ([0] + ([d] + ([i] + tail)))
    ensures Group(c) == Cursor(tail, Wrap64(c.offset + d), i, 0, c.out + [Reloc(Wrap64(c.offset + d), i, 0)])
  {
    hide Int, Plus, Wrap64;
    SmallInt(1, [0] + ([d] + ([i] + tail)));
    SmallInt(0, [d] + ([i] + tail));
    SmallInt(d, [i] + tail);
    SmallInt(i, tail);
    SmallWord(0);
    SmallWord(i);
    var h := GroupHead(c);
    assert h.flags == Flags(false, false, false, false) && h.size == 1;
    assert h.cursor == Cursor([d] + ([i] + tail), c.offset, Wrap64(c.info), 0, c.out);
    OneMember(h.cursor, h.flags, h.delta);
  }

  lemma OneMember(c: Cursor, f: Flags, delta: u64)
    ensures Members(c, f, delta, 1) == Member(c, f, delta)
  {
    hide Member;
    assert Members(c, f, delta, 0) == c;
  }

  lemma SmallWord(v: nat)
    requires v < WORD64
    ensures Wrap64(v) == v
  {
  }

  /** A stream: the magic, how many relocations, the offset to start from, and groups. */
  lemma TinyStream(first: byte, d: byte, i: byte, a: byte)
    requires Small(first) && Small(d) && Small(i) && Small(a)
    ensures Decode(['A' as int, 'P' as int, 'S' as int, '2' as int, 1, first, 1, 8, d, i, a])
            == Finished([Reloc(first + d, i, a)])
  {
    hide Int, Group, GroupHead;
    var s: seq<byte> := ['A' as int, 'P' as int, 'S' as int, '2' as int, 1, first, 1, 8, d, i, a];
    var groups := [1] + ([8] + ([d] + ([i] + ([a] + []))));
    assert s[4..] == [1] + ([first] + groups) && s[..4] == MAGIC;
    SmallInt(1, [first] + groups);
    SmallInt(first, groups);
    var c := Cursor(groups, first, 0, 0, []);
    ApartGroup(c, d, i, a, []);
    HeadSize(c, [8] + ([d] + ([i] + ([a] + []))));
    assert Plus(0, a) == a;
    assert Walk(Group(c), 1, 1) == Finished(Group(c).out);
  }

  lemma HeadSize(c: Cursor, tail: seq<byte>)
    requires c.rest == [1] + tail
    ensures GroupHead(c).size == 1
  {
    SmallInt(1, tail);
  }
}
