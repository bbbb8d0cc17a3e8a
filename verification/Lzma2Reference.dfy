/**
 What the place of a stream is made of, told by the chunks alone: the dictionary and properties a chunk
 may build on, the packets that the state remembers, and what each kind of chunk starts from.
 */
module Lzma2Reference {
  import opened BitArithmetic
  import opened RangeCoder
  import opened LzmaPackets
  import opened LzmaComplete
  import opened Lzma2Stream
  import LzmaReference

  // ----- what came before -----

  predicate ResetsDictionary(c: Chunk) {
    (c.LzmaChunk? && c.kind == 0xE0) || (c.StoredChunk? && c.kind == 1)
  }

  predicate SetsProps(c: Chunk) {
    c.LzmaChunk? && (c.kind == 0xC0 || c.kind == 0xE0)
  }

  predicate ResetsState(c: Chunk) {
    c.LzmaChunk? && c.kind != 0x80
  }

  /** Some chunk has reset the dictionary. */
  predicate Started(script: Script) {
    script.More? && (ResetsDictionary(script.chunk) || Started(script.prev))
  }

  /** Some chunk has set properties since the dictionary was last reset, or in that very chunk. */
  predicate Primed(script: Script) {
    script.More? && (SetsProps(script.chunk) || (!ResetsDictionary(script.chunk) && Primed(script.prev)))
  }

  /** The properties set last. */
  function PropsSet(script: Script): Props {
    if script.Fresh? then Props(0, 0, 0)
    else if SetsProps(script.chunk) then script.chunk.props
    else PropsSet(script.prev)
  }

  /** The packets since the state was last reset: stored chunks between them do not count. */
  function SinceReset(script: Script): Packets {
    if script.Fresh? then NoPackets
    else if script.chunk.LzmaChunk? then
      Join(if ResetsState(script.chunk) then NoPackets else SinceReset(script.prev), script.chunk.packets)
    else SinceReset(script.prev)
  }

  /** What a stream has made ready, and the state it has come to, over every legal stream. */
  lemma {:induction false} PlaceTold(script: Script)
    requires LegalScript(script)
    ensures var p := Meaning(script);
            && (p.ready <==> Started(script)) && (p.primed <==> Primed(script)) && p.props == PropsSet(script)
            && LzmaReference.Told(p.session.coder.state, SinceReset(script))
    decreases script
  {
    hide SessionBits, Learned, Play, Legal, Decodes, Windowed, LzmaReference.Told, Join;
    if script.More? {
      PlaceTold(script.prev);
      var p, c := Meaning(script.prev), script.chunk;
      if c.LzmaChunk? {
        var before := if ResetsState(c) then NoPackets else SinceReset(script.prev);
        LzmaReference.FreshTold();
        LzmaReference.StateTold(Begun(p, c.kind, c.props).session, before, c.packets);
      }
    } else {
      LzmaReference.FreshTold();
    }
  }

  /** So a stream begins with a reset dictionary, and packets begin with properties. */
  lemma Discipline(script: Script, c: Chunk)
    requires LegalScript(More(script, c))
    ensures c.EndMark? || ResetsDictionary(c) || Started(script)
    ensures c.LzmaChunk? ==> SetsProps(c) || Primed(script)
    ensures c.LzmaChunk? && !SetsProps(c) ==> c.props == PropsSet(script)
  {
    PlaceTold(script);
  }

  /** And whatever keeps to that may come: these are the only conditions on what kind of chunk is next. */
  lemma AllowedExactly(script: Script, c: Chunk)
    requires LegalScript(script) && Shaped(c) && !c.EndMark?
    ensures Allowed(Meaning(script), c.kind) <==>
            (ResetsDictionary(c) || Started(script)) && (c.LzmaChunk? ==> SetsProps(c) || Primed(script))
  {
    PlaceTold(script);
    NoPropsUnstarted(script);
  }

  lemma {:induction false} NoPropsUnstarted(script: Script)
    requires LegalScript(script)
    ensures Primed(script) ==> Started(script)
    decreases script
  {
    if script.More? {
      NoPropsUnstarted(script.prev);
      Discipline(script.prev, script.chunk);
    }
  }

  /** The control bytes 0x03 to 0x7F are no chunk's. */
  lemma NoSuchControl(p: Place, control: byte)
    requires 3 <= control < 0x80
    ensures !Allowed(p, control)
  {
  }

  /** Where a packed chunk starts from: what the chunk before left, or the beginning, of each part by itself. */
  lemma StartTold(script: Script, c: Chunk)
    requires LegalScript(More(script, c)) && c.LzmaChunk?
    ensures var p := Meaning(script);
            var q := Begun(p, c.kind, c.props);
            && q.session.coder == (if c.kind == 0x80 then p.session.coder else Coder(0, [0, 0, 0, 0]))
            && (c.kind == 0x80 ==> q.probs == p.probs)
            && (c.kind != 0x80 ==> |q.probs| == 14134 && forall i :: 0 <= i < 14134 ==> q.probs[i] == 1024)
            && q.session.history == (if c.kind == 0xE0 then [] else p.session.history)
            && Origin(q, c.init).range == 0xFFFF_FFFF && Origin(q, c.init).code == BigEndian(c.init[1..])
  {
    InitCodeValue(c.init);
  }

  /** A stored chunk leaves packets' state, distances, properties and probabilities as they were. */
  lemma StoredKeeps(script: Script, c: Chunk)
    requires LegalScript(More(script, c)) && c.StoredChunk?
    ensures var p, q := Meaning(script), Meaning(More(script, c));
            && q.session.coder == p.session.coder && q.probs == p.probs && q.props == p.props
            && q.session.history == (if c.kind == 1 then [] else p.session.history) + c.data
  {
  }

  // ----- headers -----

  /** Sizes are written less one, highest byte first, the uncompressed one from the low bits of the control byte. */
  lemma SizesTold(h: seq<byte>)
    requires |h| >= 3
    ensures SizeIn(h) == BigEndian([h[0] % 32, h[1], h[2]]) + 1
    ensures CompressedIn(h) == BigEndian(h[|h| - 2..]) + 1
  {
    var top, low := [h[0] % 32, h[1], h[2]], h[|h| - 2..];
    assert top == [] + [h[0] % 32] + [h[1]] + [h[2]] && low == [] + [h[|h| - 2]] + [h[|h| - 1]];
    BigEndianStep([], h[0] % 32);
    BigEndianStep([] + [h[0] % 32], h[1]);
    BigEndianStep([] + [h[0] % 32] + [h[1]], h[2]);
    BigEndianStep([], h[|h| - 2]);
    BigEndianStep([] + [h[|h| - 2]], h[|h| - 1]);
  }

  /** The properties that most streams have. */
  lemma UsualProps()
    ensures PropsByte(Props(3, 0, 2)) == 0x5D
  {
  }
}
