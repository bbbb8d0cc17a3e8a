/**
 The LZMA2 format, said without a decoder: what chunks there are, which may come next, how each is
 spelled in bytes, and what a stream of them means. A stream has one reading only (`OneScript`).
 */
module Lzma2Stream {
  import opened BitArithmetic
  import opened RangeCoder
  import opened RangeDecoding
  import opened LzDictionary
  import opened LzmaPackets
  import opened LzmaComplete
  import LzmaEncoder

  // ----- headers -----

  /** What a control byte says but for the top of the size: 1, 2, or one of the four kinds of LZMA chunk. */
  function Kind(control: byte): byte {
    if control < 0x80 then control else control - control % 32
  }

  predicate LzmaKind(kind: byte) {
    kind == 0x80 || kind == 0xA0 || kind == 0xC0 || kind == 0xE0
  }

  /** The part of the uncompressed size in the control byte. */
  function TopSize(control: byte): nat {
    (control as int) % 32 * 0x1_0000
  }

  /** The size of the output that the first three bytes of a header announce. */
  function SizeIn(h: seq<byte>): nat
    requires |h| >= 3
  {
    TopSize(h[0]) + (h[1] as int) * 0x100 + h[2] + 1
  }

  /** The size of the input that the last two bytes of a header announce. */
  function CompressedIn(h: seq<byte>): nat
    requires |h| >= 2
  {
    (h[|h| - 2] as int) * 0x100 + h[|h| - 1] + 1
  }

  function LzmaHeader(kind: byte, size: nat, compressed: nat): (h: seq<byte>)
    requires LzmaKind(kind) && 0 < size <= 0x20_0000 && 0 < compressed <= 0x1_0000
  {
    [kind + (size - 1) / 0x1_0000, (size - 1) / 0x100 % 0x100, (size - 1) % 0x100,
     (compressed - 1) / 0x100, (compressed - 1) % 0x100]
  }

  function StoredHeader(kind: byte, size: nat): (h: seq<byte>)
    requires 0 < size <= 0x1_0000
  {
    [kind, (size - 1) / 0x100, (size - 1) % 0x100]
  }

  /** Any five bytes of which the first is that of an LZMA chunk are the header of what they announce. */
  lemma LzmaHeaderInverts(h: seq<byte>)
    requires |h| == 5 && h[0] >= 0x80
    ensures LzmaKind(Kind(h[0])) && 0 < SizeIn(h) <= 0x20_0000 && 0 < CompressedIn(h) <= 0x1_0000
    ensures LzmaHeader(Kind(h[0]), SizeIn(h), CompressedIn(h)) == h
  {
    var u := SizeIn(h) - 1;
    assert u / 0x1_0000 == h[0] % 32;
    assert u / 0x100 == (h[0] as int) % 32 * 0x100 + h[1];
    assert u % 0x100 == h[2];
  }

  /** And every kind and sizes are what their header announces. */
  lemma LzmaHeaderAnnounces(kind: byte, size: nat, compressed: nat)
    requires LzmaKind(kind) && 0 < size <= 0x20_0000 && 0 < compressed <= 0x1_0000
    ensures var h := LzmaHeader(kind, size, compressed);
            |h| == 5 && h[0] >= 0x80 && Kind(h[0]) == kind && SizeIn(h) == size && CompressedIn(h) == compressed
  {
    var u := size - 1;
    assert (kind + u / 0x1_0000) % 32 == u / 0x1_0000;
    assert u == u / 0x1_0000 * 0x1_0000 + u / 0x100 % 0x100 * 0x100 + u % 0x100;
  }

  lemma StoredHeaderInverts(h: seq<byte>)
    requires |h| == 3
    ensures 0 < CompressedIn(h) <= 0x1_0000 && StoredHeader(h[0], CompressedIn(h)) == h
  {
  }

  lemma StoredHeaderAnnounces(kind: byte, size: nat)
    requires 0 < size <= 0x1_0000
    ensures StoredHeader(kind, size)[0] == kind && CompressedIn(StoredHeader(kind, size)) == size
  {
  }

  // ----- the five bytes that start the range decoder -----

  function InitCode(bytes: seq<byte>): (code: nat)
    ensures code < WORD
  {
    if bytes == [] then 0 else (InitCode(bytes[..|bytes| - 1]) * 256 + bytes[|bytes| - 1]) % WORD
  }

  lemma NoCode()
    ensures InitCode([]) == 0
  {
  }

  lemma InitCodeStep(bytes: seq<byte>, x: byte)
    ensures InitCode(bytes + [x]) == (InitCode(bytes) * 256 + x) % WORD
  {
    assert (bytes + [x])[..|bytes|] == bytes;
  }

  function BigEndian(bytes: seq<byte>): nat {
    if bytes == [] then 0 else BigEndian(bytes[..|bytes| - 1]) * 256 + bytes[|bytes| - 1]
  }

  lemma FourBytes(b: seq<byte>)
    requires |b| == 4
    ensures InitCode(b) == BigEndian(b) < WORD
  {
    assert b[..3][..2] == b[..2] && b[..2][..1] == b[..1] && b[..1][..0] == b[..0];
    assert InitCode(b[..0]) == BigEndian(b[..0]) == 0;
    assert InitCode(b[..1]) == BigEndian(b[..1]) < 0x100;
    assert InitCode(b[..2]) == BigEndian(b[..2]) < 0x1_0000;
    assert InitCode(b[..3]) == BigEndian(b[..3]) < 0x100_0000;
  }

  lemma {:induction false} LeadingByte(x: byte, b: seq<byte>, weight: nat)
    requires weight == if |b| == 0 then 1 else if |b| == 1 then 0x100 else if |b| == 2 then 0x1_0000
                       else if |b| == 3 then 0x100_0000 else WORD
    requires |b| <= 4
    ensures BigEndian([x] + b) == weight * x + BigEndian(b)
    decreases |b|
  {
    if b == [] {
      assert [x] + b == [x] && [x][..0] == [];
    } else {
      var c := b[..|b| - 1];
      assert ([x] + b)[..|b|] == [x] + c;
      LeadingByte(x, c, weight / 0x100);
    }
  }

  /** The first of the five bytes drops out of the 32-bit code. */
  lemma InitCodeValue(b: seq<byte>)
    requires |b| == 5
    ensures InitCode(b) == BigEndian(b[1..])
  {
    hide InitCode, BigEndian;
    FourBytes(b[..4]);
    FourBytes(b[1..]);
    LeadingByte(b[0], b[1..], WORD);
    assert [b[0]] + b[1..] == b && b[..4] + [b[4]] == b;
    InitCodeStep(b[..4], b[4]);
    BigEndianStep(b[..4], b[4]);
    Multiples(b[0], BigEndian(b[1..]));
  }

  lemma BigEndianStep(bytes: seq<byte>, x: byte)
    ensures BigEndian(bytes + [x]) == BigEndian(bytes) * 256 + x
  {
    assert (bytes + [x])[..|bytes|] == bytes;
  }

  lemma Multiples(x: nat, y: nat)
    requires y < WORD
    ensures (WORD * x + y) % WORD == y
  {
  }

  // ----- chunks -----

  datatype Chunk =
    | LzmaChunk(kind: byte, props: Props, size: nat, init: seq<byte>, payload: seq<byte>, packets: Packets)
    | StoredChunk(kind: byte, data: seq<byte>)
    | EndMark

  /** All the chunks since the decoder was set up with a window of so many bytes, latest last. */
  datatype Script = Fresh(window: nat) | More(prev: Script, chunk: Chunk)

  /** Where a stream has got to: what the next chunk can build on, and what was output. */
  datatype Place = Place(window: nat, ready: bool, primed: bool, props: Props, probs: seq<nat>,
                         session: Session, earlier: seq<byte>)
  {
    /** Everything output, before and since the last dictionary reset. */
    function Output(): seq<byte> {
      earlier + session.history
    }
  }

  const INITIAL_CODER: Coder := Coder(0, [0, 0, 0, 0])

  function EvenOdds(): (probs: seq<nat>)
    ensures |probs| == PROBS_TOTAL && WellModelled(probs)
  {
    seq(PROBS_TOTAL, _ => 1024)
  }

  lemma AllEven(probs: seq<nat>)
    requires |probs| == PROBS_TOTAL && forall i :: 0 <= i < PROBS_TOTAL ==> probs[i] == 1024
    ensures probs == EvenOdds()
  {
  }

  function Outset(window: nat): Place {
    Place(window, false, false, Props(0, 0, 0), EvenOdds(), Session(INITIAL_CODER, []), [])
  }

  /** May a chunk of this kind come next? */
  predicate Allowed(p: Place, control: byte) {
    || control == 0 || control == 1 || control >= 0xE0
    || (p.ready && (control == 2 || control >= 0xC0 || (control >= 0x80 && p.primed)))
  }

  /** A chunk may begin with a new dictionary, for which there are no properties yet. */
  function AtControl(p: Place, control: byte): Place {
    if control >= 0xE0 || control == 1 then
      p.(ready := true, primed := false, session := p.session.(history := []), earlier := p.Output())
    else p
  }

  /** And an LZMA chunk with new properties, or a new state under the old ones. */
  function Begun(p: Place, control: byte, props: Props): Place {
    var q := AtControl(p, control);
    if control >= 0xC0 then
      q.(primed := true, props := props, probs := EvenOdds(), session := q.session.(coder := INITIAL_CODER))
    else if control >= 0xA0 then q.(probs := EvenOdds(), session := q.session.(coder := INITIAL_CODER))
    else q
  }

  lemma BegunAnew(p: Place, control: byte, props: Props)
    requires control >= 0xC0
    ensures var q := Begun(p, control, props);
            q.props == props && q.probs == EvenOdds() && q.session.coder == INITIAL_CODER
  {
  }

  lemma SameKind(p: Place, control: byte, props: Props)
    ensures AtControl(p, Kind(control)) == AtControl(p, control)
    ensures Begun(p, Kind(control), props) == Begun(p, control, props)
    ensures Allowed(p, Kind(control)) == Allowed(p, control)
  {
    var k := Kind(control);
    assert k >= 0xE0 <==> control >= 0xE0;
    assert k >= 0xC0 <==> control >= 0xC0;
    assert k >= 0xA0 <==> control >= 0xA0;
    assert k >= 0x80 <==> control >= 0x80;
  }

  function Origin(q: Place, init: seq<byte>): Rc {
    Rc(WORD - 1, InitCode(init), 0, q.probs)
  }

  /** What every chunk looks like, wherever it stands. */
  predicate Shaped(c: Chunk) {
    match c
    case LzmaChunk(kind, props, size, init, payload, _) =>
      LzmaKind(kind) && ValidProps(props) && 0 < size <= 0x20_0000 && |init| == 5 && 5 + |payload| <= 0x1_0000
    case StoredChunk(kind, data) => (kind == 1 || kind == 2) && 0 < |data| <= 0x1_0000
    case EndMark => true
  }

  /** The packets from session `s`: legal, within the window, and of the announced size. */
  ghost predicate Fits(s: Session, packets: Packets, window: nat, size: nat) {
    && Legal(s, packets) && Windowed(s, packets, window)
    && |Play(s, packets).history| == |s.history| + size
  }

  /** A chunk that may come next, and whose bytes decode to its packets without remainder. */
  ghost predicate LegalChunk(p: Place, c: Chunk): (legal: bool)
    ensures legal ==> Shaped(c)
  {
    && Shaped(c)
    && (c.StoredChunk? ==> Allowed(p, c.kind))
    && (c.LzmaChunk? ==>
          var q := Begun(p, c.kind, c.props);
          && Allowed(p, c.kind) && c.props == q.props && Fits(q.session, c.packets, q.window, c.size)
          && Decodes(Origin(q, c.init), c.payload, c.props, q.session, c.packets))
  }

  /** What a chunk leads to. */
  ghost function AfterChunk(p: Place, c: Chunk): Place
    requires LegalChunk(p, c)
  {
    match c
    case LzmaChunk(kind, props, _, _, _, packets) =>
      var q := Begun(p, kind, props);
      q.(session := Play(q.session, packets), probs := Learned(q.probs, SessionBits(Start, props, q.session, packets)))
    case StoredChunk(kind, data) =>
      var q := AtControl(p, kind);
      q.(session := q.session.(history := q.session.history + data))
    case EndMark => p
  }

  ghost predicate LegalScript(script: Script)
    decreases script, 0
  {
    script.More? ==> LegalScript(script.prev) && LegalChunk(Meaning(script.prev), script.chunk)
  }

  /** What a stream means. */
  ghost function Meaning(script: Script): Place
    requires LegalScript(script)
    decreases script, 1
  {
    match script
    case Fresh(window) => Outset(window)
    case More(prev, c) => AfterChunk(Meaning(prev), c)
  }

  /** In every place a decoder can be the probabilities are in range. */
  lemma {:induction false} MeaningModelled(script: Script)
    requires LegalScript(script)
    ensures var p := Meaning(script); |p.probs| == PROBS_TOTAL && WellModelled(p.probs)
    decreases script
  {
    hide SessionBits, Learned, Play, Legal, Decodes, Windowed, WellModelled;
    if script.More? {
      MeaningModelled(script.prev);
      if script.chunk.LzmaChunk? {
        var p, c := Meaning(script.prev), script.chunk;
        var q := Begun(p, c.kind, c.props);
        LearnedStays(q.probs, SessionBits(Start, c.props, q.session, c.packets));
      }
    }
  }

  // ----- spelling -----

  /** The properties byte of an LZMA chunk, if it has one. */
  function PropsBytes(kind: byte, props: Props): seq<byte>
    requires ValidProps(props)
  {
    if kind >= 0xC0 then [PropsByte(props)] else []
  }

  function ChunkBytes(c: Chunk): seq<byte>
    requires Shaped(c)
  {
    match c
    case LzmaChunk(kind, props, size, init, payload, _) =>
      LzmaHeader(kind, size, 5 + |payload|) + PropsBytes(kind, props) + init + payload
    case StoredChunk(kind, data) => StoredHeader(kind, |data|) + data
    case EndMark => [0]
  }

  /** The bytes of a stream. */
  ghost function Spelled(script: Script): seq<byte>
    requires LegalScript(script)
  {
    match script
    case Fresh(_) => []
    case More(prev, c) => Spelled(prev) + ChunkBytes(c)
  }

  /** One more chunk. */
  lemma ScriptGrows(script: Script, c: Chunk)
    requires LegalScript(script) && LegalChunk(Meaning(script), c)
    ensures LegalScript(More(script, c)) && Meaning(More(script, c)) == AfterChunk(Meaning(script), c)
    ensures Spelled(More(script, c)) == Spelled(script) + ChunkBytes(c)
  {
  }

  // ----- one reading -----

  lemma AgreeSplit(a: seq<byte>, x: seq<byte>, b: seq<byte>, y: seq<byte>)
    requires |a| == |b| && Agree(a + x, b + y)
    ensures a == b && Agree(x, y)
  {
    assert a == (a + x)[..|a|] && b == (b + y)[..|b|];
    assert x == (a + x)[|a|..] && y == (b + y)[|b|..];
  }

  lemma AgreeShorter(a: seq<byte>, b: seq<byte>, c: seq<byte>)
    requires Agree(a, b) && c <= b
    ensures Agree(a, c) && Agree(c, a)
  {
  }

  lemma PrefixSplit(a: seq<byte>, x: seq<byte>, y: seq<byte>)
    requires a + x <= a + y
    ensures x <= y
  {
    assert x == (a + x)[|a|..] && y == (a + y)[|a|..];
  }

  lemma AgreeTwice(a: seq<byte>, x: seq<byte>, b: seq<byte>)
    requires Agree(a + x, b)
    ensures Agree(a, b)
  {
    assert a <= a + x;
  }

  /** The first byte tells the kind of a chunk. */
  lemma FirstByte(c: Chunk)
    requires Shaped(c)
    ensures |ChunkBytes(c)| > 0
    ensures Kind(ChunkBytes(c)[0]) == if c.EndMark? then 0 else c.kind
    ensures ChunkBytes(c)[0] >= 0x80 <==> c.LzmaChunk?
    ensures ChunkBytes(c)[0] == 0 <==> c.EndMark?
    ensures |ChunkBytes(c)| >= if c.LzmaChunk? then 10 else if c.StoredChunk? then 4 else 1
  {
    if c.LzmaChunk? {
      LzmaHeaderAnnounces(c.kind, c.size, 5 + |c.payload|);
    }
  }

  /** The five bytes of a header tell the sizes of the only chunks they can begin. */
  lemma HeaderTells(c: Chunk, h: seq<byte>, rest: seq<byte>)
    requires Shaped(c) && |h| == 5 && h[0] >= 0x80 && Agree(h + rest, ChunkBytes(c))
    ensures c.LzmaChunk? && c.kind == Kind(h[0]) && c.size == SizeIn(h) && 5 + |c.payload| == CompressedIn(h)
    ensures Agree(rest, PropsBytes(c.kind, c.props) + c.init + c.payload)
    ensures |ChunkBytes(c)| == 5 + (if h[0] >= 0xC0 then 1 else 0) + CompressedIn(h)
  {
    FirstByte(c);
    assert (h + rest)[0] == ChunkBytes(c)[0];
    var header := LzmaHeader(c.kind, c.size, 5 + |c.payload|);
    var tail := PropsBytes(c.kind, c.props) + c.init + c.payload;
    assert ChunkBytes(c) == header + tail;
    AgreeSplit(h, rest, header, tail);
    LzmaHeaderAnnounces(c.kind, c.size, 5 + |c.payload|);
  }

  lemma StoredHeaderTells(c: Chunk, h: seq<byte>, rest: seq<byte>)
    requires Shaped(c) && |h| == 3 && (h[0] == 1 || h[0] == 2) && Agree(h + rest, ChunkBytes(c))
    ensures c.StoredChunk? && c.kind == h[0] && |c.data| == CompressedIn(h) && Agree(rest, c.data)
    ensures |ChunkBytes(c)| == 3 + CompressedIn(h)
  {
    FirstByte(c);
    assert (h + rest)[0] == ChunkBytes(c)[0];
    AgreeSplit(h, rest, StoredHeader(c.kind, |c.data|), c.data);
    StoredHeaderAnnounces(c.kind, |c.data|);
  }

  /** A header that is not complete, or a whole one with less behind it than it announces. */
  predicate Incomplete(h: seq<byte>, tail: seq<byte>) {
    if h == [] then tail == []
    else if h[0] >= 0x80 then
      if |h| < 5 then tail == []
      else |h| == 5 && (CompressedIn(h) < 5 || |tail| < (if h[0] >= 0xC0 then 1 else 0) + CompressedIn(h))
    else (h[0] == 1 || h[0] == 2) && if |h| < 3 then tail == [] else |h| == 3 && |tail| < CompressedIn(h)
  }

  lemma IncompleteUnfinished(c: Chunk, h: seq<byte>, tail: seq<byte>)
    requires Shaped(c) && Incomplete(h, tail)
    ensures !(ChunkBytes(c) <= h + tail)
  {
    hide CompressedIn, SizeIn, Kind, ChunkBytes;
    FirstByte(c);
    if ChunkBytes(c) <= h + tail {
      assert h != [] && ChunkBytes(c)[0] == (h + tail)[0] == h[0];
      if |h| == 5 {
        HeaderTells(c, h, tail);
      } else if |h| == 3 && h[0] < 0x80 {
        StoredHeaderTells(c, h, tail);
      }
    }
  }

  /** With the header known, the bytes behind it are properties, first code and payload. */
  lemma PayloadTells(c: Chunk, kind: byte, props: Props, init: seq<byte>, rest: seq<byte>)
    requires Shaped(c) && c.LzmaChunk? && c.kind == kind && ValidProps(props) && |init| == 5
    requires Agree(PropsBytes(kind, props) + init + rest, PropsBytes(c.kind, c.props) + c.init + c.payload)
    ensures (kind >= 0xC0 ==> c.props == props) && c.init == init && Agree(rest, c.payload)
  {
    var a, b := PropsBytes(kind, props), PropsBytes(c.kind, c.props);
    AgreeSplit(a + init, rest, b + c.init, c.payload);
    assert a == (a + init)[..|a|] && b == (b + c.init)[..|b|];
    assert init == (a + init)[|a|..] && c.init == (b + c.init)[|b|..];
    if kind >= 0xC0 {
      assert a[0] == b[0];
      PropsByteInverts(props, c.props);
    }
  }

  /** In one place, the bytes of two legal chunks that agree are those of one. */
  lemma OneChunk(p: Place, c: Chunk, d: Chunk)
    requires LegalChunk(p, c) && LegalChunk(p, d) && Agree(ChunkBytes(c), ChunkBytes(d))
    ensures c == d
  {
    hide Decodes, Legal, Windowed, Play, InitCode, PropsByte, LzmaHeader, TopSize, CompressedIn;
    FirstByte(c);
    FirstByte(d);
    assert ChunkBytes(c)[0] == ChunkBytes(d)[0];
    match c {
      case EndMark =>
      case StoredChunk(kind, data) =>
        StoredHeaderTells(d, StoredHeader(kind, |data|), data);
        StoredHeaderAnnounces(kind, |data|);
      case LzmaChunk(_, _, _, _, _, _) =>
        OneLzmaChunk(p, c, d);
    }
  }

  lemma OneLzmaChunk(p: Place, c: Chunk, d: Chunk)
    requires c.LzmaChunk? && LegalChunk(p, c) && LegalChunk(p, d) && Agree(ChunkBytes(c), ChunkBytes(d))
    ensures c == d
  {
    hide Decodes, Legal, Windowed, Play, InitCode, PropsByte, LzmaHeader, TopSize, CompressedIn;
    LzmaHeaderAnnounces(c.kind, c.size, 5 + |c.payload|);
    var header, tail := LzmaHeader(c.kind, c.size, 5 + |c.payload|), PropsBytes(c.kind, c.props) + c.init + c.payload;
    assert ChunkBytes(c) == header + tail;
    HeaderTells(d, header, tail);
    PayloadTells(d, c.kind, c.props, c.init, c.payload);
    assert d.payload == c.payload && d.props == c.props;
    var q := Begun(p, c.kind, c.props);
    OnePayload(Origin(q, c.init), c.payload, c.props, q.session, c.packets, d.packets);
  }

  /** `t` goes on from `s`. */
  ghost predicate Leads(s: Script, t: Script) {
    s == t || (t.More? && Leads(s, t.prev))
  }

  ghost function Window(script: Script): nat {
    match script
    case Fresh(window) => window
    case More(prev, _) => Window(prev)
  }

  lemma {:induction false} FreshLeads(t: Script)
    ensures Leads(Fresh(Window(t)), t)
  {
    if t.More? {
      FreshLeads(t.prev);
    }
  }

  /** The chunk that comes next on the way from `s` to `t`. */
  lemma {:induction false} NextChunk(s: Script, t: Script) returns (c: Chunk)
    requires Leads(s, t) && s != t && LegalScript(t)
    ensures LegalScript(More(s, c)) && Leads(More(s, c), t)
    decreases t
  {
    if s == t.prev {
      c := t.chunk;
    } else {
      c := NextChunk(s, t.prev);
    }
  }

  lemma {:induction false} LeadsSpells(s: Script, t: Script)
    requires Leads(s, t) && LegalScript(t)
    ensures LegalScript(s) && Spelled(s) <= Spelled(t) && Window(s) == Window(t)
    decreases t
  {
    if s != t {
      LeadsSpells(s, t.prev);
    }
  }

  /** Of two streams whose bytes agree, one goes on from the other: bytes have one reading. */
  lemma {:induction false} OneScript(s: Script, t: Script)
    requires LegalScript(s) && LegalScript(t) && Window(s) == Window(t)
    requires Agree(Spelled(s), Spelled(t))
    ensures Leads(s, t) || Leads(t, s)
    decreases s
  {
    hide LegalChunk, ChunkBytes;
    if s.Fresh? {
      FreshLeads(t);
    } else {
      AgreeTwice(Spelled(s.prev), ChunkBytes(s.chunk), Spelled(t));
      OneScript(s.prev, t);
      if Leads(s.prev, t) && s.prev != t {
        var d := NextChunk(s.prev, t);
        LeadsSpells(More(s.prev, d), t);
        AgreeShorter(Spelled(s), Spelled(t), Spelled(More(s.prev, d)));
        AgreeSplit(Spelled(s.prev), ChunkBytes(s.chunk), Spelled(s.prev), ChunkBytes(d));
        OneChunk(Meaning(s.prev), s.chunk, d);
      }
    }
  }

  // ----- streams -----

  function Length(script: Script): nat {
    if script.More? then Length(script.prev) + 1 else 0
  }

  /** `t` goes on from `from` without coming to an end mark. */
  ghost predicate Unended(from: Script, t: Script) {
    t == from || (t.More? && !t.chunk.EndMark? && Unended(from, t.prev))
  }

  /** A whole stream from `from` on: legal chunks up to the first end mark. */
  ghost predicate Stream(from: Script, s: Script) {
    LegalScript(s) && s.More? && s.chunk.EndMark? && Unended(from, s.prev)
  }

  lemma {:induction false} UnendedLength(from: Script, t: Script)
    requires Unended(from, t)
    ensures Length(from) <= Length(t) && Window(from) == Window(t)
    decreases t
  {
    if t != from {
      UnendedLength(from, t.prev);
    }
  }

  lemma {:induction false} LeadsLength(s: Script, t: Script)
    requires Leads(s, t)
    ensures Length(s) <= Length(t)
    decreases t
  {
    if s != t {
      LeadsLength(s, t.prev);
    }
  }

  /** What has not come to an end mark does not contain a whole stream. */
  lemma {:induction false} NotPastEnd(from: Script, s: Script, t: Script)
    requires Stream(from, s) && Unended(from, t)
    ensures !Leads(s, t)
    decreases t
  {
    hide LegalScript;
    UnendedLength(from, s.prev);
    if Leads(s, t) {
      LeadsLength(s, t);
      NotPastEnd(from, s, t.prev);
    }
  }

  /** A stream of given bytes ends in one place: two whole streams that agree are the same. */
  lemma OneEnd(from: Script, s: Script, t: Script)
    requires Stream(from, s) && Stream(from, t) && Agree(Spelled(s), Spelled(t))
    ensures s == t
  {
    hide LegalChunk, ChunkBytes;
    UnendedLength(from, s.prev);
    UnendedLength(from, t.prev);
    OneScript(s, t);
    NotPastEnd(from, s, t.prev);
    NotPastEnd(from, t, s.prev);
  }

  /** No legal chunk begins with these bytes, or is at their beginning. */
  ghost predicate Doomed(p: Place, rest: seq<byte>) {
    forall c :: LegalChunk(p, c) ==> !Agree(rest, ChunkBytes(c))
  }

  /** The bytes at which a chunk was refused are not those of any stream. */
  lemma DoomedStream(from: Script, t: Script, rest: seq<byte>, s: Script)
    requires LegalScript(t) && Unended(from, t) && Doomed(Meaning(t), rest)
    requires Stream(from, s)
    ensures !Agree(Spelled(t) + rest, Spelled(s))
  {
    hide LegalChunk, ChunkBytes;
    if Agree(Spelled(t) + rest, Spelled(s)) {
      var d := ComesNext(from, t, rest, s);
    }
  }

  /** The chunk of a stream that comes next, and whose bytes those that follow agree with. */
  lemma ComesNext(from: Script, t: Script, rest: seq<byte>, s: Script) returns (d: Chunk)
    requires LegalScript(t) && Unended(from, t)
    requires Stream(from, s) && Agree(Spelled(t) + rest, Spelled(s))
    ensures LegalChunk(Meaning(t), d) && LegalScript(More(t, d)) && Leads(More(t, d), s) && Agree(rest, ChunkBytes(d))
    ensures Spelled(More(t, d)) <= Spelled(s)
  {
    hide LegalChunk, ChunkBytes;
    AgreeTwice(Spelled(t), rest, Spelled(s));
    UnendedLength(from, t);
    UnendedLength(from, s.prev);
    OneScript(t, s);
    NotPastEnd(from, s, t);
    d := NextChunk(t, s);
    LeadsSpells(More(t, d), s);
    AgreeShorter(Spelled(t) + rest, Spelled(s), Spelled(More(t, d)));
    AgreeSplit(Spelled(t), rest, Spelled(t), ChunkBytes(d));
  }

  // ----- why a chunk can be refused -----

  lemma BadControl(p: Place, rest: seq<byte>)
    requires |rest| > 0 && !Allowed(p, rest[0])
    ensures Doomed(p, rest)
  {
    hide Decodes, Fits, ChunkBytes;
    forall c | LegalChunk(p, c)
      ensures !Agree(rest, ChunkBytes(c))
    {
      FirstByte(c);
      SameKind(p, ChunkBytes(c)[0], Props(0, 0, 0));
    }
  }

  lemma BadProps(p: Place, h: seq<byte>, x: byte, rest: seq<byte>)
    requires |h| == 5 && h[0] >= 0xC0 && NoProps(x)
    ensures Doomed(p, h + [x] + rest)
  {
    hide Decodes, Fits, ChunkBytes, PropsByte;
    forall c | LegalChunk(p, c)
      ensures !Agree(h + [x] + rest, ChunkBytes(c))
    {
      if Agree(h + [x] + rest, ChunkBytes(c)) {
        assert h + [x] + rest == h + ([x] + rest);
        HeaderTells(c, h, [x] + rest);
        assert PropsBytes(c.kind, c.props) + c.init + c.payload == [PropsByte(c.props)] + (c.init + c.payload);
        AgreeSplit([x], rest, [PropsByte(c.props)], c.init + c.payload);
      }
    }
  }

  lemma TooShort(p: Place, h: seq<byte>, rest: seq<byte>)
    requires |h| == 5 && h[0] >= 0x80 && CompressedIn(h) < 5
    ensures Doomed(p, h + rest)
  {
    hide Decodes, Fits, ChunkBytes;
    forall c | LegalChunk(p, c)
      ensures !Agree(h + rest, ChunkBytes(c))
    {
      if Agree(h + rest, ChunkBytes(c)) {
        HeaderTells(c, h, rest);
      }
    }
  }

  // ----- output -----

  /** What was output stays output. */
  lemma {:induction false} OutputGrows(s: Script, t: Script)
    requires Leads(s, t) && LegalScript(t)
    ensures LegalScript(s) && Meaning(s).Output() <= Meaning(t).Output()
    decreases t
  {
    hide LegalChunk, AfterChunk;
    if s != t {
      OutputGrows(s, t.prev);
      ChunkOutputs(Meaning(t.prev), t.chunk);
    }
  }

  lemma ChunkOutputs(p: Place, c: Chunk)
    requires LegalChunk(p, c)
    ensures p.Output() <= AfterChunk(p, c).Output()
    ensures |AfterChunk(p, c).Output()|
            == |p.Output()| + (if c.LzmaChunk? then c.size else if c.StoredChunk? then |c.data| else 0)
  {
    hide Decodes, Learned, SessionBits, Legal, Play, Windowed, AtControl, Begun, Allowed, Origin, Place.Output;
    match c {
      case EndMark =>
      case StoredChunk(kind, data) =>
        OutputKept(p, kind, Props(0, 0, 0));
        OutputExtends(AtControl(p, kind), AfterChunk(p, c));
      case LzmaChunk(kind, props, size, _, _, packets) =>
        OutputKept(p, kind, props);
        PlayKeeps(Begun(p, kind, props).session, packets);
        OutputExtends(Begun(p, kind, props), AfterChunk(p, c));
    }
  }

  /** The beginning of a chunk outputs nothing. */
  lemma OutputKept(p: Place, control: byte, props: Props)
    ensures AtControl(p, control).Output() == p.Output() && Begun(p, control, props).Output() == p.Output()
  {
  }

  lemma OutputExtends(p: Place, q: Place)
    requires p.earlier == q.earlier && p.session.history <= q.session.history
    ensures p.Output() <= q.Output() && |q.Output()| - |p.Output()| == |q.session.history| - |p.session.history|
  {
  }

  /** Packets only add to the history. */
  lemma {:induction false} PlayKeeps(s: Session, ps: Packets)
    requires Legal(s, ps)
    ensures s.history <= Play(s, ps).history
  {
    if ps.Add? {
      PlayKeeps(s, ps.prev);
      var u := Play(s, ps.prev);
      if !ps.last.Literal? {
        LzCopyBytes(u.history, After(u.coder, ps.last).reps[0], PacketLength(ps.last));
      }
    }
  }

  // ----- everything can be spelled -----

  /** The five bytes that leave a given code. */
  function CodeBytes(code: nat): (b: seq<byte>)
    requires code < WORD
    ensures |b| == 5
  {
    [0, code / 0x100_0000, code / 0x1_0000 % 0x100, code / 0x100 % 0x100, code % 0x100]
  }

  lemma CodeBytesInvert(code: nat)
    requires code < WORD
    ensures InitCode(CodeBytes(code)) == code
  {
    hide InitCode, BigEndian;
    var b := CodeBytes(code);
    InitCodeValue(b);
    FourBytesValue(b[1..]);
    assert code / 0x100_0000 * 0x100 + code / 0x1_0000 % 0x100 == code / 0x1_0000;
    assert code / 0x1_0000 * 0x100 + code / 0x100 % 0x100 == code / 0x100;
  }

  lemma FourBytesValue(b: seq<byte>)
    requires |b| == 4
    ensures BigEndian(b) == (((b[0] as int) * 0x100 + b[1]) * 0x100 + b[2]) * 0x100 + b[3]
  {
    assert b[..3][..2] == b[..2] && b[..2][..1] == b[..1] && b[..1][..0] == b[..0];
    assert BigEndian(b[..0]) == 0;
    assert BigEndian(b[..1]) == b[0];
    assert BigEndian(b[..2]) == BigEndian(b[..1]) * 0x100 + b[1];
    assert BigEndian(b[..3]) == BigEndian(b[..2]) * 0x100 + b[2];
  }

  /**
   Any packets of a size that a header can announce have a chunk that is legal where its kind may come,
   unless their encoding is longer than a header can announce.
   */
  lemma EverythingSpelled(script: Script, kind: byte, props: Props, size: nat, packets: Packets) returns (c: Chunk)
    requires LegalScript(script) && LzmaKind(kind) && ValidProps(props) && Allowed(Meaning(script), kind)
    requires 0 < size <= 0x20_0000
    requires var q := Begun(Meaning(script), kind, props); props == q.props && Fits(q.session, packets, q.window, size)
    ensures c.LzmaChunk? && c.kind == kind && c.props == props && c.size == size && c.packets == packets
    ensures 5 + |c.payload| <= 0x1_0000 ==> LegalScript(More(script, c))
  {
    hide Meaning, Legal, Play, Windowed, InitCode, CodeBytes, Encodes, Decodes;
    MeaningModelled(script);
    var q := Begun(Meaning(script), kind, props);
    var origin, payload := LzmaEncoder.EverythingEncodes(q.probs, props, q.session, packets);
    CodeBytesInvert(origin.code);
    c := LzmaChunk(kind, props, size, CodeBytes(origin.code), payload, packets);
    EncodedAt(origin, payload, props, q.session, packets);
    assert origin == Origin(q, c.init);
    EncodingDecodes(origin, payload, props, q.session, packets);
  }

  lemma EncodedAt(origin: Rc, payload: seq<byte>, props: Props, s: Session, packets: Packets)
    requires Encodes(origin, payload, props, s, packets)
    ensures origin.pos == 0
  {
  }
}
