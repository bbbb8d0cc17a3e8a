/**
 The other half of decoding inverting encoding: as long as the bytes are those of an encoding, each
 packet decoded is the one encoded, no more bytes are read than there are, and at the end nothing is left.
 */
module LzmaComplete {
  import opened BitArithmetic
  import opened RangeCoder
  import opened LzmaPackets
  import opened LzmaUnique

  /** The payload is what an exact encoder writes for the packets: the low end of its interval, normalized. */
  ghost predicate Encodes(origin: Rc, payload: seq<byte>, props: Props, s: Session, ps: Packets) {
    && ValidProps(props) && Legal(s, ps) && origin.pos == 0
    && var e := Encode(Interval(0, origin.range, 0, origin.probs), SessionBits(Start, props, s, ps));
       e.Some? && Widen(e.value).shifts == |payload| && StreamValue(origin, payload, |payload|) == Widen(e.value).low
  }

  /**
   The payload decodes to the packets, and all of it does: the last normalization reads its end and
   leaves the code at zero.
   */
  ghost predicate Decodes(origin: Rc, payload: seq<byte>, props: Props, s: Session, ps: Packets) {
    && ValidProps(props) && Legal(s, ps) && origin.pos == 0
    && Replay(origin, payload, SessionBits(Start, props, s, ps)).Some?
    && var r := Replay(origin, payload, SessionBits(Start, props, s, ps)).value;
       Reach(r) == |payload| && CanNormalize(r, payload) && Normalize(r, payload).code == 0
  }

  /** Two byte strings agree as far as both go. */
  ghost predicate Agree(a: seq<byte>, b: seq<byte>) {
    a <= b || b <= a
  }

  lemma StreamAgrees(stream: seq<byte>, taken: seq<byte>, payload: seq<byte>)
    requires stream <= taken && Agree(taken, payload)
    ensures Agree(stream, payload)
  {
  }

  lemma ShownAgrees(stream: seq<byte>, known: seq<byte>, payload: seq<byte>)
    requires Agree(known, payload)
    requires var k := if |stream| <= |payload| then |stream| else |payload|; k <= |known| && stream[..k] == known[..k]
    ensures Agree(stream, payload)
  {
    var k := if |stream| <= |payload| then |stream| else |payload|;
    assert known[..k] == payload[..k];
  }

  /** How far decoding some bits reads, counting the normalization that follows. */
  function Reach(r: Rc): nat {
    r.pos + if r.range < TOP then 1 else 0
  }

  lemma {:induction false} EncodeValid(e: Interval, bits: Bits)
    requires e.range * 67 >= TOP && e.range < WORD && WellModelled(e.probs) && Encode(e, bits).Some?
    ensures Encode(e, bits).value.range * 67 >= TOP && Encode(e, bits).value.range < WORD
    ensures WellModelled(Encode(e, bits).value.probs)
    decreases bits
  {
    if bits.Then? {
      EncodeValid(e, bits.prev);
      var f := Widen(Encode(e, bits.prev).value);
      match bits.last {
        case Modelled(ctx, bit) => ModelledLoss(f.range, f.probs[ctx]); AdaptStays(f.probs[ctx], bit);
        case Direct(_) =>
      }
    }
  }

  /** Decoding an encoding yields its bits, reads all of it, and ends with the code at zero. */
  lemma EncodingDecodes(origin: Rc, payload: seq<byte>, props: Props, s: Session, ps: Packets)
    requires ValidRc(origin) && origin.range * 67 >= TOP && Encodes(origin, payload, props, s, ps)
    ensures Decodes(origin, payload, props, s, ps)
  {
    hide SessionBits, Encode, Replay, Legal, Play;
    var bits := SessionBits(Start, props, s, ps);
    var start := Interval(0, origin.range, 0, origin.probs);
    EncodeValid(start, bits);
    var e := Encode(start, bits).value;
    WidenWithin(origin, payload, e);
    DecodeInvertsEncode(origin, payload, bits);
    ReplayValid(origin, payload, bits);
    NormalizeInStep(origin, payload, Replay(origin, payload, bits).value, e);
  }

  // ----- decoding further is reading further -----

  lemma {:induction false} ReplayPrefix(origin: Rc, input: seq<byte>, a: Bits, b: Bits)
    requires Extends(a, b) && Replay(origin, input, b).Some?
    ensures Replay(origin, input, a).Some?
    ensures Reach(Replay(origin, input, a).value) <= Reach(Replay(origin, input, b).value)
    decreases b
  {
    hide NextBit, Applicable;
    if a != b {
      ReplayPrefix(origin, input, a, b.prev);
    }
  }

  lemma {:induction false} PrefixExtends(t: Bits, props: Props, s: Session, qs: Packets, ps: Packets)
    requires ValidProps(props) && Legal(s, ps) && Prefix(qs, ps)
    ensures Legal(s, qs) && Extends(SessionBits(t, props, s, qs), SessionBits(t, props, s, ps))
    decreases ps
  {
    hide PacketBits, Expand, After;
    if qs != ps {
      PrefixExtends(t, props, s, qs, ps.prev);
      var u := Play(s, ps.prev);
      PacketExtends(SessionBits(t, props, s, ps.prev), props, u.coder, u.history, ps.last);
      ExtendsAgain(SessionBits(t, props, s, qs), SessionBits(t, props, s, ps.prev), SessionBits(t, props, s, ps));
    }
  }

  /** The packet that follows a proper prefix. */
  lemma {:induction false} NextAfter(qs: Packets, ps: Packets) returns (p: Packet)
    requires Prefix(qs, ps) && qs != ps
    ensures Prefix(Add(qs, p), ps)
    decreases ps
  {
    if qs == ps.prev {
      p := ps.last;
    } else {
      p := NextAfter(qs, ps.prev);
    }
  }

  lemma {:induction false} PrefixWindowed(s: Session, qs: Packets, ps: Packets, size: nat)
    requires Legal(s, ps) && Legal(s, qs) && Prefix(qs, ps) && Windowed(s, ps, size)
    ensures Windowed(s, qs, size)
    decreases ps
  {
    if qs != ps {
      PrefixWindowed(s, qs, ps.prev, size);
    }
  }

  // ----- what is decoded is what was encoded -----

  /** Bits decoded from a stream that agrees with the payload are decoded from the longer of the two. */
  lemma OneStream(origin: Rc, stream: seq<byte>, payload: seq<byte>, a: Bits, b: Bits) returns (whole: seq<byte>)
    requires Agree(stream, payload) && Replay(origin, stream, a).Some? && Replay(origin, payload, b).Some?
    ensures Replay(origin, whole, a) == Replay(origin, stream, a)
    ensures Replay(origin, whole, b) == Replay(origin, payload, b)
  {
    if stream <= payload {
      whole := payload;
      assert payload == stream + payload[|stream|..];
      ReplayExtend(origin, stream, payload[|stream|..], a);
    } else {
      whole := stream;
      assert stream == payload + stream[|payload|..];
      ReplayExtend(origin, payload, stream[|payload|..], b);
    }
  }

  /** The packet decoded next, after a part of those encoded, is the one encoded next. */
  lemma NextIsEncoded(origin: Rc, stream: seq<byte>, payload: seq<byte>, props: Props, s: Session, ps: Packets,
      qs: Packets, q: Packet)
    requires Decodes(origin, payload, props, s, ps) && Agree(stream, payload)
    requires Legal(s, qs) && Grounded(Play(s, qs)) && ValidPacket(q) && |Play(s, qs).history| < |Play(s, ps).history|
    requires var bits := PacketBits(SessionBits(Start, props, s, qs), props, Play(s, qs).coder, Play(s, qs).history, q);
             Replay(origin, stream, bits).Some?
    ensures Prefix(Add(qs, q), ps)
  {
    hide SessionBits, Replay, PacketBits, Play, Legal, Decodes;
    DecodedLegal(origin, payload, props, s, ps);
    var bits := PacketBits(SessionBits(Start, props, s, qs), props, Play(s, qs).coder, Play(s, qs).history, q);
    var whole := OneStream(origin, stream, payload, bits, SessionBits(Start, props, s, ps));
    PacketExtends(SessionBits(Start, props, s, qs), props, Play(s, qs).coder, Play(s, qs).history, q);
    ReplayPrefix(origin, whole, SessionBits(Start, props, s, qs), bits);
    OneReading(origin, whole, props, s, ps, qs);
    if Prefix(ps, qs) {
      PacketsGrow(s, ps, qs);
    } else {
      SameNext(origin, whole, props, s, ps, qs, q);
    }
  }

  lemma DecodedLegal(origin: Rc, payload: seq<byte>, props: Props, s: Session, ps: Packets)
    requires Decodes(origin, payload, props, s, ps)
    ensures ValidProps(props) && Legal(s, ps) && Replay(origin, payload, SessionBits(Start, props, s, ps)).Some?
  {
  }

  /** A payload decodes to one sequence of packets of a given size only. */
  lemma OnePayload(origin: Rc, payload: seq<byte>, props: Props, s: Session, ps: Packets, qs: Packets)
    requires Decodes(origin, payload, props, s, ps) && Decodes(origin, payload, props, s, qs)
    requires |Play(s, ps).history| == |Play(s, qs).history|
    ensures ps == qs
  {
    hide SessionBits, Replay, Play, Legal, Decodes;
    DecodedLegal(origin, payload, props, s, ps);
    DecodedLegal(origin, payload, props, s, qs);
    OneReading(origin, payload, props, s, ps, qs);
    if Prefix(ps, qs) {
      PacketsGrow(s, ps, qs);
    } else {
      PacketsGrow(s, qs, ps);
    }
  }

  /** A decoder that has read all of a stream and is left with the code at zero has decoded it. */
  lemma SpentDecodes(origin: Rc, stream: seq<byte>, props: Props, s: Session, ps: Packets, cur: Rc)
    requires ValidProps(props) && Legal(s, ps) && origin.pos == 0
    requires Follows(origin, stream, SessionBits(Start, props, s, ps), cur) && cur.range >= TOP && cur.code == 0
    ensures Decodes(origin, stream, props, s, ps)
  {
    hide SessionBits, Replay, Play, Legal;
  }

  lemma SameNext(origin: Rc, whole: seq<byte>, props: Props, s: Session, ps: Packets, qs: Packets, q: Packet)
    requires ValidProps(props) && Legal(s, ps) && Legal(s, qs) && Prefix(qs, ps) && qs != ps && Grounded(Play(s, qs))
    requires ValidPacket(q)
    requires Replay(origin, whole, SessionBits(Start, props, s, ps)).Some?
    requires var bits := PacketBits(SessionBits(Start, props, s, qs), props, Play(s, qs).coder, Play(s, qs).history, q);
             Replay(origin, whole, bits).Some?
    ensures Prefix(Add(qs, q), ps)
  {
    hide Replay, PacketBits;
    var p := NextAfter(qs, ps);
    PrefixExtends(Start, props, s, Add(qs, p), ps);
    ReplayPrefix(origin, whole, SessionBits(Start, props, s, Add(qs, p)), SessionBits(Start, props, s, ps));
    var t, u := SessionBits(Start, props, s, qs), Play(s, qs);
    if p != q {
      PacketForks(t, props, u.coder, u.history, p, q);
      ForkDecides(origin, whole, PacketBits(t, props, u.coder, u.history, p),
          PacketBits(t, props, u.coder, u.history, q));
    }
  }

  /** Packets decoded, the last of them begun before the end, are the first of those encoded. */
  lemma DecodedArePrefix(origin: Rc, stream: seq<byte>, payload: seq<byte>, props: Props, s: Session, ps: Packets,
      qs: Packets)
    requires Decodes(origin, payload, props, s, ps) && Agree(stream, payload)
    requires Legal(s, qs) && Replay(origin, stream, SessionBits(Start, props, s, qs)).Some?
    requires qs.Add? ==> |Play(s, qs.prev).history| < |Play(s, ps).history|
    ensures Prefix(qs, ps)
  {
    hide Replay, PacketBits, Decodes;
    if qs.Add? {
      NextIsEncoded(origin, stream, payload, props, s, ps, qs.prev, qs.last);
    } else {
      EmptyPrefix(ps);
    }
  }

  /** A decoder on such a stream never reads beyond it. */
  lemma ReadsWithin(origin: Rc, stream: seq<byte>, payload: seq<byte>, props: Props, s: Session, ps: Packets,
      qs: Packets, cur: Rc)
    requires ValidRc(origin) && origin.range * 67 >= TOP && Decodes(origin, payload, props, s, ps)
    requires Agree(stream, payload)
    requires Legal(s, qs) && Prefix(qs, ps) && Follows(origin, stream, SessionBits(Start, props, s, qs), cur)
    requires cur.range >= TOP
    ensures |stream| <= |payload|
    ensures qs == ps ==> |stream| == |payload| && cur.code == 0
  {
    hide SessionBits, Encode, Replay, Legal, Play;
    var a, b := SessionBits(Start, props, s, qs), SessionBits(Start, props, s, ps);
    var whole := OneStream(origin, stream, payload, a, b);
    PrefixExtends(Start, props, s, qs, ps);
    ReplayPrefix(origin, whole, a, b);
    ReplayValid(origin, stream, a);
  }
}
