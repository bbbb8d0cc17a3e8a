/**
 The binary range coder that LZMA is built on, as pure arithmetic.

 A decoder state is the triple the C struct keeps (range, code, read position) together
 with the adaptive probabilities. `Replay` decodes bits one by one. Two facts carry the rest of
 the decoder: how many input bytes a bounded run of bits can consume (`SymbolBudget`),
 and that decoding inverts an exact-arithmetic encoder (`DecodeInvertsEncode`).
 */
module RangeCoder {
  import opened BitArithmetic
  import opened Options

  const TOP: nat := 0x100_0000
  const WORD: nat := 0x1_0000_0000
  const SIGN_BIT: nat := 0x8000_0000
  const MODEL_TOTAL: nat := 2048
  const PROB_MIN: nat := 31
  const PROB_MAX: nat := 2017

  /** A decoded bit: modelled by the probability at index `ctx`, or direct (fifty-fifty). */
  datatype Decision = Modelled(ctx: nat, bit: bool) | Direct(bit: bool)

  /** The bits decoded so far, latest last. */
  datatype Bits = Start | Then(prev: Bits, last: Decision)

  datatype Rc = Rc(range: nat, code: nat, pos: nat, probs: seq<nat>)

  ghost predicate WellModelled(probs: seq<nat>) {
    forall i :: 0 <= i < |probs| ==> PROB_MIN <= probs[i] <= PROB_MAX
  }

  ghost predicate ValidRc(rc: Rc) {
    0 < rc.range < WORD && rc.code < WORD && WellModelled(rc.probs)
  }

  // ----- products -----

  /** A product kept symbolic: proofs that only carry it along need no multiplication. */
  function Times(a: nat, b: nat): nat {
    if a == 0 then 0 else b + Times(a - 1, b)
  }

  lemma {:induction false} TimesIsProduct(a: nat, b: nat)
    ensures Times(a, b) == a * b
  {
    if a > 0 {
      TimesIsProduct(a - 1, b);
      assert a * b == (a - 1) * b + b;
    }
  }

  lemma {:induction false} TimesSum(a: nat, a': nat, b: nat)
    ensures Times(a + a', b) == Times(a, b) + Times(a', b)
  {
    if a > 0 {
      TimesSum(a - 1, a', b);
    }
  }

  lemma {:induction false} TimesMonotone(a: nat, b: nat, c: nat)
    requires a <= b
    ensures Times(a, c) <= Times(b, c) && Times(c, a) <= Times(c, b)
  {
    TimesSum(a, b - a, c);
    if c > 0 {
      TimesMonotone(a, b, c - 1);
    }
  }

  /** A constant factor moves freely. */
  lemma {:induction false} ScaleRight(k: nat, a: nat, b: nat)
    ensures Times(a, k * b) == k * Times(a, b)
  {
    if a > 0 {
      ScaleRight(k, a - 1, b);
      assert k * (b + Times(a - 1, b)) == k * b + k * Times(a - 1, b);
    }
  }

  lemma {:induction false} ScaleLeft(k: nat, a: nat, b: nat)
    ensures Times(a * k, b) == k * Times(a, b)
  {
    if a > 0 {
      ScaleLeft(k, a - 1, b);
      assert a * k == (a - 1) * k + k;
      TimesSum((a - 1) * k, k, b);
      TimesIsProduct(k, b);
      assert k * (b + Times(a - 1, b)) == k * b + k * Times(a - 1, b);
    }
  }

  // ----- one bit -----

  function Adapt(p: nat, bit: bool): nat
    requires p <= MODEL_TOTAL
  {
    if bit then p - p / 32 else p + (MODEL_TOTAL - p) / 32
  }

  predicate CanNormalize(rc: Rc, input: seq<byte>) {
    rc.range < TOP ==> rc.pos < |input|
  }

  function Normalize(rc: Rc, input: seq<byte>): Rc
    requires CanNormalize(rc, input)
  {
    if rc.range < TOP then
      rc.(range := rc.range * 256, code := (rc.code * 256 + input[rc.pos]) % WORD, pos := rc.pos + 1)
    else
      rc
  }

  /** The width of the sub-interval that stands for a zero bit. */
  function Bound(range: nat, p: nat): nat {
    Times(range / MODEL_TOTAL, p)
  }

  predicate Applicable(rc: Rc, d: Decision) {
    d.Modelled? ==> d.ctx < |rc.probs| && rc.probs[d.ctx] <= MODEL_TOTAL
  }

  /** `code - half` in 32-bit arithmetic, whose sign bit the direct decoder tests. */
  function Difference(rc: Rc): nat {
    (rc.code - rc.range / 2) % WORD
  }

  /** The bit a normalized state yields in the context of `d`. */
  predicate NextBit(rc: Rc, d: Decision)
    requires Applicable(rc, d)
  {
    match d
    case Modelled(ctx, _) => rc.code >= Bound(rc.range, rc.probs[ctx])
    case Direct(_) => Difference(rc) < SIGN_BIT
  }

  /** A normalized state after the bit recorded in `d` was decoded. */
  function Narrow(rc: Rc, d: Decision): Rc
    requires Applicable(rc, d) && NextBit(rc, d) == d.bit
  {
    match d
    case Modelled(ctx, bit) =>
      var p := rc.probs[ctx];
      var bound := Bound(rc.range, p);
      BoundFits(rc.range, p);
      rc.(range := if bit then rc.range - bound else bound,
          code := if bit then rc.code - bound else rc.code,
          probs := rc.probs[ctx := Adapt(p, bit)])
    case Direct(bit) =>
      rc.(range := rc.range / 2, code := if bit then Difference(rc) else rc.code)
  }

  /** The state after decoding all of `bits`, or None if the input decodes to something else. */
  function Replay(rc: Rc, input: seq<byte>, bits: Bits): Option<Rc> {
    match bits
    case Start => Some(rc)
    case Then(prev, d) =>
      match Replay(rc, input, prev)
      case None => None
      case Some(s) =>
        if CanNormalize(s, input) && Applicable(Normalize(s, input), d) &&
           NextBit(Normalize(s, input), d) == d.bit
        then Some(Narrow(Normalize(s, input), d))
        else None
  }

  lemma BoundFits(range: nat, p: nat)
    requires p <= MODEL_TOTAL
    ensures Bound(range, p) <= range
  {
    TimesMonotone(p, MODEL_TOTAL, range / MODEL_TOTAL);
    TimesIsProduct(range / MODEL_TOTAL, MODEL_TOTAL);
  }

  /** What one modelled bit can cost: at most a factor 67 of the range, whichever bit it is. */
  lemma ModelledLoss(range: nat, p: nat)
    requires range >= TOP && PROB_MIN <= p <= PROB_MAX
    ensures 0 < Bound(range, p) < range
    ensures Bound(range, p) * 67 >= range && (range - Bound(range, p)) * 67 >= range
  {
    var q := range / MODEL_TOTAL;
    TimesMonotone(31, p, q);
    TimesMonotone(p, 2017, q);
    TimesIsProduct(q, 31);
    TimesIsProduct(q, 2017);
  }

  /** Adaptation never leaves [31, 2017] (and so no bit is ever impossible). */
  lemma AdaptStays(p: nat, bit: bool)
    requires PROB_MIN <= p <= PROB_MAX
    ensures PROB_MIN <= Adapt(p, bit) <= PROB_MAX
  {
  }

  /** One decoded bit keeps the state valid and the range above TOP / 67. */
  lemma NarrowValid(rc: Rc, d: Decision)
    requires ValidRc(rc) && rc.range >= TOP && Applicable(rc, d) && NextBit(rc, d) == d.bit
    ensures ValidRc(Narrow(rc, d)) && |Narrow(rc, d).probs| == |rc.probs|
    ensures Narrow(rc, d).range * 67 >= rc.range >= TOP
    ensures d.Direct? ==> Narrow(rc, d).range * 129 >= rc.range * 64
  {
    match d {
      case Modelled(ctx, bit) => ModelledLoss(rc.range, rc.probs[ctx]); AdaptStays(rc.probs[ctx], bit);
      case Direct(_) =>
    }
  }

  lemma NormalizeValid(rc: Rc, input: seq<byte>)
    requires ValidRc(rc) && CanNormalize(rc, input) && rc.range * 67 >= TOP
    ensures ValidRc(Normalize(rc, input)) && Normalize(rc, input).range >= TOP
  {
  }

  /** Every state reached by decoding is valid: the probabilities stay in [31, 2017]. */
  lemma {:induction false} ReplayValid(rc: Rc, input: seq<byte>, bits: Bits)
    requires ValidRc(rc) && rc.range * 67 >= TOP
    requires Replay(rc, input, bits).Some?
    ensures ValidRc(Replay(rc, input, bits).value)
    ensures Replay(rc, input, bits).value.range * 67 >= TOP
    ensures |Replay(rc, input, bits).value.probs| == |rc.probs|
    ensures rc.pos <= Replay(rc, input, bits).value.pos
  {
    match bits {
      case Start =>
      case Then(prev, d) =>
        ReplayValid(rc, input, prev);
        var s := Replay(rc, input, prev).value;
        NormalizeValid(s, input);
        NarrowValid(Normalize(s, input), d);
    }
  }

  /** The probabilities after some bits: what was decoded decides them, not the bytes it was decoded from. */
  function Learned(probs: seq<nat>, bits: Bits): seq<nat> {
    match bits
    case Start => probs
    case Then(prev, d) =>
      var ps := Learned(probs, prev);
      if d.Modelled? && d.ctx < |ps| && ps[d.ctx] <= MODEL_TOTAL then ps[d.ctx := Adapt(ps[d.ctx], d.bit)] else ps
  }

  lemma {:induction false} ReplayLearns(rc: Rc, input: seq<byte>, bits: Bits)
    requires Replay(rc, input, bits).Some?
    ensures Replay(rc, input, bits).value.probs == Learned(rc.probs, bits)
  {
    hide NextBit;
    if bits.Then? {
      ReplayLearns(rc, input, bits.prev);
    }
  }

  lemma {:induction false} LearnedStays(probs: seq<nat>, bits: Bits)
    requires WellModelled(probs)
    ensures WellModelled(Learned(probs, bits)) && |Learned(probs, bits)| == |probs|
  {
    if bits.Then? {
      LearnedStays(probs, bits.prev);
      var ps, d := Learned(probs, bits.prev), bits.last;
      if d.Modelled? && d.ctx < |ps| {
        AdaptStays(ps[d.ctx], d.bit);
      }
    }
  }

  // ----- a decoder reading a stream -----

  /** `cur` is where decoding `bits` leads, possibly normalized once more, all of `stream` read. */
  ghost predicate Follows(origin: Rc, stream: seq<byte>, bits: Bits, cur: Rc) {
    && cur.pos == |stream|
    && Replay(origin, stream, bits).Some?
    && var r := Replay(origin, stream, bits).value;
       cur == r || (r.range < TOP && CanNormalize(r, stream) && cur == Normalize(r, stream))
  }

  /** Reading further bytes changes nothing that was decoded. */
  lemma {:induction false} ReplayExtend(origin: Rc, stream: seq<byte>, more: seq<byte>, bits: Bits)
    requires Replay(origin, stream, bits).Some?
    ensures Replay(origin, stream + more, bits) == Replay(origin, stream, bits)
  {
    if bits.Then? {
      ReplayExtend(origin, stream, more, bits.prev);
      hide Narrow, NextBit, Applicable;
    }
  }

  lemma FollowsValid(origin: Rc, stream: seq<byte>, bits: Bits, cur: Rc)
    requires ValidRc(origin) && origin.range * 67 >= TOP && Follows(origin, stream, bits, cur)
    ensures ValidRc(cur) && cur.range * 67 >= TOP && |cur.probs| == |origin.probs|
  {
    ReplayValid(origin, stream, bits);
    hide Replay, Narrow;
  }

  /** Normalizing by one more byte of the stream. */
  lemma FollowsByte(origin: Rc, stream: seq<byte>, bits: Bits, cur: Rc, x: byte)
    requires ValidRc(origin) && origin.range * 67 >= TOP && Follows(origin, stream, bits, cur) && cur.range < TOP
    ensures Follows(origin, stream + [x], bits, Normalize(cur, stream + [x]))
  {
    ReplayValid(origin, stream, bits);
    ReplayExtend(origin, stream, [x], bits);
    hide Replay, Narrow;
  }

  /** Decoding one more bit. */
  lemma FollowsBit(origin: Rc, stream: seq<byte>, bits: Bits, cur: Rc, d: Decision)
    requires Follows(origin, stream, bits, cur) && cur.range >= TOP
    requires Applicable(cur, d) && NextBit(cur, d) == d.bit
    ensures Follows(origin, stream, Then(bits, d), Narrow(cur, d))
    ensures Replay(origin, stream, Then(bits, d)) == Some(Narrow(cur, d))
  {
    var r := Replay(origin, stream, bits).value;
    assert CanNormalize(r, stream) && Normalize(r, stream) == cur;
  }

  // ----- how much input a symbol can consume -----

  function ModelledCount(bits: Bits): nat {
    match bits
    case Start => 0
    case Then(prev, d) => ModelledCount(prev) + if d.Modelled? then 1 else 0
  }

  function DirectCount(bits: Bits): nat {
    match bits
    case Start => 0
    case Then(prev, d) => DirectCount(prev) + if d.Direct? then 1 else 0
  }

  ghost predicate Extends(mark: Bits, bits: Bits) {
    mark == bits || (bits.Then? && Extends(mark, bits.prev))
  }

  lemma {:induction false} ExtendsGrows(mark: Bits, bits: Bits)
    requires Extends(mark, bits)
    ensures ModelledCount(mark) <= ModelledCount(bits) && DirectCount(mark) <= DirectCount(bits)
  {
    if mark != bits {
      ExtendsGrows(mark, bits.prev);
    }
  }

  /**
   The bit counts of one LZMA symbol. A long-distance match takes 22 modelled and 26 direct
   bits; a match in distance slot 12 or 13 takes 23 modelled bits and no direct one.
   */
  predicate Affordable(modelled: int, direct: int) {
    direct <= 26 && modelled <= if direct <= 0 then 23 else 22
  }

  /** The price of a symbol's bits: a factor 67 for a modelled bit, 129/64 for a direct one. */
  function Cost(modelled: nat, direct: nat): nat {
    if modelled > 0 then 67 * Cost(modelled - 1, direct)
    else if direct > 0 then 129 * Cost(0, direct - 1)
    else 1
  }

  /** What n input bytes buy: a factor 256 each, with the denominators of the direct bits. */
  function Bytes(n: nat, direct: nat): nat {
    if n > 0 then 256 * Bytes(n - 1, direct)
    else if direct > 0 then 64 * Bytes(0, direct - 1)
    else 1
  }

  lemma {:induction false} CostDirect(m: nat, d: nat)
    ensures Cost(m, d + 1) == 129 * Cost(m, d) && Cost(m, d) > 0
  {
    if m > 0 {
      CostDirect(m - 1, d);
    } else if d > 0 {
      CostDirect(0, d - 1);
    }
  }

  lemma {:induction false} BytesDirect(n: nat, d: nat)
    ensures Bytes(n, d + 1) == 64 * Bytes(n, d) && Bytes(n, d) > 0
  {
    if n > 0 {
      BytesDirect(n - 1, d);
    } else if d > 0 {
      BytesDirect(0, d - 1);
    }
  }

  lemma {:induction false} MoreBytes(n: nat, n': nat, d: nat)
    requires n <= n'
    ensures Bytes(n, d) <= Bytes(n', d)
  {
    if n < n' {
      MoreBytes(n, n' - 1, d);
      BytesDirect(n' - 1, d);
    }
  }

  /** If more bits are too cheap for 20 bytes, so are fewer. */
  lemma {:induction false} Cheaper(m: nat, d: nat, m': nat, d': nat)
    requires m <= m' && d <= d' && Cost(m', d') < Bytes(20, d')
    ensures Cost(m, d) < Bytes(20, d)
    decreases m' - m, d' - d
  {
    CostDirect(m, d);
    BytesDirect(20, d);
    if m < m' {
      Cheaper(m + 1, d, m', d');
    } else if d < d' {
      Cheaper(m, d + 1, m', d');
    }
  }

  lemma DearestWithDirect()
    ensures Cost(22, 26) == 111938150553262328010501010081926652881849553713901862139124572194597485240852357851683594716569
  {
    assert Cost(0, 2) == 16641;
    assert Cost(0, 4) == 276922881;
    assert Cost(0, 6) == 4608273662721;
    assert Cost(0, 8) == 76686282021340161;
    assert Cost(0, 10) == 1276136419117121619201;
    assert Cost(0, 12) == 21236186150528020865123841;
    assert Cost(0, 14) == 353391373730936795216525838081;
    assert Cost(0, 16) == 5880785850256519209198206471505921;
    assert Cost(0, 18) == 97862157334118736160267353892330031361;
    assert Cost(0, 20) == 1628524160197069888443009036122264051878401;
    assert Cost(0, 22) == 27100270549839440013580113370110596087308471041;
    assert Cost(0, 24) == 450975602219878121265986666592010429488900266593281;
    assert Cost(0, 26) == 7504684996540991815987284118757645557124789336378789121;
    assert Cost(2, 26) == 33688530949472512261966918409103070905933179331004384364169;
    assert Cost(4, 26) == 151227815432182107543969496738463685296734042016878681410754641;
    assert Cost(6, 26) == 678861663475065480764879070858963483297039114613768400852877583449;
    assert Cost(8, 26) == 3047410007339568943153542149085887076520408585501206351428567472102561;
    assert Cost(10, 26) == 13679823522947324985816250707246547086500114140314915311562839382268396329;
    assert Cost(12, 26) == 61408727794510541861329149424829749871299012375873654833605585987002831120881;
    assert Cost(14, 26) == 275663779069557822415506551768060747172261266555296836548055475495655708901634809;
    assert Cost(16, 26) == 1237454704243245064823208910886824694056280825566727499264221029499998477259438657601;
    assert Cost(18, 26) == 5554934167347927095991384800970956051618644625969039744197088201425493164417620133970889;
    assert Cost(20, 26) == 24936099477224844733905326371558621715716095725975019411700728936199038815070696781395320721;
  }

  lemma DearestWithoutDirect()
    ensures Cost(23, 0) == 999356547346805156075552524294177648535563
  {
    assert Cost(2, 0) == 4489;
    assert Cost(4, 0) == 20151121;
    assert Cost(6, 0) == 90458382169;
    assert Cost(8, 0) == 406067677556641;
    assert Cost(10, 0) == 1822837804551761449;
    assert Cost(12, 0) == 8182718904632857144561;
    assert Cost(14, 0) == 36732225162896895721934329;
    assert Cost(16, 0) == 164890958756244164895763202881;
    assert Cost(18, 0) == 740195513856780056217081017732809;
    assert Cost(20, 0) == 3322737661703085672358476688602579601;
    assert Cost(22, 0) == 14915769363385151583217201855136979828889;
  }

  lemma TwentyBytes()
    ensures Bytes(20, 0) == 1461501637330902918203684832716283019655932542976
    ensures Bytes(20, 26) == 133499189745056880149688856635597007162669032647290798121690100488888732861290034376435130433536
  {
    assert Bytes(2, 0) == 65536;
    assert Bytes(4, 0) == 4294967296;
    assert Bytes(6, 0) == 281474976710656;
    assert Bytes(8, 0) == 18446744073709551616;
    assert Bytes(10, 0) == 1208925819614629174706176;
    assert Bytes(12, 0) == 79228162514264337593543950336;
    assert Bytes(14, 0) == 5192296858534827628530496329220096;
    assert Bytes(16, 0) == 340282366920938463463374607431768211456;
    assert Bytes(18, 0) == 22300745198530623141535718272648361505980416;
    assert Bytes(0, 2) == 4096;
    assert Bytes(0, 4) == 16777216;
    assert Bytes(0, 6) == 68719476736;
    assert Bytes(0, 8) == 281474976710656;
    assert Bytes(0, 10) == 1152921504606846976;
    assert Bytes(0, 12) == 4722366482869645213696;
    assert Bytes(0, 14) == 19342813113834066795298816;
    assert Bytes(0, 16) == 79228162514264337593543950336;
    assert Bytes(0, 18) == 324518553658426726783156020576256;
    assert Bytes(0, 20) == 1329227995784915872903807060280344576;
    assert Bytes(0, 22) == 5444517870735015415413993718908291383296;
    assert Bytes(0, 24) == 22300745198530623141535718272648361505980416;
    assert Bytes(0, 26) == 91343852333181432387730302044767688728495783936;
    assert Bytes(2, 26) == 5986310706507378352962293074805895248510699696029696;
    assert Bytes(4, 26) == 392318858461667547739736838950479151006397215279002157056;
    assert Bytes(6, 26) == 25711008708143844408671393477458601640355247900524685364822016;
    assert Bytes(8, 26) == 1684996666696914987166688442938726917102321526408785780068975640576;
    assert Bytes(10, 26) == 110427941548649020598956093796432407239217743554726184882600387580788736;
    assert Bytes(12, 26) == 7237005577332262213973186563042994240829374041602535252466099000494570602496;
    assert Bytes(14, 26) == 474284397516047136454946754595585670566993857190463750305618264096412179005177856;
    assert Bytes(16, 26) == 31082702275611665134711390509176302506278509424834232340028998555822468563283335970816;
    assert Bytes(18, 26) == 2037035976334486086268445688409378161051468393665936250636140449354381299763336706183397376;
  }

  /** The dearest symbol costs less than 20 bytes buy. */
  lemma CostCeiling(m: nat, d: nat)
    requires Affordable(m, d)
    ensures Cost(m, d) < Bytes(20, d)
  {
    DearestWithDirect();
    DearestWithoutDirect();
    TwentyBytes();
    Cheaper(m, d, if d == 0 then 23 else 22, if d == 0 then 0 else 26);
  }

  /** The range left times the cost of the bits covers the bytes read from range `r0`. */
  ghost predicate Covered(r0: nat, r: nat, n: nat, m: nat, d: nat) {
    Times(r, Cost(m, d)) >= Times(r0, Bytes(n, d))
  }

  lemma CoverByte(r0: nat, r: nat, n: nat, m: nat, d: nat)
    requires Covered(r0, r, n, m, d)
    ensures Covered(r0, r * 256, n + 1, m, d)
  {
    ScaleLeft(256, r, Cost(m, d));
    ScaleRight(256, r0, Bytes(n, d));
  }

  lemma CoverModelled(r0: nat, r: nat, r': nat, n: nat, m: nat, d: nat)
    requires Covered(r0, r, n, m, d) && r' * 67 >= r
    ensures Covered(r0, r', n, m + 1, d)
  {
    ScaleLeft(67, r', Cost(m, d));
    ScaleRight(67, r', Cost(m, d));
    TimesMonotone(r, r' * 67, Cost(m, d));
  }

  lemma CoverDirect(r0: nat, r: nat, r': nat, n: nat, m: nat, d: nat)
    requires Covered(r0, r, n, m, d) && r' * 129 >= r * 64
    ensures Covered(r0, r', n, m, d + 1)
  {
    var c := Cost(m, d);
    CostDirect(m, d);
    BytesDirect(n, d);
    ScaleLeft(129, r', c);
    ScaleRight(129, r', c);
    ScaleLeft(64, r, c);
    ScaleRight(64, r0, Bytes(n, d));
    TimesMonotone(r * 64, r' * 129, c);
  }

  lemma CoverStart(r: nat)
    ensures Covered(r, r, 0, 0, 0)
  {
  }

  /** What one bit does to range and position, in numbers only. */
  ghost predicate BitCost(s: Rc, u: Rc, direct: bool) {
    var r := if s.range < TOP then s.range * 256 else s.range;
    && u.pos == s.pos + (if s.range < TOP then 1 else 0)
    && u.range * 67 >= r
    && (direct ==> u.range * 129 >= r * 64)
  }

  lemma LastBit(origin: Rc, input: seq<byte>, bits: Bits)
    requires ValidRc(origin) && origin.range * 67 >= TOP && bits.Then?
    requires Replay(origin, input, bits).Some?
    ensures Replay(origin, input, bits.prev).Some?
    ensures BitCost(Replay(origin, input, bits.prev).value, Replay(origin, input, bits).value, bits.last.Direct?)
  {
    var s := Replay(origin, input, bits.prev).value;
    ReplayValid(origin, input, bits.prev);
    NormalizeValid(s, input);
    NarrowValid(Normalize(s, input), bits.last);
  }

  /** The ledger between two states that are `m` modelled and `d` direct bits apart. */
  ghost predicate Balanced(a: Rc, b: Rc, m: int, d: int) {
    0 <= m && 0 <= d && a.pos <= b.pos && Covered(a.range, b.range, b.pos - a.pos, m, d)
  }

  lemma BalancedStep(a: Rc, s: Rc, u: Rc, m: int, d: int, direct: bool)
    requires Balanced(a, s, m, d) && BitCost(s, u, direct)
    ensures Balanced(a, u, if direct then m else m + 1, if direct then d + 1 else d)
  {
    var w, n := if s.range < TOP then s.range * 256 else s.range, u.pos - a.pos;
    if s.range < TOP {
      CoverByte(a.range, s.range, n - 1, m, d);
    }
    if direct {
      CoverDirect(a.range, w, u.range, n, m, d);
    } else {
      CoverModelled(a.range, w, u.range, n, m, d);
    }
  }

  /** The decoder's ledger is kept by every bit after `mark`. */
  lemma {:induction false} Ledger(origin: Rc, input: seq<byte>, mark: Bits, bits: Bits)
      returns (a: Rc, b: Rc)
    requires ValidRc(origin) && origin.range * 67 >= TOP
    requires Extends(mark, bits) && Replay(origin, input, bits).Some?
    ensures Replay(origin, input, mark) == Some(a) && Replay(origin, input, bits) == Some(b)
    ensures a.range * 67 >= TOP
    ensures Balanced(a, b, ModelledCount(bits) - ModelledCount(mark), DirectCount(bits) - DirectCount(mark))
  {
    hide Narrow, Normalize, NextBit, Covered;
    if mark == bits {
      ReplayValid(origin, input, mark);
      a := Replay(origin, input, mark).value;
      b := a;
      CoverStart(a.range);
    } else {
      var s;
      a, s := Ledger(origin, input, mark, bits.prev);
      LastBit(origin, input, bits);
      b := Replay(origin, input, bits).value;
      BalancedStep(a, s, b, ModelledCount(bits.prev) - ModelledCount(mark),
                   DirectCount(bits.prev) - DirectCount(mark), bits.last.Direct?);
    }
  }

  /** A state whose range has run low has read at most 19 bytes. */
  lemma BalancedReads(a: Rc, b: Rc, m: int, d: int)
    requires a.range * 67 >= TOP > b.range && Affordable(m + 1, d) && Balanced(a, b, m, d)
    ensures b.pos - a.pos <= 19
  {
    var n := b.pos - a.pos;
    if n > 19 {
      var c := Cost(m, d);
      CostDirect(m, d);
      CostCeiling(m + 1, d);
      MoreBytes(20, n, d);
      TimesMonotone(67 * c, Bytes(n, d), a.range);
      ScaleRight(67, a.range, c);
      ScaleLeft(67, a.range, c);
      TimesMonotone(b.range + 1, a.range * 67, c);
      assert false;
    }
  }

  /** Before a bit that needs another input byte, at most 19 were read since `mark`. */
  lemma ReadBudget(origin: Rc, input: seq<byte>, mark: Bits, bits: Bits)
    requires ValidRc(origin) && origin.range * 67 >= TOP
    requires Extends(mark, bits) && Replay(origin, input, bits).Some?
    requires Replay(origin, input, bits).value.range < TOP
    requires Affordable(ModelledCount(bits) - ModelledCount(mark) + 1, DirectCount(bits) - DirectCount(mark))
    ensures Replay(origin, input, mark).Some?
    ensures Replay(origin, input, bits).value.pos - Replay(origin, input, mark).value.pos <= 19
  {
    hide Narrow, Normalize, NextBit, Covered, CanNormalize, Applicable;
    var a, b := Ledger(origin, input, mark, bits);
    BalancedReads(a, b, ModelledCount(bits) - ModelledCount(mark), DirectCount(bits) - DirectCount(mark));
  }

  /**
   One LZMA symbol reads at most 20 bytes: whatever bits are decoded after `mark`, if they
   are as many as a symbol has (and end in a modelled one), at most 20 bytes were read.
   */
  lemma {:induction false} SymbolBudget(origin: Rc, input: seq<byte>, mark: Bits, bits: Bits)
    requires ValidRc(origin) && origin.range * 67 >= TOP
    requires Extends(mark, bits) && Replay(origin, input, bits).Some?
    requires mark == bits ||
             Affordable(ModelledCount(bits) - ModelledCount(mark) + (if bits.last.Direct? then 1 else 0),
                        DirectCount(bits) - DirectCount(mark))
    ensures Replay(origin, input, mark).Some?
    ensures 0 <= Replay(origin, input, bits).value.pos - Replay(origin, input, mark).value.pos <= 20
  {
    hide Narrow, Normalize, NextBit, Covered;
    if mark != bits {
      LastBit(origin, input, bits);
      var _, s := Ledger(origin, input, mark, bits.prev);
      if s.range < TOP {
        ReadBudget(origin, input, mark, bits.prev);
      } else {
        SymbolBudget(origin, input, mark, bits.prev);
      }
    }
  }

  // ----- decoding inverts encoding -----

  /** An encoder in exact arithmetic: the interval [low, low + range) after `shifts` bytes. */
  datatype Interval = Interval(low: nat, range: nat, shifts: nat, probs: seq<nat>)

  function Widen(e: Interval): Interval {
    if e.range < TOP then e.(low := e.low * 256, range := e.range * 256, shifts := e.shifts + 1) else e
  }

  predicate Encodable(probs: seq<nat>, d: Decision) {
    d.Modelled? ==> d.ctx < |probs| && PROB_MIN <= probs[d.ctx] <= PROB_MAX
  }

  /** The sub-interval that stands for the bit of `d`. */
  function Choose(e: Interval, d: Decision): Interval
    requires Encodable(e.probs, d)
  {
    match d
    case Modelled(ctx, bit) =>
      var bound := Bound(e.range, e.probs[ctx]);
      BoundFits(e.range, e.probs[ctx]);
      e.(low := if bit then e.low + bound else e.low,
         range := if bit then e.range - bound else bound,
         probs := e.probs[ctx := Adapt(e.probs[ctx], bit)])
    case Direct(bit) =>
      e.(low := if bit then e.low + e.range / 2 else e.low, range := e.range / 2)
  }

  function Encode(e: Interval, bits: Bits): Option<Interval> {
    match bits
    case Start => Some(e)
    case Then(prev, d) =>
      match Encode(e, prev)
      case None => None
      case Some(f) => if Encodable(f.probs, d) then Some(Choose(Widen(f), d)) else None
  }

  /** The number the first bytes of a stream spell, `rc.code` being the leading word. */
  function StreamValue(rc: Rc, input: seq<byte>, n: nat): nat
    requires rc.pos + n <= |input|
  {
    if n == 0 then rc.code else StreamValue(rc, input, n - 1) * 256 + input[rc.pos + n - 1]
  }

  ghost predicate Within(e: Interval, v: nat) {
    e.low <= v < e.low + e.range
  }

  /** Narrowing the encoder's interval and the decoder's state by the same bit. */
  lemma StepAgrees(s: Rc, f: Interval, v: nat, d: Decision)
    requires ValidRc(s) && s.range >= TOP && Encodable(f.probs, d)
    requires s.range == f.range && s.probs == f.probs && s.code == v - f.low
    requires Within(Choose(f, d), v)
    ensures Within(f, v)
    ensures Applicable(s, d) && NextBit(s, d) == d.bit
    ensures var t, g := Narrow(s, d), Choose(f, d);
            t.range == g.range && t.probs == g.probs && t.code == v - g.low
  {
    match d {
      case Modelled(ctx, _) => ModelledLoss(s.range, s.probs[ctx]);
      case Direct(bit) =>
        var half := s.range / 2;
        if bit {
          assert 0 <= s.code - half < half < SIGN_BIT;
        } else {
          assert s.code < half < SIGN_BIT;
          assert Difference(s) == s.code - half + WORD;
        }
    }
  }

  lemma ChooseShrinks(f: Interval, d: Decision)
    requires Encodable(f.probs, d)
    ensures f.low <= Choose(f, d).low && Choose(f, d).low + Choose(f, d).range <= f.low + f.range
    ensures Choose(f, d).shifts == f.shifts
  {
    if d.Modelled? {
      BoundFits(f.range, f.probs[d.ctx]);
    }
  }

  /** Decoder and encoder in step: the code is the stream's value minus the encoder's low. */
  ghost predicate InStep(rc: Rc, input: seq<byte>, s: Rc, e: Interval) {
    && rc.pos + e.shifts <= |input|
    && s.range == e.range && s.probs == e.probs && s.pos == rc.pos + e.shifts
    && s.code == StreamValue(rc, input, e.shifts) - e.low
  }

  lemma NormalizeInStep(rc: Rc, input: seq<byte>, s: Rc, f: Interval)
    requires ValidRc(s) && s.range * 67 >= TOP && InStep(rc, input, s, f)
    requires rc.pos + Widen(f).shifts <= |input|
    requires Within(Widen(f), StreamValue(rc, input, Widen(f).shifts))
    ensures CanNormalize(s, input) && InStep(rc, input, Normalize(s, input), Widen(f))
  {
    if s.range < TOP {
      var v := StreamValue(rc, input, f.shifts);
      assert StreamValue(rc, input, f.shifts + 1) == v * 256 + input[s.pos];
      assert 0 <= s.code * 256 + input[s.pos] < WORD;
    }
  }

  lemma WidenWithin(rc: Rc, input: seq<byte>, f: Interval)
    requires rc.pos + Widen(f).shifts <= |input|
    requires Within(Widen(f), StreamValue(rc, input, Widen(f).shifts))
    ensures Within(f, StreamValue(rc, input, f.shifts))
  {
  }

  /**
   If the stream's value lies in the interval an encoder reached for `bits`, then decoding
   the stream yields exactly `bits`, with the encoder's range, probabilities and byte count.
   */
  lemma {:induction false} DecodeInvertsEncode(rc: Rc, input: seq<byte>, bits: Bits)
    requires ValidRc(rc) && rc.range * 67 >= TOP
    requires var e := Encode(Interval(0, rc.range, 0, rc.probs), bits);
             e.Some? && rc.pos + e.value.shifts <= |input| &&
             Within(e.value, StreamValue(rc, input, e.value.shifts))
    ensures Replay(rc, input, bits).Some?
    ensures InStep(rc, input, Replay(rc, input, bits).value, Encode(Interval(0, rc.range, 0, rc.probs), bits).value)
  {
    match bits {
      case Start =>
      case Then(prev, d) =>
        var f := Encode(Interval(0, rc.range, 0, rc.probs), prev).value;
        ChooseShrinks(Widen(f), d);
        WidenWithin(rc, input, f);
        DecodeInvertsEncode(rc, input, prev);
        ReplayValid(rc, input, prev);
        var s := Replay(rc, input, prev).value;
        NormalizeInStep(rc, input, s, f);
        NormalizeValid(s, input);
        StepAgrees(Normalize(s, input), Widen(f), StreamValue(rc, input, Widen(f).shifts), d);
    }
  }
}
