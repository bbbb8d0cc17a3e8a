/** Signed LEB128 numbers: what they mean (section 7.6 of DWARF 5), an encoder, and the loop that reads them. */
module Sleb128 {
  import opened BitArithmetic

  /** A value and the bytes behind it. */
  datatype Number = Number(value: int, rest: seq<byte>)

  /** The number at the head of `s`, unbounded; bytes missing at the end count as zero. */
  function Sleb(s: seq<byte>): Number {
    if s == [] then Number(0, [])
    else if s[0] < 128 then Number(if s[0] < 64 then s[0] else s[0] as int - 128, s[1..])
    else var high := Sleb(s[1..]); Number(s[0] as int - 128 + 128 * high.value, high.rest)
  }

  function Encode(v: int): (s: seq<byte>)
    ensures |s| > 0
    decreases if v < 0 then -v else v
  {
    if -64 <= v < 64 then [v % 128] else [v % 128 + 128] + Encode(v / 128)
  }

  lemma {:induction false} RoundTrip(v: int, rest: seq<byte>)
    ensures Sleb(Encode(v) + rest) == Number(v, rest)
    decreases if v < 0 then -v else v
  {
    var s := Encode(v) + rest;
    if -64 <= v < 64 {
      assert s[1..] == rest;
    } else {
      assert s[1..] == Encode(v / 128) + rest;
      RoundTrip(v / 128, rest);
    }
  }

  /** The low seven bits of the first n bytes, lowest first. */
  function Weighed(s: seq<byte>, n: nat): nat
    requires n <= |s|
  {
    if n == 0 then 0 else Weighed(s, n - 1) + Pow2(7 * n - 7) * (s[n - 1] % 128)
  }

  lemma {:induction false} WeighedFront(s: seq<byte>, n: nat)
    requires 0 < n <= |s|
    ensures Weighed(s, n) == s[0] % 128 + 128 * Weighed(s[1..], n - 1)
    decreases n
  {
    hide Pow2;
    if n == 1 {
      assert Weighed(s, 0) == 0 && Weighed(s[1..], 0) == 0;
      OneUnit();
    } else {
      WeighedFront(s, n - 1);
      Sevenfold(7 * n - 14, s[n - 1] % 128);
    }
  }

  lemma OneUnit()
    ensures Pow2(0) == 1
  {
  }

  lemma Sevenfold(k: nat, c: nat)
    ensures Pow2(k + 7) == 128 * Pow2(k) && Pow2(k + 7) * c == 128 * (Pow2(k) * c)
  {
    hide Pow2;
    Pow2Adds(k, 7);
    SevenBits();
    Regroup128(Pow2(k), c);
  }

  lemma SevenBits()
    ensures Pow2(7) == 128
  {
  }

  lemma Regroup128(p: nat, c: nat)
    ensures (128 * p) * c == 128 * (p * c)
  {
  }

  /** A number of n bytes is the value of their low seven bits, less 2^(7n) if bit 6 of the last is set. */
  lemma {:induction false} SlebTold(s: seq<byte>, n: nat)
    requires 0 < n <= |s| && s[n - 1] < 128 && forall i :: 0 <= i < n - 1 ==> s[i] >= 128
    ensures Sleb(s) == Number(Weighed(s, n) - (if s[n - 1] >= 64 then Pow2(7 * n) else 0), s[n..])
    decreases n
  {
    hide Pow2, Weighed;
    WeighedFront(s, n);
    if n == 1 {
      SevenBits();
      NothingWeighed(s[1..]);
    } else {
      SlebTold(s[1..], n - 1);
      assert s[1..][n - 1..] == s[n..];
      Sevenfold(7 * n - 7, 1);
    }
  }

  /** A number that the input ends in has no sign. */
  lemma {:induction false} CutOffTold(s: seq<byte>)
    requires forall i :: 0 <= i < |s| ==> s[i] >= 128
    ensures Sleb(s) == Number(Weighed(s, |s|), [])
  {
    hide Pow2, Weighed;
    if s == [] {
      NothingWeighed(s);
    } else {
      WeighedFront(s, |s|);
      CutOffTold(s[1..]);
    }
  }

  lemma NothingWeighed(s: seq<byte>)
    ensures Weighed(s, 0) == 0
  {
  }

  lemma SignedWrap(v: i64)
    ensures Signed(Wrap64(v)) == v
  {
  }

  lemma WrapSigned(w: u64)
    ensures Wrap64(Signed(w)) == w
  {
  }

  lemma {:induction false} Consumes(s: seq<byte>)
    ensures |Sleb(s).rest| <= |s| && Sleb(s).rest == s[|s| - |Sleb(s).rest|..]
    ensures s != [] ==> |Sleb(s).rest| < |s|
  {
    if s != [] && s[0] >= 128 {
      Consumes(s[1..]);
    }
  }

  lemma Pow2Of64()
    ensures Pow2(64) == WORD64 && Pow2(63) == HALF64
  {
    assert Pow2(4) == 16;
    Pow2Adds(4, 4);
    Pow2Adds(8, 8);
    Pow2Adds(16, 16);
    Pow2Adds(32, 32);
  }

  lemma WrapIsTruncate(v: nat)
    ensures Wrap64(v) == Truncate(v, 64)
  {
    Pow2Of64();
    var high := TruncateRest(v, 64);
  }

  /** `v << k` on a 64-bit word. */
  function Shl(v: nat, k: nat): u64 {
    Wrap64(Pow2(k) * v)
  }

  /** Or-ing bits above those accumulated so far is an addition modulo 2^64. */
  lemma OrBits(acc: nat, bits: nat, shift: nat)
    requires acc < Pow2(shift)
    ensures BitOr(Wrap64(acc), Shl(bits, shift)) == Wrap64(acc + Pow2(shift) * bits)
  {
    hide Wrap64, Pow2, BitOr, Truncate;
    WrapIsTruncate(acc);
    WrapIsTruncate(Pow2(shift) * bits);
    WrapIsTruncate(acc + Pow2(shift) * bits);
    TruncateOr(acc, Pow2(shift) * bits, 64);
    OrIsPlus(acc, shift, bits);
  }

  /** Or-ing in the sign bits from `shift` up subtracts 2^shift, modulo 2^64. */
  lemma OrSign(acc: nat, shift: nat)
    requires acc < Pow2(shift) && shift < 64
    ensures BitOr(Wrap64(acc), Wrap64(0 - Pow2(shift))) == Wrap64(acc - Pow2(shift))
  {
    hide Pow2, BitOr, Wrap64;
    Pow2Of64();
    Pow2Monotone(shift, 63);
    Pow2Adds(shift, 64 - shift);
    SignBits(acc, Pow2(shift), Pow2(64 - shift));
    OrIsPlus(acc, shift, Pow2(64 - shift) - 1);
  }

  lemma SignBits(acc: nat, p: nat, q: nat)
    requires acc < p <= HALF64 && p * q == WORD64
    ensures q > 0 && Wrap64(acc) == acc && Wrap64(0 - p) == p * (q - 1) && Wrap64(acc - p) == acc + p * (q - 1)
  {
    OneLess(p, q);
  }

  lemma OneLess(p: nat, q: nat)
    ensures p * (q - 1) == p * q - p
  {
  }

  /** Reads the number at position p: the value of its bytes, as a signed 64-bit word. */
  method ReadSleb128(data: seq<byte>, p: nat) returns (value: i64, next: nat)
    requires p <= |data|
    ensures p <= next <= |data| && data[next..] == Sleb(data[p..]).rest
    ensures value == Signed(Wrap64(Sleb(data[p..]).value))
  {
    hide Pow2, Wrap64, BitOr, Shl;
    StartBits(Sleb(data[p..]).value);
    var word: u64, shift: nat := 0, 0;
    ghost var acc: nat := 0;
    next := p;
    while true
      invariant p <= next <= |data| && acc < Pow2(shift) && word == Wrap64(acc)
      invariant Sleb(data[p..]) == Number(acc + Pow2(shift) * Sleb(data[next..]).value, Sleb(data[next..]).rest)
      decreases |data| - next
    {
      if next >= |data| {
        return Signed(word), next;
      }
      var b: int := data[next];
      assert data[next..][1..] == data[next + 1..];
      next := next + 1;
      OrBits(acc, b % 128, shift);
      word := BitOr(word, Shl(b % 128, shift));
      MoreBits(acc, shift, b % 128);
      ghost var was, wasShift := acc, shift;
      acc := acc + Pow2(shift) * (b % 128);
      shift := shift + 7;
      if b < 128 {
        LastBits(was, wasShift, b);
        if shift >= 64 {
          SignBeyond(acc, shift);
        }
        if shift < 64 && b >= 64 {
          OrSign(acc, shift);
          word := BitOr(word, Wrap64(0 - Pow2(shift)));
        }
        return Signed(word), next;
      }
      FurtherBits(was, wasShift, b % 128, Sleb(data[next..]).value);
    }
  }

  lemma StartBits(value: int)
    ensures Pow2(0) == 1 && Wrap64(0) == 0 && value == 0 + Pow2(0) * value
  {
  }

  lemma MoreBits(acc: nat, shift: nat, bits: nat)
    requires acc < Pow2(shift) && bits < 128
    ensures acc + Pow2(shift) * bits < Pow2(shift + 7) == 128 * Pow2(shift)
  {
    Pow2Adds(shift, 7);
    assert Pow2(7) == 128;
    assert Pow2(shift) * bits <= Pow2(shift) * 127;
  }

  lemma FurtherBits(acc: nat, shift: nat, bits: nat, rest: int)
    ensures acc + Pow2(shift) * (bits + 128 * rest) == acc + Pow2(shift) * bits + Pow2(shift + 7) * rest
  {
    Pow2Adds(shift, 7);
    assert Pow2(7) == 128;
  }

  lemma LastBits(acc: nat, shift: nat, b: nat)
    requires b < 128
    ensures var signed := if b < 64 then b else b - 128;
            var whole := acc + Pow2(shift) * b;
            acc + Pow2(shift) * signed == (if b < 64 then whole else whole - Pow2(shift + 7))
  {
    Pow2Adds(shift, 7);
    assert Pow2(7) == 128;
    hide Pow2;
  }

  /** From bit 64 up a sign makes no difference. */
  lemma SignBeyond(v: int, n: nat)
    requires n >= 64
    ensures Wrap64(v - Pow2(n)) == Wrap64(v)
  {
    hide Pow2, Wrap64;
    Pow2Adds(64, n - 64);
    Pow2Of64();
    WrapMultiple(v, Pow2(n - 64));
  }

  lemma WrapMultiple(v: int, k: nat)
    ensures Wrap64(v - WORD64 * k) == Wrap64(v)
  {
  }
}
