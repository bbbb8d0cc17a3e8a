/**
 Finding a dynamic symbol by name: the hash tables of a module, the chain walks of the linker and
 of the ELF parser, and the linear scan that they stand for.
 */
module SymbolLookup {
  import opened BitArithmetic
  import opened Options
  import opened SymbolHash

  datatype Symbol = Symbol(name: Name, defined: bool, value: nat)

  predicate Matches(s: Symbol, name: Name, definedOnly: bool) {
    s.name == name && (definedOnly ==> s.defined)
  }

  /** The reference: the first symbol from `from` on that matches. */
  function Scan(syms: seq<Symbol>, from: nat, name: Name, definedOnly: bool): (found: Option<nat>)
    ensures found.Some? ==> from <= found.value < |syms| && Matches(syms[found.value], name, definedOnly)
    decreases |syms| - from
  {
    if from >= |syms| then None
    else if Matches(syms[from], name, definedOnly) then Some(from)
    else Scan(syms, from + 1, name, definedOnly)
  }

  /** What a scan finds has the name, is defined if that is asked for, and is the first such; else there is none. */
  lemma {:induction false} ScanTold(syms: seq<Symbol>, from: nat, name: Name, definedOnly: bool, i: nat)
    requires from <= i < |syms| && syms[i].name == name && (syms[i].defined || !definedOnly)
    ensures var found := Scan(syms, from, name, definedOnly);
            found.Some? && from <= found.value <= i && syms[found.value].name == name &&
            (definedOnly ==> syms[found.value].defined)
    decreases |syms| - from
  {
    if from < i {
      if !Matches(syms[from], name, definedOnly) {
        ScanTold(syms, from + 1, name, definedOnly, i);
      }
    }
  }

  ghost predicate NoMatch(syms: seq<Symbol>, lo: nat, hi: nat, name: Name, definedOnly: bool) {
    forall i :: lo <= i < hi && i < |syms| ==> !Matches(syms[i], name, definedOnly)
  }

  lemma {:induction false} ScanSkips(syms: seq<Symbol>, lo: nat, hi: nat, name: Name, definedOnly: bool)
    requires lo <= hi && NoMatch(syms, lo, hi, name, definedOnly)
    ensures Scan(syms, lo, name, definedOnly) == Scan(syms, hi, name, definedOnly)
    decreases hi - lo
  {
    if lo < hi {
      ScanSkips(syms, lo + 1, hi, name, definedOnly);
    }
  }

  // ----- GNU hash tables -----

  datatype GnuTable = GnuTable(syms: seq<Symbol>, symndx: nat, bloom: seq<nat>, shift2: nat, buckets: seq<nat>,
      chain: seq<u32>)

  /** The two bits that a hash sets in its word of the Bloom filter. */
  function BloomMask(hash: u32, shift2: nat): nat {
    BitOr(Pow2(hash % 64), Pow2(ShiftRight(hash, shift2) % 64))
  }

  predicate Blooms(bloom: seq<nat>, shift2: nat, hash: u32)
    requires |bloom| > 0
  {
    var mask := BloomMask(hash, shift2);
    BitAnd(bloom[hash / 64 % |bloom|], mask) == mask
  }

  /** A name is let through exactly if two bits are set in its word: its hash modulo 64, and shifted, modulo 64. */
  lemma BloomsTold(bloom: seq<nat>, shift2: nat, hash: u32)
    requires |bloom| > 0
    ensures var word := bloom[hash / 64 % |bloom|];
            Blooms(bloom, shift2, hash) <==>
            BitOf(word, hash % 64) == 1 && BitOf(word, ShiftRight(hash, shift2) % 64) == 1
  {
    hide BitOf, BitAnd, BitOr, Pow2, ShiftRight;
    var word := bloom[hash / 64 % |bloom|];
    var i, j := hash % 64, ShiftRight(hash, shift2) % 64;
    var mask := BloomMask(hash, shift2);
    forall k: nat
      ensures BitOf(mask, k) == 1 <==> k == i || k == j
    {
      OrBit(Pow2(i), Pow2(j), k);
      OnlyBit(i, k);
      OnlyBit(j, k);
    }
    if BitAnd(word, mask) == mask {
      CoveredBit(word, mask, i);
      CoveredBit(word, mask, j);
    } else if BitOf(word, i) == 1 && BitOf(word, j) == 1 {
      AllCovered(word, mask);
    }
  }

  lemma {:induction false} OrBit(a: nat, b: nat, k: nat)
    ensures BitOf(BitOr(a, b), k) == 1 <==> BitOf(a, k) == 1 || BitOf(b, k) == 1
  {
    hide BitOr;
    OrHalves(a, b);
    if k > 0 {
      HalfFirst(BitOr(a, b), k - 1);
      HalfFirst(a, k - 1);
      HalfFirst(b, k - 1);
      OrBit(a / 2, b / 2, k - 1);
    }
  }

  lemma {:induction false} OnlyBit(i: nat, k: nat)
    ensures BitOf(Pow2(i), k) == 1 <==> k == i
  {
    if k > 0 {
      HalfFirst(Pow2(i), k - 1);
      if i > 0 {
        OnlyBit(i - 1, k - 1);
      } else {
        ShiftedOut(0, k - 1);
      }
    }
  }

  lemma {:induction false} CoveredBit(w: nat, m: nat, k: nat)
    requires BitAnd(w, m) == m && BitOf(m, k) == 1
    ensures BitOf(w, k) == 1
    decreases k
  {
    hide BitAnd;
    AndStep(w, m);
    if k > 0 {
      HalfFirst(w, k - 1);
      HalfFirst(m, k - 1);
      CoveredBit(w / 2, m / 2, k - 1);
    }
  }

  lemma {:induction false} AllCovered(w: nat, m: nat)
    requires forall k: nat :: BitOf(m, k) == 1 ==> BitOf(w, k) == 1
    ensures BitAnd(w, m) == m
    decreases m
  {
    if m > 0 {
      forall k: nat
        ensures BitOf(m / 2, k) == BitOf(m, k + 1) && BitOf(w / 2, k) == BitOf(w, k + 1)
      {
        HalfFirst(m, k);
        HalfFirst(w, k);
      }
      AllCovered(w / 2, m / 2);
      assert BitOf(m, 0) == m % 2 && BitOf(w, 0) == w % 2;
    }
  }

  function Bucket(t: GnuTable, i: nat): (b: nat)
    requires i < |t.syms| && |t.buckets| > 0
    ensures b < |t.buckets|
  {
    GnuHash(t.syms[i].name) % |t.buckets|
  }

  ghost predicate Sized(t: GnuTable) {
    && |t.buckets| > 0 && |t.bloom| > 0 && 1 <= t.symndx <= |t.syms| && |t.chain| == |t.syms| - t.symndx
  }

  /** Symbols of a bucket stand together. */
  ghost predicate Grouped(t: GnuTable)
    requires Sized(t)
  {
    forall i, j, k :: t.symndx <= i <= j <= k < |t.syms| && Bucket(t, i) == Bucket(t, k) ==>
      Bucket(t, j) == Bucket(t, i)
  }

  predicate Hashed(t: GnuTable, i: int) {
    t.symndx <= i < |t.syms|
  }

  /** The chain, indexed by symbol. */
  function Entry(t: GnuTable, i: int): u32
    requires |t.chain| == |t.syms| - t.symndx && Hashed(t, i)
  {
    t.chain[i - t.symndx]
  }

  /** Entry i of the chain holds the hash of symbol i, with the low bit set at the end of a bucket. */
  predicate ChainEntry(t: GnuTable, i: nat)
    requires |t.buckets| > 0 && |t.chain| == |t.syms| - t.symndx && Hashed(t, i)
  {
    var entry := Entry(t, i);
    && entry / 2 == GnuHash(t.syms[i].name) / 2
    && (entry % 2 == 1 <==> i + 1 == |t.syms| || Bucket(t, i + 1) != Bucket(t, i))
  }

  /** Symbols from symndx on are hashed: in the filter, in buckets that name their first symbol, in chains. */
  ghost predicate WellFormed(t: GnuTable) {
    && Sized(t) && Grouped(t)
    && (forall i :: Hashed(t, i) ==> ChainEntry(t, i) && Blooms(t.bloom, t.shift2, GnuHash(t.syms[i].name)))
    && (forall i :: Hashed(t, i) ==> 0 < t.buckets[Bucket(t, i)] <= i)
    && (forall b :: 0 <= b < |t.buckets| ==>
          t.buckets[b] == 0 || (Hashed(t, t.buckets[b]) && Bucket(t, t.buckets[b]) == b))
  }

  /** A table for "exit" alone, as a linker writes it. */
  lemma WrittenTable(first: Symbol, exit: Symbol)
    requires exit.name == [101, 120, 105, 116]
    ensures WellFormed(GnuTable([first, exit], 1, [BitOr(Pow2(63), Pow2(56))], 6, [1], [0x7C96_7E3F]))
  {
    hide GnuHash, BitOr, Pow2, Blooms;
    KnownNames();
    FilterOfExit();
    var t := GnuTable([first, exit], 1, [BitOr(Pow2(63), Pow2(56))], 6, [1], [0x7C96_7E3F]);
    assert GnuHash(t.syms[1].name) == 0x7C96_7E3F;
    assert forall i :: Hashed(t, i) ==> i == 1;
  }

  lemma FilterOfExit()
    ensures Blooms([BitOr(Pow2(63), Pow2(56))], 6, 0x7C96_7E3F)
  {
    hide BitOr, BitOf, Pow2, Blooms, ShiftRight;
    var word := BitOr(Pow2(63), Pow2(56));
    OrBit(Pow2(63), Pow2(56), 63);
    OrBit(Pow2(63), Pow2(56), 56);
    OnlyBit(63, 63);
    OnlyBit(56, 56);
    ShiftedSix();
    BloomsTold([word], 6, 0x7C96_7E3F);
  }

  lemma ShiftedSix()
    ensures ShiftRight(0x7C96_7E3F, 6) == 0x1F2_59F8
  {
    assert ShiftRight(0x7C96_7E3F, 3) == 0xF92_CFC7;
  }

  /** The Bloom filter never denies a name that is in the table. */
  lemma NoFalseNegative(t: GnuTable, name: Name, definedOnly: bool)
    requires WellFormed(t) && !Blooms(t.bloom, t.shift2, GnuHash(name))
    ensures Scan(t.syms, t.symndx, name, definedOnly) == None
  {
    hide Blooms, GnuHash, ChainEntry, Bucket, Grouped;
    assert NoMatch(t.syms, t.symndx, |t.syms|, name, definedOnly) by {
      forall i | Hashed(t, i)
        ensures !Matches(t.syms[i], name, definedOnly)
      {
      }
    }
    ScanSkips(t.syms, t.symndx, |t.syms|, name, definedOnly);
  }

  /** Symbols before the one a bucket names are in other buckets; an empty bucket has none. */
  lemma BeforeBucket(t: GnuTable, name: Name, definedOnly: bool)
    requires WellFormed(t)
    ensures var n := t.buckets[GnuHash(name) % |t.buckets|];
            NoMatch(t.syms, t.symndx, if n < t.symndx then |t.syms| else n, name, definedOnly)
  {
    hide Blooms, GnuHash, ChainEntry, Grouped, Bucket;
    forall i | Hashed(t, i) && t.syms[i].name == name
      ensures t.symndx <= t.buckets[GnuHash(name) % |t.buckets|] <= i
    {
      SameBucket(t, i, name);
    }
  }

  /** Behind the last symbol of a bucket there are none of it. */
  lemma BehindBucket(t: GnuTable, n: nat, name: Name, definedOnly: bool)
    requires WellFormed(t) && Hashed(t, n) && Bucket(t, n) == GnuHash(name) % |t.buckets| && Entry(t, n) % 2 == 1
    ensures NoMatch(t.syms, n + 1, |t.syms|, name, definedOnly)
  {
    hide Blooms, GnuHash, Bucket;
    assert ChainEntry(t, n);
    forall i | n + 1 <= i < |t.syms|
      ensures !Matches(t.syms[i], name, definedOnly)
    {
      RunEnds(t, n, i);
      SameBucket(t, i, name);
    }
  }

  lemma RunEnds(t: GnuTable, n: nat, i: nat)
    requires Sized(t) && Grouped(t) && Hashed(t, n) && n < i < |t.syms| && Bucket(t, n + 1) != Bucket(t, n)
    ensures Bucket(t, i) != Bucket(t, n)
  {
    hide Bucket;
  }

  lemma SameBucket(t: GnuTable, i: nat, name: Name)
    requires |t.buckets| > 0 && i < |t.syms|
    ensures t.syms[i].name == name ==> Bucket(t, i) == GnuHash(name) % |t.buckets|
  {
  }

  lemma ChainGoesOn(t: GnuTable, n: nat)
    requires WellFormed(t) && Hashed(t, n) && Entry(t, n) % 2 == 0
    ensures Hashed(t, n + 1) && Bucket(t, n + 1) == Bucket(t, n)
  {
    hide Blooms, GnuHash, Bucket, Grouped;
    assert ChainEntry(t, n);
  }

  lemma HashMismatch(t: GnuTable, n: nat, name: Name)
    requires WellFormed(t) && Hashed(t, n) && Entry(t, n) / 2 != GnuHash(name) / 2
    ensures t.syms[n].name != name
  {
    hide Blooms, GnuHash, Bucket, Grouped;
    assert ChainEntry(t, n);
  }

  /** The linker's lookup: the first defined symbol of that name. */
  method LinkerLookup(t: GnuTable, name: Name) returns (found: Option<nat>)
    requires WellFormed(t)
    ensures found == Scan(t.syms, t.symndx, name, true)
  {
    hide Blooms, GnuHash, ChainEntry, Grouped, BitOr, WellFormed, Bucket;
    Shape(t);
    var hash := LinkerGnuHash(name);
    if !Blooms(t.bloom, t.shift2, hash) {
      NoFalseNegative(t, name, true);
      return None;
    }
    var n := t.buckets[hash % |t.buckets|];
    BeforeBucket(t, name, true);
    BucketStarts(t, hash % |t.buckets|);
    if n < t.symndx {
      ScanSkips(t.syms, t.symndx, |t.syms|, name, true);
      return None;
    }
    while true
      invariant Hashed(t, n) && Bucket(t, n) == hash % |t.buckets| && NoMatch(t.syms, t.symndx, n, name, true)
      decreases |t.syms| - n
    {
      ChainComparisons(Entry(t, n), hash);
      if BitOr(Entry(t, n), 1) == BitOr(hash, 1) {
        if t.syms[n].defined && t.syms[n].name == name {
          ScanSkips(t.syms, t.symndx, n, name, true);
          return Some(n);
        }
      } else {
        HashMismatch(t, n, name);
      }
      if Entry(t, n) % 2 != 0 {
        BehindBucket(t, n, name, true);
        ScanSkips(t.syms, t.symndx, |t.syms|, name, true);
        return None;
      }
      ChainGoesOn(t, n);
      n := n + 1;
    }
  }

  lemma Shape(t: GnuTable)
    requires WellFormed(t)
    ensures Sized(t)
  {
  }

  lemma BucketStarts(t: GnuTable, b: nat)
    requires WellFormed(t) && b < |t.buckets|
    ensures t.buckets[b] >= t.symndx ==> Hashed(t, t.buckets[b]) && Bucket(t, t.buckets[b]) == b
  {
  }

  /** The ELF parser's lookup: the first symbol of that name, defined or not. */
  method ParserLookup(t: GnuTable, name: Name) returns (found: Option<nat>)
    requires WellFormed(t)
    ensures found == Scan(t.syms, t.symndx, name, false)
  {
    hide Blooms, GnuHash, ChainEntry, Grouped, BitXor, WellFormed, Bucket;
    Shape(t);
    var hash := ParserGnuHash(name);
    if !Blooms(t.bloom, t.shift2, hash) {
      NoFalseNegative(t, name, false);
      return None;
    }
    var n := t.buckets[hash % |t.buckets|];
    BeforeBucket(t, name, false);
    BucketStarts(t, hash % |t.buckets|);
    if n < t.symndx {
      ScanSkips(t.syms, t.symndx, |t.syms|, name, false);
      return None;
    }
    while true
      invariant Hashed(t, n) && Bucket(t, n) == hash % |t.buckets| && NoMatch(t.syms, t.symndx, n, name, false)
      decreases |t.syms| - n
    {
      var entry := Entry(t, n);
      ChainComparisons(entry, hash);
      if BitXor(entry, hash) / 2 == 0 {
        if t.syms[n].name == name {
          ScanSkips(t.syms, t.symndx, n, name, false);
          return Some(n);
        }
      } else {
        HashMismatch(t, n, name);
      }
      if entry % 2 != 0 {
        BehindBucket(t, n, name, false);
        ScanSkips(t.syms, t.symndx, |t.syms|, name, false);
        return None;
      }
      ChainGoesOn(t, n);
      n := n + 1;
    }
  }

  /** The two resolvers differ exactly on names whose first hashed symbol is undefined. */
  lemma {:induction false} ResolversAgree(syms: seq<Symbol>, from: nat, name: Name)
    ensures Scan(syms, from, name, true) == Scan(syms, from, name, false) <==>
            (Scan(syms, from, name, false).Some? ==> syms[Scan(syms, from, name, false).value].defined)
    decreases |syms| - from
  {
    if from < |syms| {
      ResolversAgree(syms, from + 1, name);
    }
  }

  /** The highest bucket, or the first hashed symbol: never lower than that, whatever the table holds. */
  method HighestBucket(symndx: nat, buckets: seq<nat>) returns (maxIdx: nat)
    ensures symndx <= maxIdx && (maxIdx == symndx || maxIdx in buckets)
    ensures forall b :: 0 <= b < |buckets| ==> buckets[b] <= maxIdx
  {
    maxIdx := symndx;
    for i := 0 to |buckets|
      invariant symndx <= maxIdx && (maxIdx == symndx || maxIdx in buckets)
      invariant forall b :: 0 <= b < i ==> buckets[b] <= maxIdx
    {
      if buckets[i] > maxIdx {
        maxIdx := buckets[i];
      }
    }
  }

  /**
   The number of dynamic symbols, from the highest bucket and its chain. Without a hashed symbol there is no
   chain, and the first entry read lies behind the table: no value stands for that.
   */
  method DynsymCount(t: GnuTable) returns (count: Option<nat>)
    requires WellFormed(t)
    ensures count == if t.symndx < |t.syms| then Some(|t.syms|) else None
  {
    hide Blooms, GnuHash, ChainEntry, Grouped, WellFormed, Bucket;
    var maxIdx := FirstEntryRead(t);
    if !Hashed(t, maxIdx) {
      return None;
    }
    Shape(t);
    var idx := maxIdx;
    while Entry(t, idx) % 2 == 0
      invariant maxIdx <= idx && Hashed(t, idx)
      decreases |t.syms| - idx
    {
      ChainGoesOn(t, idx);
      idx := idx + 1;
    }
    if idx + 1 < |t.syms| {
      LastBucket(t, maxIdx, idx);
      assert false;
    }
    count := Some(idx + 1);
  }

  /** Where the chain is read first: inside the table exactly if a symbol is hashed. */
  method FirstEntryRead(t: GnuTable) returns (idx: nat)
    requires WellFormed(t)
    ensures Hashed(t, idx) <==> t.symndx < |t.syms|
    ensures forall b :: 0 <= b < |t.buckets| ==> t.buckets[b] <= idx
  {
    hide Blooms, GnuHash, ChainEntry, Grouped, WellFormed, Bucket;
    Shape(t);
    idx := HighestBucket(t.symndx, t.buckets);
    if idx != t.symndx {
      ghost var i :| 0 <= i < |t.buckets| && t.buckets[i] == idx;
      BucketStarts(t, i);
    }
  }

  /** A table that hashes nothing: well formed, with one symbol, one empty bucket and no chain. */
  lemma NothingHashed(first: Symbol)
    ensures var t := GnuTable([first], 1, [0], 0, [0], []); WellFormed(t) && t.symndx == |t.syms| && t.chain == []
  {
    hide Blooms, GnuHash;
  }

  /** Where no bucket starts later, a chain ends only at the end of the table. */
  lemma LastBucket(t: GnuTable, from: nat, i: nat)
    requires WellFormed(t) && Hashed(t, from) && forall b :: 0 <= b < |t.buckets| ==> t.buckets[b] <= from
    requires from <= i < |t.syms| - 1
    ensures Entry(t, i) % 2 == 0
  {
    hide Blooms, GnuHash, Bucket, Grouped;
    assert ChainEntry(t, i);
    assert Hashed(t, i + 1);
    var start := t.buckets[Bucket(t, i + 1)];
    BucketStarts(t, Bucket(t, i + 1));
    Together(t, start, i, i + 1);
  }

  lemma Together(t: GnuTable, i: nat, j: nat, k: nat)
    requires WellFormed(t) && t.symndx <= i <= j <= k < |t.syms| && Bucket(t, i) == Bucket(t, k)
    ensures Bucket(t, j) == Bucket(t, i)
  {
    hide Bucket, ChainEntry, Blooms;
  }

  // ----- building a GNU hash table -----

  /** The first symbol of bucket b from `from` on, or 0. */
  function FirstIn(syms: seq<Symbol>, nbucket: nat, b: nat, from: nat): (n: nat)
    requires nbucket > 0
    ensures n == 0 || (from <= n < |syms| && GnuHash(syms[n].name) % nbucket == b)
    decreases |syms| - from
  {
    if from >= |syms| then 0
    else if GnuHash(syms[from].name) % nbucket == b then from
    else FirstIn(syms, nbucket, b, from + 1)
  }

  lemma {:induction false} FirstIsFirst(syms: seq<Symbol>, nbucket: nat, b: nat, from: nat, i: nat)
    requires nbucket > 0 && 0 < from <= i < |syms| && GnuHash(syms[i].name) % nbucket == b
    ensures 0 < FirstIn(syms, nbucket, b, from) <= i
    decreases |syms| - from
  {
    hide GnuHash;
    if GnuHash(syms[from].name) % nbucket != b {
      FirstIsFirst(syms, nbucket, b, from + 1, i);
    }
  }

  function AddBloom(bloom: seq<nat>, shift2: nat, hash: u32): (words: seq<nat>)
    requires |bloom| > 0
    ensures |words| == |bloom|
  {
    var i := hash / 64 % |bloom|;
    bloom[i := BitOr(bloom[i], BloomMask(hash, shift2))]
  }

  /** The filter of the symbols from `from` on. */
  function BuildBloom(syms: seq<Symbol>, from: nat, words: nat, shift2: nat): (bloom: seq<nat>)
    requires words > 0
    ensures |bloom| == words
    decreases |syms| - from
  {
    if from >= |syms| then seq(words, i => 0)
    else AddBloom(BuildBloom(syms, from + 1, words, shift2), shift2, GnuHash(syms[from].name))
  }

  lemma AddBloomKeeps(bloom: seq<nat>, shift2: nat, hash: u32, other: u32)
    requires |bloom| > 0
    ensures Blooms(AddBloom(bloom, shift2, hash), shift2, hash)
    ensures Blooms(bloom, shift2, other) ==> Blooms(AddBloom(bloom, shift2, hash), shift2, other)
  {
    hide BitOr, BitAnd, Pow2, ShiftRight;
    var i, j := hash / 64 % |bloom|, other / 64 % |bloom|;
    OrSets(bloom[i], BloomMask(hash, shift2));
    if Blooms(bloom, shift2, other) {
      OrKeeps(bloom[j], BloomMask(other, shift2), BloomMask(hash, shift2));
    }
  }

  lemma {:induction false} BuildBloomSets(syms: seq<Symbol>, from: nat, words: nat, shift2: nat, i: nat)
    requires words > 0 && from <= i < |syms|
    ensures Blooms(BuildBloom(syms, from, words, shift2), shift2, GnuHash(syms[i].name))
    decreases |syms| - from
  {
    hide Blooms, GnuHash, AddBloom;
    AddBloomKeeps(BuildBloom(syms, from + 1, words, shift2), shift2, GnuHash(syms[from].name), GnuHash(syms[i].name));
    if from < i {
      BuildBloomSets(syms, from + 1, words, shift2, i);
    }
  }

  function BuildEntry(syms: seq<Symbol>, nbucket: nat, i: nat): u32
    requires nbucket > 0 && i < |syms|
  {
    var hash := GnuHash(syms[i].name);
    var last := i + 1 == |syms| || GnuHash(syms[i + 1].name) % nbucket != hash % nbucket;
    hash / 2 * 2 + if last then 1 else 0
  }

  function Build(syms: seq<Symbol>, symndx: nat, nbucket: nat, words: nat, shift2: nat): GnuTable
    requires 1 <= symndx <= |syms| && nbucket > 0 && words > 0
  {
    GnuTable(syms, symndx, BuildBloom(syms, symndx, words, shift2), shift2,
             seq(nbucket, b requires 0 <= b < nbucket => FirstIn(syms, nbucket, b, symndx)),
             seq<u32>(|syms| - symndx, j requires 0 <= j < |syms| - symndx => BuildEntry(syms, nbucket, symndx + j)))
  }

  /** Symbols that stand together by bucket make a well-formed table, whatever their number or the table's sizes. */
  lemma BuildWellFormed(syms: seq<Symbol>, symndx: nat, nbucket: nat, words: nat, shift2: nat)
    requires 1 <= symndx <= |syms| && nbucket > 0 && words > 0 && Grouped(Build(syms, symndx, nbucket, words, shift2))
    ensures WellFormed(Build(syms, symndx, nbucket, words, shift2))
  {
    hide GnuHash, Blooms, FirstIn, BuildBloom, Grouped;
    var t := Build(syms, symndx, nbucket, words, shift2);
    forall i | Hashed(t, i)
      ensures ChainEntry(t, i) && Blooms(t.bloom, t.shift2, GnuHash(t.syms[i].name)) && 0 < t.buckets[Bucket(t, i)] <= i
    {
      BuildBloomSets(syms, symndx, words, shift2, i);
      FirstIsFirst(syms, nbucket, Bucket(t, i), symndx, i);
      BuildChain(syms, symndx, nbucket, words, shift2, i);
    }
  }

  lemma BuildChain(syms: seq<Symbol>, symndx: nat, nbucket: nat, words: nat, shift2: nat, i: nat)
    requires 1 <= symndx <= i < |syms| && nbucket > 0 && words > 0
    ensures ChainEntry(Build(syms, symndx, nbucket, words, shift2), i)
  {
    hide GnuHash, BuildBloom;
    var t := Build(syms, symndx, nbucket, words, shift2);
    assert Entry(t, i) == BuildEntry(syms, nbucket, i);
  }

  // ----- System V hash tables -----

  datatype SysvTable = SysvTable(syms: seq<Symbol>, buckets: seq<nat>, chain: seq<nat>)

  /** A chain, as the symbols it passes through up to 0. */
  ghost predicate IsChain(t: SysvTable, n: nat, path: seq<nat>)
    decreases |path|
  {
    if path == [] then n == 0
    else 0 < n == path[0] < |t.syms| && n < |t.chain| && IsChain(t, t.chain[n], path[1..])
  }

  /** Every symbol but the first is on the chain of its bucket. */
  ghost predicate SysvWellFormed(t: SysvTable, paths: seq<seq<nat>>) {
    && |paths| == |t.buckets| > 0
    && (forall b :: 0 <= b < |paths| ==> IsChain(t, t.buckets[b], paths[b]))
    && (forall i :: 0 < i < |t.syms| ==> i in paths[SysvHash(t.syms[i].name) % |paths|])
  }

  /** The first match along a chain. */
  function ScanPath(syms: seq<Symbol>, path: seq<nat>, name: Name, definedOnly: bool): (found: Option<nat>)
    requires forall k :: 0 <= k < |path| ==> path[k] < |syms|
    ensures found.Some? ==> found.value in path && Matches(syms[found.value], name, definedOnly)
    ensures found == None ==> forall k :: 0 <= k < |path| ==> !Matches(syms[path[k]], name, definedOnly)
  {
    if path == [] then None
    else if Matches(syms[path[0]], name, definedOnly) then Some(path[0])
    else ScanPath(syms, path[1..], name, definedOnly)
  }

  lemma {:induction false} ChainInTable(t: SysvTable, n: nat, path: seq<nat>)
    requires IsChain(t, n, path)
    ensures forall k :: 0 <= k < |path| ==> 0 < path[k] < |t.syms|
    decreases |path|
  {
    if path != [] {
      ChainInTable(t, t.chain[n], path[1..]);
      assert path == [path[0]] + path[1..];
    }
  }

  /** Follows a chain to a match. */
  method WalkChain(t: SysvTable, start: nat, ghost path: seq<nat>, name: Name,
      definedOnly: bool) returns (found: Option<nat>)
    requires IsChain(t, start, path)
    ensures forall k :: 0 <= k < |path| ==> 0 < path[k] < |t.syms|
    ensures found == ScanPath(t.syms, path, name, definedOnly)
  {
    ChainInTable(t, start, path);
    var n := start;
    ghost var rest: seq<nat> := path;
    while n != 0
      invariant IsChain(t, n, rest) && forall k :: 0 <= k < |rest| ==> rest[k] < |t.syms|
      invariant ScanPath(t.syms, path, name, definedOnly) == ScanPath(t.syms, rest, name, definedOnly)
      decreases |rest|
    {
      var s := t.syms[n];
      if (s.defined || !definedOnly) && s.name == name {
        return Some(n);
      }
      n := t.chain[n];
      rest := rest[1..];
    }
    return None;
  }

  /** Lookup by the System V table finds a symbol exactly when there is one, and the right one if it is unique. */
  method SysvLookup(t: SysvTable, ghost paths: seq<seq<nat>>, name: Name,
      definedOnly: bool) returns (found: Option<nat>)
    requires SysvWellFormed(t, paths)
    ensures found.Some? ==> 0 < found.value < |t.syms| && Matches(t.syms[found.value], name, definedOnly)
    ensures found == None <==> Scan(t.syms, 1, name, definedOnly) == None
    ensures (forall i, j :: 0 < i < j < |t.syms| && Matches(t.syms[i], name, definedOnly) ==>
               !Matches(t.syms[j], name, definedOnly)) ==>
              found == Scan(t.syms, 1, name, definedOnly)
  {
    hide SysvHash, Scan;
    var hash := LinkerSysvHash(name);
    var b := hash % |t.buckets|;
    ChainInTable(t, t.buckets[b], paths[b]);
    found := WalkChain(t, t.buckets[b], paths[b], name, definedOnly);
    if found == None {
      assert NoMatch(t.syms, 1, |t.syms|, name, definedOnly);
      ScanNothing(t.syms, 1, name, definedOnly);
    } else {
      ScanSomething(t.syms, 1, found.value, name, definedOnly);
    }
  }

  lemma ScanNothing(syms: seq<Symbol>, from: nat, name: Name, definedOnly: bool)
    requires NoMatch(syms, from, |syms|, name, definedOnly)
    ensures Scan(syms, from, name, definedOnly) == None
  {
    if from <= |syms| {
      ScanSkips(syms, from, |syms|, name, definedOnly);
    }
  }

  lemma {:induction false} ScanSomething(syms: seq<Symbol>, from: nat, i: nat, name: Name, definedOnly: bool)
    requires from <= i < |syms| && Matches(syms[i], name, definedOnly)
    ensures Scan(syms, from, name, definedOnly).Some? && Scan(syms, from, name, definedOnly).value <= i
    decreases i - from
  {
    if !Matches(syms[from], name, definedOnly) {
      ScanSomething(syms, from + 1, i, name, definedOnly);
    }
  }
}
