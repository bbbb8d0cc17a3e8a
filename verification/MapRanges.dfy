/** The address ranges of a loaded object: split around the part made read-only, then put in order without overlaps. */
module MapRanges {
  import opened Options

  datatype Prot = Prot(read: bool, write: bool, exec: bool)

  datatype Range = Range(start: nat, end: nat, prot: Prot)

  predicate In(r: Range, a: nat) {
    r.start <= a < r.end
  }

  /** The protection that the first range over an address gives it. */
  function Lookup(rs: seq<Range>, a: nat): Option<Prot> {
    if rs == [] then None
    else
      var earlier := Lookup(rs[..|rs| - 1], a);
      if earlier.Some? then earlier else if In(rs[|rs| - 1], a) then Some(rs[|rs| - 1].prot) else None
  }

  lemma {:induction false} LookupCovers(rs: seq<Range>, a: nat)
    ensures Lookup(rs, a).Some? <==> exists r :: r in rs && In(r, a)
    decreases |rs|
  {
    if rs != [] {
      var front, last := rs[..|rs| - 1], rs[|rs| - 1];
      LookupCovers(front, a);
      assert rs == front + [last];
      assert forall r :: r in rs <==> r in front || r == last;
    }
  }

  // ----- a segment and the part of it made read-only -----

  function Max(a: nat, b: nat): nat {
    if a < b then b else a
  }

  function Min(a: nat, b: nat): nat {
    if a < b then a else b
  }

  function Nonempty(r: Range): seq<Range> {
    if r.end <= r.start then [] else [r]
  }

  /** The ranges of a segment, without write permission where the pages are sealed after relocation. */
  function Split(segment: Range, relroStart: nat, relroEnd: nat): seq<Range> {
    var from, to := Max(segment.start, relroStart), Min(segment.end, relroEnd);
    if relroEnd <= relroStart || to <= from then Nonempty(segment)
    else
      Nonempty(Range(segment.start, from, segment.prot)) +
      Nonempty(Range(from, to, segment.prot.(write := false))) +
      Nonempty(Range(to, segment.end, segment.prot))
  }

  lemma LookupAppend(rs: seq<Range>, r: Range, a: nat)
    ensures Lookup(rs + [r], a)
            == if Lookup(rs, a).Some? then Lookup(rs, a) else if In(r, a) then Some(r.prot) else None
  {
    assert (rs + [r])[..|rs|] == rs;
  }

  lemma LookupNonempty(rs: seq<Range>, r: Range, a: nat)
    ensures Lookup(rs + Nonempty(r), a)
            == if Lookup(rs, a).Some? then Lookup(rs, a) else if In(r, a) then Some(r.prot) else None
  {
    if r.end <= r.start {
      assert rs + Nonempty(r) == rs;
    } else {
      LookupAppend(rs, r, a);
    }
  }

  /** Splitting changes nothing but the write permission of the sealed pages. */
  lemma SplitMeans(segment: Range, relroStart: nat, relroEnd: nat, a: nat)
    ensures Lookup(Split(segment, relroStart, relroEnd), a) ==
            if !In(segment, a) then None
            else Some(if relroStart <= a < relroEnd then segment.prot.(write := false) else segment.prot)
  {
    hide Lookup, Nonempty;
    var from, to := Max(segment.start, relroStart), Min(segment.end, relroEnd);
    LookupNothing(a);
    if relroEnd <= relroStart || to <= from {
      LookupNonempty([], segment, a);
      assert [] + Nonempty(segment) == Nonempty(segment);
    } else {
      var first, sealed := Range(segment.start, from, segment.prot), Range(from, to, segment.prot.(write := false));
      LookupNonempty([], first, a);
      assert [] + Nonempty(first) == Nonempty(first);
      LookupNonempty(Nonempty(first), sealed, a);
      LookupNonempty(Nonempty(first) + Nonempty(sealed), Range(to, segment.end, segment.prot), a);
    }
  }

  lemma LookupNothing(a: nat)
    ensures Lookup([], a) == None
  {
  }

  // ----- collecting the ranges of an object -----

  /** The ranges of all segments of an object, in order. */
  function Pieces(segments: seq<Range>, relroStart: nat, relroEnd: nat): seq<Range> {
    if segments == [] then []
    else
      Pieces(segments[..|segments| - 1], relroStart, relroEnd) + Split(segments[|segments| - 1], relroStart, relroEnd)
  }

  lemma {:induction false} LookupJoined(rs: seq<Range>, more: seq<Range>, a: nat)
    ensures Lookup(rs + more, a) == if Lookup(rs, a).Some? then Lookup(rs, a) else Lookup(more, a)
    decreases |more|
  {
    if more == [] {
      assert rs + more == rs;
    } else {
      var front := more[..|more| - 1];
      LookupJoined(rs, front, a);
      assert rs + more == rs + front + [more[|more| - 1]];
      LookupAppend(rs + front, more[|more| - 1], a);
    }
  }

  /** All pieces together give every address what the first segment over it does, but for sealed pages. */
  lemma {:induction false} PiecesMean(segments: seq<Range>, relroStart: nat, relroEnd: nat, a: nat)
    ensures Lookup(Pieces(segments, relroStart, relroEnd), a) ==
            match Lookup(segments, a)
            case None => None
            case Some(prot) => Some(if relroStart <= a < relroEnd then prot.(write := false) else prot)
    decreases |segments|
  {
    hide Split;
    if segments != [] {
      var front, last := segments[..|segments| - 1], segments[|segments| - 1];
      PiecesMean(front, relroStart, relroEnd, a);
      LookupJoined(Pieces(front, relroStart, relroEnd), Split(last, relroStart, relroEnd), a);
      SplitMeans(last, relroStart, relroEnd, a);
    }
  }

  const MAX_RANGES: nat := 64

  /** What the table of a scan has room for. */
  function Held(rs: seq<Range>): seq<Range> {
    rs[..Min(|rs|, MAX_RANGES)]
  }

  class LoadedObjectScan {
    const ranges: array<Range>
    var count: nat

    ghost predicate Valid()
      reads this
    {
      ranges.Length == MAX_RANGES && count <= MAX_RANGES
    }

    constructor ()
      ensures Valid() && count == 0
    {
      ranges := new Range[MAX_RANGES](_ => Range(0, 0, Prot(false, false, false)));
      count := 0;
    }

    /** Adds a range unless it is empty or the table is full. */
    method AddLoadedRange(r: Range)
      requires Valid()
      modifies this`count, ranges
      ensures Valid() && ranges[..count] == Held(old(ranges[..count]) + Nonempty(r))
    {
      if count >= ranges.Length || r.end <= r.start {
        assert Held(ranges[..count] + Nonempty(r)) == ranges[..count];
        return;
      }
      ranges[count] := r;
      count := count + 1;
    }

    /** Adds the pieces of a segment. */
    method AddSegment(segment: Range, relroStart: nat, relroEnd: nat)
      requires Valid()
      modifies this`count, ranges
      ensures Valid() && ranges[..count] == Held(old(ranges[..count]) + Split(segment, relroStart, relroEnd))
    {
      hide Held, Nonempty;
      var from, to := Max(segment.start, relroStart), Min(segment.end, relroEnd);
      if relroEnd <= relroStart || to <= from {
        AddLoadedRange(segment);
        return;
      }
      ghost var before := ranges[..count];
      var first, sealed := Range(segment.start, from, segment.prot), Range(from, to, segment.prot.(write := false));
      var last := Range(to, segment.end, segment.prot);
      AddLoadedRange(first);
      AddLoadedRange(sealed);
      HeldAgain(before, Nonempty(first), Nonempty(sealed));
      AddLoadedRange(last);
      HeldAgain(before, Nonempty(first) + Nonempty(sealed), Nonempty(last));
    }

    /** Collects the pieces of all segments, as many as there is room for. */
    method Collect(segments: seq<Range>, relroStart: nat, relroEnd: nat)
      requires Valid() && count == 0
      modifies this`count, ranges
      ensures Valid() && ranges[..count] == Held(Pieces(segments, relroStart, relroEnd))
    {
      hide Split, Held;
      HeldNothing();
      for i := 0 to |segments|
        invariant Valid() && ranges[..count] == Held(Pieces(segments[..i], relroStart, relroEnd))
      {
        AddSegment(segments[i], relroStart, relroEnd);
        assert segments[..i + 1][..i] == segments[..i];
        HeldAgain([], Pieces(segments[..i], relroStart, relroEnd), Split(segments[i], relroStart, relroEnd));
        NothingBefore(Pieces(segments[..i], relroStart, relroEnd), Split(segments[i], relroStart, relroEnd));
      }
      assert segments[..|segments|] == segments;
    }
  }

  lemma HeldNothing()
    ensures Held([]) == []
  {
  }

  lemma NothingBefore(a: seq<Range>, b: seq<Range>)
    ensures [] + a == a && [] + (a + b) == a + b
  {
  }

  /** Dropping what does not fit at once or at the end is the same. */
  lemma HeldAgain(before: seq<Range>, a: seq<Range>, b: seq<Range>)
    ensures Held(Held(before + a) + b) == Held(before + (a + b))
  {
    assert before + (a + b) == before + a + b;
  }

  /** An address keeps its protection exactly if it has none, or a range over it was not dropped. */
  lemma HeldMeans(rs: seq<Range>, a: nat)
    ensures Lookup(Held(rs), a) == Lookup(rs, a) <==> Lookup(rs, a) == None || Lookup(Held(rs), a).Some?
    ensures |rs| <= MAX_RANGES ==> Held(rs) == rs
  {
    hide Lookup;
    var n := Min(|rs|, MAX_RANGES);
    assert rs == rs[..n] + rs[n..];
    LookupJoined(rs[..n], rs[n..], a);
  }

  /** The 65th range of an object is dropped, and its addresses with it. */
  lemma OneTooMany(prot: Prot)
    ensures var rs := seq(65, i requires 0 <= i < 65 => Range(2 * i, 2 * i + 1, prot));
            Lookup(rs, 128) == Some(prot) && Lookup(Held(rs), 128) == None
  {
    var rs := seq(65, i requires 0 <= i < 65 => Range(2 * i, 2 * i + 1, prot));
    LookupCovers(Held(rs), 128);
    assert rs == Held(rs) + [rs[64]];
    LookupAppend(Held(rs), rs[64], 128);
  }

  // ----- sorting -----

  predicate Less(a: Range, b: Range) {
    a.start < b.start || (a.start == b.start && a.end < b.end)
  }

  ghost predicate Sorted(rs: seq<Range>) {
    forall i, j :: 0 <= i < j < |rs| ==> !Less(rs[j], rs[i])
  }

  /** In order of the start, and of the end where starts are the same. */
  lemma SortedTold(rs: seq<Range>, i: nat, j: nat)
    requires Sorted(rs) && i < j < |rs|
    ensures rs[i].start < rs[j].start || (rs[i].start == rs[j].start && rs[i].end <= rs[j].end)
  {
  }

  function Insert(rs: seq<Range>, r: Range): seq<Range> {
    if rs == [] || !Less(r, rs[|rs| - 1]) then rs + [r] else Insert(rs[..|rs| - 1], r) + [rs[|rs| - 1]]
  }

  function Sort(rs: seq<Range>): seq<Range> {
    if rs == [] then [] else Insert(Sort(rs[..|rs| - 1]), rs[|rs| - 1])
  }

  lemma {:induction false} InsertKeeps(rs: seq<Range>, r: Range)
    requires Sorted(rs)
    ensures Sorted(Insert(rs, r)) && multiset(Insert(rs, r)) == multiset(rs) + multiset{r}
    decreases |rs|
  {
    if rs != [] && Less(r, rs[|rs| - 1]) {
      var front, last := rs[..|rs| - 1], rs[|rs| - 1];
      InsertKeeps(front, r);
      assert rs == front + [last];
      AllBelow(front, r, Insert(front, r), last);
      SortedBehind(Insert(front, r), last);
    } else {
      SortedBehind(rs, r);
    }
  }

  lemma AllBelow(front: seq<Range>, r: Range, inserted: seq<Range>, last: Range)
    requires multiset(inserted) == multiset(front) + multiset{r} && !Less(last, r)
    requires forall i :: 0 <= i < |front| ==> !Less(last, front[i])
    ensures forall i :: 0 <= i < |inserted| ==> !Less(last, inserted[i])
  {
    hide Less;
    forall i | 0 <= i < |inserted|
      ensures !Less(last, inserted[i])
    {
      assert inserted[i] in multiset(front) + multiset{r};
      assert inserted[i] in front || inserted[i] == r;
    }
  }

  lemma SortedBehind(rs: seq<Range>, r: Range)
    requires Sorted(rs) && (rs == [] || !Less(r, rs[|rs| - 1]))
    ensures Sorted(rs + [r])
  {
  }

  /** Sorting puts the same ranges in order. */
  lemma {:induction false} SortKeeps(rs: seq<Range>)
    ensures Sorted(Sort(rs)) && multiset(Sort(rs)) == multiset(rs)
    decreases |rs|
  {
    hide Sorted;
    if rs == [] {
      NothingSorted();
    } else {
      SortKeeps(rs[..|rs| - 1]);
      InsertKeeps(Sort(rs[..|rs| - 1]), rs[|rs| - 1]);
      assert rs == rs[..|rs| - 1] + [rs[|rs| - 1]];
    }
  }

  lemma NothingSorted()
    ensures Sorted([])
  {
  }

  /** The order is the one that std::sort is asked for; ranges that compare equal stay as they were. */
  method SortInPlace(ranges: array<Range>, count: nat)
    requires count <= ranges.Length
    modifies ranges
    ensures ranges[..count] == Sort(old(ranges[..count]))
  {
    for i := 0 to count
      invariant ranges[..i] == Sort(old(ranges[..i]))
      invariant forall k :: i <= k < ranges.Length ==> ranges[k] == old(ranges[k])
    {
      assert old(ranges[..i + 1])[..i] == old(ranges[..i]);
      InsertInPlace(ranges, i);
    }
  }

  /** Moves range i down to its place among those before it. */
  method InsertInPlace(ranges: array<Range>, i: nat)
    requires i < ranges.Length
    modifies ranges
    ensures ranges[..i + 1] == Insert(old(ranges[..i]), old(ranges[i]))
    ensures forall k :: i < k < ranges.Length ==> ranges[k] == old(ranges[k])
  {
    ghost var before := ranges[..i];
    var r := ranges[i];
    var j := i;
    assert before[..i] == before && before[i..] == [];
    while j > 0 && Less(r, ranges[j - 1])
      invariant 0 <= j <= i && forall k :: 0 <= k < j ==> ranges[k] == before[k]
      invariant forall k :: j < k <= i ==> ranges[k] == before[k - 1]
      invariant forall k :: i < k < ranges.Length ==> ranges[k] == old(ranges[k])
      invariant Insert(before, r) == Insert(before[..j], r) + before[j..]
    {
      InsertBelow(before, r, j);
      ranges[j] := ranges[j - 1];
      j := j - 1;
    }
    assert Insert(before[..j], r) == before[..j] + [r];
    ranges[j] := r;
    assert ranges[..i + 1] == before[..j] + [r] + before[j..];
  }

  lemma InsertBelow(rs: seq<Range>, r: Range, j: nat)
    requires 0 < j <= |rs| && Less(r, rs[j - 1])
    ensures Insert(rs[..j], r) + rs[j..] == Insert(rs[..j - 1], r) + rs[j - 1..]
  {
    assert rs[..j][..j - 1] == rs[..j - 1];
    assert [rs[j - 1]] + rs[j..] == rs[j - 1..];
  }

  // ----- putting in order -----

  function End(rs: seq<Range>): nat {
    if rs == [] then 0 else rs[|rs| - 1].end
  }

  /** A range clipped to what is not yet covered, joined to the last one where it continues it. */
  function Append(out: seq<Range>, r: Range): seq<Range> {
    var start := Max(r.start, End(out));
    if r.end <= start then out
    else if out != [] && End(out) == start && out[|out| - 1].prot == r.prot then
      out[|out| - 1 := out[|out| - 1].(end := r.end)]
    else out + [r.(start := start)]
  }

  function Compact(rs: seq<Range>): (out: seq<Range>)
    ensures |out| <= |rs|
  {
    if rs == [] then [] else Append(Compact(rs[..|rs| - 1]), rs[|rs| - 1])
  }

  /** Ranges in order, none empty, none overlapping, and none that could be joined to the one before. */
  ghost predicate Normal(rs: seq<Range>) {
    && (forall i :: 0 <= i < |rs| ==> rs[i].start < rs[i].end)
    && (forall i, j :: 0 <= i < j < |rs| ==> rs[i].end <= rs[j].start)
    && (forall i, j :: 0 <= i < j < |rs| && rs[i].end == rs[j].start ==> rs[i].prot != rs[j].prot)
  }

  lemma AppendNormal(out: seq<Range>, r: Range)
    requires Normal(out)
    ensures Normal(Append(out, r)) && End(out) <= End(Append(out, r))
  {
  }

  /** Behind the end there is nothing. */
  lemma {:induction false} BeyondEnd(out: seq<Range>, a: nat)
    requires Normal(out) && End(out) <= a
    ensures Lookup(out, a) == None
    decreases |out|
  {
    if out != [] {
      BeyondEnd(out[..|out| - 1], a);
    }
  }

  /** One range more: addresses already covered keep their protection, the others get that of the range. */
  lemma AppendMeans(out: seq<Range>, r: Range, a: nat)
    requires Normal(out)
    ensures Lookup(Append(out, r), a) ==
            if Lookup(out, a).Some? then Lookup(out, a) else if In(r, a) && End(out) <= a then Some(r.prot) else None
  {
    if End(out) <= a {
      BeyondEnd(out, a);
    }
    var start := Max(r.start, End(out));
    if r.end > start {
      if out != [] && End(out) == start && out[|out| - 1].prot == r.prot {
        assert Append(out, r)[..|out| - 1] == out[..|out| - 1];
      } else {
        LookupAppend(out, r.(start := start), a);
      }
    }
  }

  /** Normalising leaves every address covered as before, with the protection of the first range over it. */
  lemma {:induction false} CompactMeans(rs: seq<Range>, a: nat)
    requires Sorted(rs)
    ensures Normal(Compact(rs)) && Lookup(Compact(rs), a) == Lookup(rs, a)
    ensures rs != [] && rs[|rs| - 1].start <= a < End(Compact(rs)) ==> Lookup(rs, a).Some?
    decreases |rs|
  {
    hide Append, Normal;
    if rs == [] {
      NothingNormal();
    } else {
      var n := |rs| - 1;
      var front, r := rs[..n], rs[n];
      CompactMeans(front, a);
      AppendNormal(Compact(front), r);
      AppendMeans(Compact(front), r, a);
      EndGrows(Compact(front), r);
      if front != [] {
        assert !Less(r, front[n - 1]);
      }
    }
  }

  lemma NothingNormal()
    ensures Normal([])
  {
  }

  lemma EndGrows(out: seq<Range>, r: Range)
    ensures End(Append(out, r)) == End(out) || End(Append(out, r)) == r.end
  {
  }

  /** Normalises the first `count` ranges where they are. */
  method NormalizeLoadedRanges(ranges: array<Range>, count: nat) returns (output: nat)
    requires count <= ranges.Length
    modifies ranges
    ensures output <= count && ranges[..output] == Compact(Sort(old(ranges[..count])))
  {
    hide Append, Sort;
    SortInPlace(ranges, count);
    ghost var sorted := ranges[..count];
    output := 0;
    for i := 0 to count
      invariant output <= i && ranges[..output] == Compact(sorted[..i])
      invariant forall k :: i <= k < count ==> ranges[k] == sorted[k]
    {
      assert sorted[..i + 1][..i] == sorted[..i];
      output := AppendInPlace(ranges, output, ranges[i]);
    }
    assert sorted[..count] == sorted;
  }

  /** Adds a range to those already in order, clipped and joined. */
  method AppendInPlace(ranges: array<Range>, count: nat, next: Range) returns (output: nat)
    requires count < ranges.Length
    modifies ranges
    ensures count <= output <= count + 1 && ranges[..output] == Append(old(ranges[..count]), next)
    ensures forall k :: count < k < ranges.Length ==> ranges[k] == old(ranges[k])
  {
    var range := next;
    output := count;
    if output > 0 && range.start < ranges[output - 1].end {
      range := range.(start := ranges[output - 1].end);
    }
    if range.end <= range.start {
      return;
    }
    if output > 0 && ranges[output - 1].end == range.start && ranges[output - 1].prot == range.prot {
      ranges[output - 1] := ranges[output - 1].(end := range.end);
      return;
    }
    ranges[output] := range;
    output := output + 1;
  }

  /** The whole: the result is normal, and covers exactly the addresses that the given ranges cover. */
  lemma NormalizedCovers(rs: seq<Range>, a: nat)
    ensures Normal(Compact(Sort(rs)))
    ensures Lookup(Compact(Sort(rs)), a).Some? <==> Lookup(rs, a).Some?
    ensures Lookup(Compact(Sort(rs)), a) == Lookup(Sort(rs), a)
  {
    hide Normal, Sorted, Compact, Sort, Lookup;
    SortKeeps(rs);
    CompactMeans(Sort(rs), a);
    LookupCovers(Sort(rs), a);
    LookupCovers(rs, a);
    forall r
      ensures r in rs <==> r in Sort(rs)
    {
      assert r in rs <==> r in multiset(rs);
      assert r in Sort(rs) <==> r in multiset(Sort(rs));
    }
  }
}
