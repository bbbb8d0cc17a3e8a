/**
 Mapping the loadable segments of a module, either by reading the file into anonymous memory or
 by mapping the file. The address space is a map from addresses to bytes; kernel calls are assumed
 to succeed, except that reading past the end of the file fails.
 */
module Segments {
  import opened BitArithmetic

  // ----- pages -----

  /** The start of the page (or other unit) that holds x. */
  function PageStart(x: nat, pg: nat): (s: nat)
    requires pg > 0
    ensures s <= x < s + pg
  {
    if x < pg then 0 else pg + PageStart(x - pg, pg)
  }

  function PageEnd(x: nat, pg: nat): (e: nat)
    requires pg > 0
    ensures x <= e < x + pg
  {
    PageStart(x + pg - 1, pg)
  }

  predicate Aligned(x: nat, pg: nat)
    requires pg > 0
  {
    PageStart(x, pg) == x
  }

  /** On a power of two, going to the start of a page clears the low bits. */
  lemma PageStartMasks(x: nat, k: nat)
    ensures PageStart(x, Pow2(k)) == x - Truncate(x, k)
  {
    var high := TruncateRest(x, k);
    PageStartOf(Truncate(x, k), Pow2(k), high);
  }

  lemma {:induction false} PageStartOf(low: nat, pg: nat, high: nat)
    requires low < pg
    ensures PageStart(low + pg * high, pg) == pg * high
    decreases high
  {
    if high > 0 {
      assert pg * high == pg + pg * (high - 1);
      PageStartOf(low, pg, high - 1);
    }
  }

  lemma {:induction false} PageStartAligned(x: nat, pg: nat)
    requires pg > 0
    ensures Aligned(PageStart(x, pg), pg)
  {
    if x >= pg {
      PageStartAligned(x - pg, pg);
    }
  }

  /** Whole pages can be taken out. */
  lemma {:induction false} PageStartAdds(whole: nat, x: nat, pg: nat)
    requires pg > 0 && Aligned(whole, pg)
    ensures PageStart(whole + x, pg) == whole + PageStart(x, pg)
    ensures PageEnd(whole + x, pg) == whole + PageEnd(x, pg)
    decreases whole
  {
    if whole > 0 {
      PageStartAdds(whole - pg, x, pg);
    }
  }

  lemma {:induction false} PageStartMonotone(x: nat, y: nat, pg: nat)
    requires pg > 0 && x <= y
    ensures PageStart(x, pg) <= PageStart(y, pg)
    decreases y
  {
    if x >= pg {
      PageStartMonotone(x - pg, y - pg, pg);
    }
  }

  lemma PageEndMonotone(x: nat, y: nat, pg: nat)
    requires pg > 0 && x <= y
    ensures PageEnd(x, pg) <= PageEnd(y, pg)
  {
    PageStartMonotone(x + pg - 1, y + pg - 1, pg);
  }

  /** A coarser power of two is a whole number of pages. */
  lemma {:induction false} CoarserAligned(x: nat, i: nat, j: nat)
    requires i <= j && Aligned(x, Pow2(j))
    ensures Aligned(x, Pow2(i))
    decreases x
  {
    if x > 0 {
      assert x >= Pow2(j) && Aligned(x - Pow2(j), Pow2(j));
      CoarserAligned(x - Pow2(j), i, j);
      Pow2Aligned(i, j);
      PageStartAdds(Pow2(j), x - Pow2(j), Pow2(i));
    }
  }

  lemma {:induction false} Pow2Aligned(i: nat, j: nat)
    requires i <= j
    ensures Aligned(Pow2(j), Pow2(i))
    decreases j
  {
    if i < j {
      Pow2Aligned(i, j - 1);
      PageStartAdds(Pow2(j - 1), Pow2(j - 1), Pow2(i));
    }
  }

  /** Shifting by a difference of whole pages shifts the pages. */
  lemma ShiftPages(base: nat, low: nat, x: nat, pg: nat)
    requires pg > 0 && Aligned(base, pg) && Aligned(low, pg) && low <= x
    ensures PageStart(base + (x - low), pg) == base + (PageStart(x, pg) - low)
    ensures PageEnd(base + (x - low), pg) == base + (PageEnd(x, pg) - low)
    ensures low <= PageStart(x, pg)
  {
    PageStartAdds(base, x - low, pg);
    PageStartAdds(low, x - low, pg);
  }

  /** A number of either sign that is so many whole units. */
  predicate Multiple(b: int, unit: nat)
    requires unit > 0
  {
    Aligned(if b < 0 then -b else b, unit)
  }

  lemma {:induction false} AlignedDifference(x: nat, y: nat, pg: nat)
    requires pg > 0 && Aligned(x, pg) && Aligned(y, pg) && y <= x
    ensures Aligned(x - y, pg)
    decreases y
  {
    if y > 0 {
      AlignedDifference(x - pg, y - pg, pg);
    }
  }

  /** An aligned base minus a bottom is aligned exactly if the bottom is. */
  lemma BiasAligned(base: nat, low: nat, unit: nat)
    requires unit > 0 && Aligned(base, unit)
    ensures Multiple(base - low, unit) <==> Aligned(low, unit)
  {
    hide PageStart;
    if Aligned(low, unit) {
      if low <= base {
        AlignedDifference(base, low, unit);
      } else {
        AlignedDifference(low, base, unit);
      }
    } else if low <= base {
      if Aligned(base - low, unit) {
        AlignedDifference(base, base - low, unit);
      }
    } else {
      PageStartAdds(base, low - base, unit);
    }
  }

  /** An address keeps its place within a unit exactly if the bottom it is counted from is aligned. */
  lemma PlaceKept(base: nat, low: nat, x: nat, unit: nat)
    requires unit > 0 && Aligned(base, unit) && low <= x
    ensures var y := base + (x - low);
            y - PageStart(y, unit) == x - PageStart(x, unit) <==> Aligned(low, unit)
  {
    hide PageStart;
    var w := x - low;
    PageStartAdds(base, w, unit);
    if Aligned(low, unit) {
      PageStartAdds(low, w, unit);
    } else if w - PageStart(w, unit) == x - PageStart(x, unit) {
      PageStartAligned(w, unit);
      PageStartAligned(x, unit);
      AlignedDifference(PageStart(x, unit), PageStart(w, unit), unit);
    }
  }

  // ----- segments -----

  /** A PT_LOAD header, or any other. The alignment is a power of two, or nothing. */
  datatype Phdr = Load(offset: nat, vaddr: nat, filesz: nat, memsz: nat, alignBits: nat) | Other

  predicate Loads(phdrs: seq<Phdr>) {
    exists i :: 0 <= i < |phdrs| && phdrs[i].Load?
  }

  type Space = map<nat, byte>

  ghost predicate Mapped(mem: Space, lo: nat, hi: nat) {
    forall a :: lo <= a < hi ==> a in mem
  }

  function Splice(mem: Space, lo: nat, bytes: seq<byte>): (m: Space)
    requires Mapped(mem, lo, lo + |bytes|)
    ensures m.Keys == mem.Keys
  {
    map a | a in mem :: if lo <= a < lo + |bytes| then bytes[a - lo] else mem[a]
  }

  function Without(mem: Space, lo: nat, hi: nat): Space {
    map a | a in mem && !(lo <= a < hi) :: mem[a]
  }

  /** The bytes of a file from `off`; a page reads as zero behind the end of the file. */
  function FileBytes(file: seq<byte>, off: nat, n: nat): (bs: seq<byte>)
    ensures |bs| == n
  {
    seq(n, i requires 0 <= i < n => if off + i < |file| then file[off + i] else 0)
  }

  function Zeros(n: nat): (bs: seq<byte>)
    ensures |bs| == n
  {
    seq(n, i => 0)
  }

  /** The byte that the ELF file defines at a virtual address of a segment. */
  function Defined(file: seq<byte>, ph: Phdr, x: nat): byte
    requires ph.Load? && ph.vaddr <= x
  {
    var i := x - ph.vaddr;
    if i < ph.filesz && ph.offset + i < |file| then file[ph.offset + i] else 0
  }

  function SegmentStart(ph: Phdr, pg: nat): nat
    requires ph.Load? && pg > 0
  {
    PageStart(ph.vaddr, pg)
  }

  function SegmentEnd(ph: Phdr, pg: nat): nat
    requires ph.Load? && pg > 0
  {
    PageEnd(ph.vaddr + ph.memsz, pg)
  }

  /** No page belongs to two segments. */
  ghost predicate PageDisjoint(phdrs: seq<Phdr>, pg: nat)
    requires pg > 0
  {
    forall i, j :: 0 <= i < |phdrs| && 0 <= j < |phdrs| && i != j && phdrs[i].Load? && phdrs[j].Load? ==>
      SegmentEnd(phdrs[i], pg) <= SegmentStart(phdrs[j], pg) || SegmentEnd(phdrs[j], pg) <= SegmentStart(phdrs[i], pg)
  }

  /** File offset and address agree within the page. */
  predicate Congruent(ph: Phdr, pg: nat)
    requires pg > 0
  {
    ph.Load? ==> ph.offset - PageStart(ph.offset, pg) == ph.vaddr - PageStart(ph.vaddr, pg)
  }

  predicate InFile(file: seq<byte>, ph: Phdr) {
    ph.Load? && ph.filesz > 0 ==> ph.offset + ph.filesz <= |file|
  }

  /** The whole span of pages from the lowest to the highest segment address. */
  function Lowest(phdrs: seq<Phdr>): nat
    requires Loads(phdrs)
  {
    var front, last := phdrs[..|phdrs| - 1], phdrs[|phdrs| - 1];
    if !last.Load? then
      assert forall i :: 0 <= i < |front| ==> front[i] == phdrs[i];
      Lowest(front)
    else if Loads(front) && Lowest(front) < last.vaddr then Lowest(front)
    else last.vaddr
  }

  function Highest(phdrs: seq<Phdr>): nat {
    if phdrs == [] then 0
    else
      var front, last := Highest(phdrs[..|phdrs| - 1]), phdrs[|phdrs| - 1];
      if last.Load? && last.vaddr + last.memsz > front then last.vaddr + last.memsz else front
  }

  function MaxAlign(phdrs: seq<Phdr>, pageBits: nat): (bits: nat)
    ensures bits >= pageBits
  {
    if phdrs == [] then pageBits
    else
      var front, last := MaxAlign(phdrs[..|phdrs| - 1], pageBits), phdrs[|phdrs| - 1];
      if last.Load? && last.alignBits > front then last.alignBits else front
  }

  /** Exactly the pages of the reservation are mapped. */
  ghost predicate Reserved(mem: Space, base: nat, span: nat) {
    forall a :: a in mem <==> base <= a < base + span
  }

  /** The segment's pages are among those from `low` on, `span` bytes of them. */
  predicate Within(ph: Phdr, low: nat, span: nat, pg: nat)
    requires pg > 0
  {
    ph.Load? ==> ph.filesz <= ph.memsz && low <= SegmentStart(ph, pg) && SegmentEnd(ph, pg) <= low + span
  }

  /** Where the segments go: page-aligned places for what the file has at `low`. */
  ghost predicate Placed(mem: Space, ph: Phdr, base: nat, low: nat, span: nat, pg: nat) {
    pg > 0 && Aligned(base, pg) && Aligned(low, pg) && Reserved(mem, base, span) && Within(ph, low, span, pg)
  }

  /** Reads the segment's file part into the reservation. */
  function ReadIn(mem: Space, file: seq<byte>, ph: Phdr, base: nat, low: nat, ghost span: nat,
      ghost pg: nat): (m: Space)
    requires ph.Load? && Placed(mem, ph, base, low, span, pg)
    ensures Reserved(m, base, span)
  {
    if ph.filesz == 0 then mem else Splice(mem, base + (ph.vaddr - low), FileBytes(file, ph.offset, ph.filesz))
  }

  /** Maps the segment's file pages, then zeroes what the file does not define. */
  function MapIn(mem: Space, file: seq<byte>, ph: Phdr, base: nat, low: nat, ghost span: nat, pg: nat): (m: Space)
    requires ph.Load? && Placed(mem, ph, base, low, span, pg)
    ensures Reserved(m, base, span)
  {
    var segStart, fileEnd, memEnd := base + (SegmentStart(ph, pg) - low), base + (ph.vaddr + ph.filesz - low),
        base + (SegmentEnd(ph, pg) - low);
    var filePageEnd := PageEnd(fileEnd, pg);
    FilePages(ph, base, low, pg);
    var m1 := if ph.filesz == 0 then mem else Splice(mem, segStart,
        FileBytes(file, PageStart(ph.offset, pg), filePageEnd - segStart));
    var m2 := if ph.filesz > 0 && ph.memsz > ph.filesz && filePageEnd > fileEnd then Splice(m1, fileEnd,
        Zeros(filePageEnd - fileEnd)) else m1;
    if memEnd > filePageEnd then Splice(m2, filePageEnd, Zeros(memEnd - filePageEnd)) else m2
  }

  /** The file's pages are the first of the segment's. */
  lemma FilePages(ph: Phdr, base: nat, low: nat, pg: nat)
    requires ph.Load? && pg > 0 && Aligned(base, pg) && Aligned(low, pg) && ph.filesz <= ph.memsz
    requires low <= SegmentStart(ph, pg)
    ensures var filePageEnd := PageEnd(base + (ph.vaddr + ph.filesz - low), pg);
            && filePageEnd == base + (PageEnd(ph.vaddr + ph.filesz, pg) - low)
            && filePageEnd <= base + (SegmentEnd(ph, pg) - low)
  {
    ShiftPages(base, low, ph.vaddr + ph.filesz, pg);
    PageEndMonotone(ph.vaddr + ph.filesz, ph.vaddr + ph.memsz, pg);
  }

  function FillOne(mem: Space, file: seq<byte>, ph: Phdr, base: nat, low: nat, ghost span: nat, pg: nat,
      anonymous: bool): (m: Space)
    requires Placed(mem, ph, base, low, span, pg)
    ensures Reserved(m, base, span)
  {
    if ph.Other? then mem
    else if anonymous then ReadIn(mem, file, ph, base, low, span, pg)
    else MapIn(mem, file, ph, base, low, span, pg)
  }

  ghost predicate AllPlaced(mem: Space, phdrs: seq<Phdr>, base: nat, low: nat, span: nat, pg: nat) {
    && pg > 0 && Aligned(base, pg) && Aligned(low, pg) && Reserved(mem, base, span)
    && (forall i :: 0 <= i < |phdrs| ==> Within(phdrs[i], low, span, pg))
  }

  /** Every segment, in the order of the headers. */
  function Fill(mem: Space, file: seq<byte>, phdrs: seq<Phdr>, base: nat, low: nat, ghost span: nat, pg: nat,
      anonymous: bool): (m: Space)
    requires AllPlaced(mem, phdrs, base, low, span, pg)
    ensures Reserved(m, base, span)
  {
    if phdrs == [] then mem
    else
      var before := Fill(mem, file, phdrs[..|phdrs| - 1], base, low, span, pg, anonymous);
      FillOne(before, file, phdrs[|phdrs| - 1], base, low, span, pg, anonymous)
  }

  // ----- what the image holds -----

  /** Filling a segment leaves every other page alone. */
  lemma FillOutside(mem: Space, file: seq<byte>, ph: Phdr, base: nat, low: nat, span: nat, pg: nat, anonymous: bool,
      a: nat)
    requires Placed(mem, ph, base, low, span, pg) && a in mem
    requires ph.Load? ==> a < base + (SegmentStart(ph, pg) - low) || base + (SegmentEnd(ph, pg) - low) <= a
    ensures a in FillOne(mem, file, ph, base, low, span, pg, anonymous)
    ensures FillOne(mem, file, ph, base, low, span, pg, anonymous)[a] == mem[a]
  {
    hide PageStart;
    if ph.Load? {
      FilePages(ph, base, low, pg);
    }
  }

  /** Filling a segment puts its defined bytes in place, by reading or by mapping. */
  lemma FillInside(mem: Space, file: seq<byte>, ph: Phdr, base: nat, low: nat, span: nat, pg: nat, anonymous: bool,
      x: nat)
    requires ph.Load? && Placed(mem, ph, base, low, span, pg) && Congruent(ph, pg) && InFile(file, ph)
    requires ph.vaddr <= x < ph.vaddr + ph.memsz
    requires base + (x - low) in mem && mem[base + (x - low)] == 0
    ensures base + (x - low) in FillOne(mem, file, ph, base, low, span, pg, anonymous)
    ensures FillOne(mem, file, ph, base, low, span, pg, anonymous)[base + (x - low)] == Defined(file, ph, x)
  {
    hide PageStart;
    FilePages(ph, base, low, pg);
  }

  /** The place of a virtual address is in none of these segments' pages. */
  ghost predicate Outside(phdrs: seq<Phdr>, x: nat, pg: nat)
    requires pg > 0
  {
    forall i :: 0 <= i < |phdrs| && phdrs[i].Load? ==> x < SegmentStart(phdrs[i], pg) || SegmentEnd(phdrs[i], pg) <= x
  }

  lemma AllPlacedFront(mem: Space, phdrs: seq<Phdr>, base: nat, low: nat, span: nat, pg: nat)
    requires AllPlaced(mem, phdrs, base, low, span, pg) && phdrs != []
    ensures AllPlaced(mem, phdrs[..|phdrs| - 1], base, low, span, pg)
    ensures Within(phdrs[|phdrs| - 1], low, span, pg)
  {
    hide Within, Aligned;
  }

  /** Pages of no segment keep what they held. */
  lemma {:induction false} FillUntouched(mem: Space, file: seq<byte>, phdrs: seq<Phdr>, base: nat,
      low: nat, span: nat, pg: nat, anonymous: bool, x: nat)
    requires AllPlaced(mem, phdrs, base, low, span, pg) && Outside(phdrs, x, pg) && low <= x < low + span
    ensures base + (x - low) in mem && base + (x - low) in Fill(mem, file, phdrs, base, low, span, pg, anonymous)
    ensures Fill(mem, file, phdrs, base, low, span, pg, anonymous)[base + (x - low)] == mem[base + (x - low)]
    decreases |phdrs|
  {
    hide FillOne, SegmentStart, SegmentEnd, Within, Aligned;
    if phdrs != [] {
      AllPlacedFront(mem, phdrs, base, low, span, pg);
      var front := phdrs[..|phdrs| - 1];
      FillUntouched(mem, file, front, base, low, span, pg, anonymous, x);
      var before := Fill(mem, file, front, base, low, span, pg, anonymous);
      FillOutside(before, file, phdrs[|phdrs| - 1], base, low, span, pg, anonymous, base + (x - low));
    }
  }

  ghost predicate Sound(file: seq<byte>, phdrs: seq<Phdr>, pg: nat)
    requires pg > 0
  {
    && PageDisjoint(phdrs, pg)
    && (forall i :: 0 <= i < |phdrs| ==> Congruent(phdrs[i], pg) && InFile(file, phdrs[i]))
  }

  lemma SoundFront(file: seq<byte>, phdrs: seq<Phdr>, pg: nat)
    requires pg > 0 && Sound(file, phdrs, pg) && phdrs != []
    ensures Sound(file, phdrs[..|phdrs| - 1], pg)
    ensures Congruent(phdrs[|phdrs| - 1], pg) && InFile(file, phdrs[|phdrs| - 1])
  {
    hide Congruent, InFile, SegmentStart, SegmentEnd;
  }

  /** An address of one segment is outside the pages of the others before it. */
  lemma OthersOutside(phdrs: seq<Phdr>, k: nat, x: nat, pg: nat)
    requires pg > 0 && PageDisjoint(phdrs, pg) && k < |phdrs| && phdrs[k].Load?
    requires phdrs[k].vaddr <= x < phdrs[k].vaddr + phdrs[k].memsz
    ensures SegmentStart(phdrs[k], pg) <= x < SegmentEnd(phdrs[k], pg) && Outside(phdrs[..k], x, pg)
    ensures k + 1 < |phdrs| ==> var last := phdrs[|phdrs| - 1];
            last.Load? ==> x < SegmentStart(last, pg) || SegmentEnd(last, pg) <= x
  {
    hide PageStart;
  }

  /** Every byte of every segment is the one the file defines, and zero behind the file part, however it is mapped. */
  lemma {:induction false} FillDefines(mem: Space, file: seq<byte>, phdrs: seq<Phdr>, base: nat,
      low: nat, span: nat, pg: nat, anonymous: bool, k: nat, x: nat)
    requires AllPlaced(mem, phdrs, base, low, span, pg) && Sound(file, phdrs, pg)
    requires forall a :: a in mem ==> mem[a] == 0
    requires k < |phdrs| && phdrs[k].Load? && phdrs[k].vaddr <= x < phdrs[k].vaddr + phdrs[k].memsz
    ensures low <= x && base + (x - low) in Fill(mem, file, phdrs, base, low, span, pg, anonymous)
    ensures Fill(mem, file, phdrs, base, low, span, pg, anonymous)[base + (x - low)] == Defined(file, phdrs[k], x)
    decreases |phdrs|
  {
    hide FillOne, SegmentStart, SegmentEnd, Aligned, Congruent, InFile, PageDisjoint, Defined;
    var n := |phdrs| - 1;
    var front := phdrs[..n];
    OthersOutside(phdrs, k, x, pg);
    SoundFront(file, phdrs, pg);
    AllPlacedFront(mem, phdrs, base, low, span, pg);
    var before := Fill(mem, file, front, base, low, span, pg, anonymous);
    if k == n {
      FillUntouched(mem, file, front, base, low, span, pg, anonymous, x);
      FillInside(before, file, phdrs[n], base, low, span, pg, anonymous, x);
    } else {
      FillDefines(mem, file, front, base, low, span, pg, anonymous, k, x);
      FillOutside(before, file, phdrs[n], base, low, span, pg, anonymous, base + (x - low));
    }
  }

  /** Reading the file in and mapping the file give the same image. */
  lemma SameImage(mem: Space, file: seq<byte>, phdrs: seq<Phdr>, base: nat, low: nat, span: nat, pg: nat, k: nat,
      x: nat)
    requires AllPlaced(mem, phdrs, base, low, span, pg) && Sound(file, phdrs, pg)
    requires forall a :: a in mem ==> mem[a] == 0
    requires k < |phdrs| && phdrs[k].Load? && phdrs[k].vaddr <= x < phdrs[k].vaddr + phdrs[k].memsz
    ensures low <= x
    ensures var read := Fill(mem, file, phdrs, base, low, span, pg, true);
            var mapped := Fill(mem, file, phdrs, base, low, span, pg, false);
            var a := base + (x - low);
            a in read && a in mapped && read[a] == mapped[a] == Defined(file, phdrs[k], x)
  {
    hide Fill;
    FillDefines(mem, file, phdrs, base, low, span, pg, true, k, x);
    FillDefines(mem, file, phdrs, base, low, span, pg, false, k, x);
  }

  // ----- the mapper -----

  /** The lowest and the highest address bound every segment. */
  lemma {:induction false} SpanBounds(phdrs: seq<Phdr>, i: nat)
    requires i < |phdrs| && phdrs[i].Load?
    ensures Loads(phdrs) && Lowest(phdrs) <= phdrs[i].vaddr && phdrs[i].vaddr + phdrs[i].memsz <= Highest(phdrs)
    decreases |phdrs|
  {
    var front := phdrs[..|phdrs| - 1];
    if i < |phdrs| - 1 {
      assert front[i] == phdrs[i];
      SpanBounds(front, i);
    }
  }

  /** And each is the address of some segment: the span is no larger than needed. */
  lemma {:induction false} SpanAttained(phdrs: seq<Phdr>) returns (i: nat, j: nat)
    requires Loads(phdrs)
    ensures i < |phdrs| && phdrs[i].Load? && phdrs[i].vaddr == Lowest(phdrs)
    ensures j < |phdrs| && phdrs[j].Load? && phdrs[j].vaddr + phdrs[j].memsz == Highest(phdrs)
    decreases |phdrs|
  {
    var n := |phdrs| - 1;
    var front := phdrs[..n];
    i, j := n, n;
    if Loads(front) {
      var a, b := SpanAttained(front);
      i := if phdrs[n].Load? && phdrs[n].vaddr <= Lowest(front) then n else a;
      j := if phdrs[n].Load? && phdrs[n].vaddr + phdrs[n].memsz > Highest(front) then n else b;
    } else {
      assert phdrs[n].Load? by {
        assert forall k :: 0 <= k < n ==> front[k] == phdrs[k];
      }
      NothingLoaded(front);
    }
  }

  lemma {:induction false} NothingLoaded(phdrs: seq<Phdr>)
    requires !Loads(phdrs)
    ensures Highest(phdrs) == 0
    decreases |phdrs|
  {
    if phdrs != [] {
      var front := phdrs[..|phdrs| - 1];
      assert forall k :: 0 <= k < |front| ==> front[k] == phdrs[k];
      NothingLoaded(front);
    }
  }

  /** The alignment is the largest that a segment asks for, or a page. */
  lemma {:induction false} AlignAttained(phdrs: seq<Phdr>, pageBits: nat) returns (i: nat)
    ensures MaxAlign(phdrs, pageBits) == pageBits ||
            (i < |phdrs| && phdrs[i].Load? && phdrs[i].alignBits == MaxAlign(phdrs, pageBits))
    ensures forall k :: 0 <= k < |phdrs| && phdrs[k].Load? ==> phdrs[k].alignBits <= MaxAlign(phdrs, pageBits)
    decreases |phdrs|
  {
    i := 0;
    if phdrs != [] {
      var n := |phdrs| - 1;
      i := AlignAttained(phdrs[..n], pageBits);
      if phdrs[n].Load? && phdrs[n].alignBits > MaxAlign(phdrs[..n], pageBits) {
        i := n;
      }
      assert forall k :: 0 <= k < n ==> phdrs[..n][k] == phdrs[k];
    }
  }

  lemma AllWithin(phdrs: seq<Phdr>, pg: nat)
    requires pg > 0 && Loads(phdrs)
    requires forall i :: 0 <= i < |phdrs| && phdrs[i].Load? ==> phdrs[i].filesz <= phdrs[i].memsz
    ensures var low := PageStart(Lowest(phdrs), pg);
            && low <= PageEnd(Highest(phdrs), pg)
            && forall i :: 0 <= i < |phdrs| ==> Within(phdrs[i], low, PageEnd(Highest(phdrs), pg) - low, pg)
  {
    hide PageStart, Lowest, Highest, PageEnd;
    forall i | 0 <= i < |phdrs| && phdrs[i].Load?
      ensures PageStart(Lowest(phdrs), pg) <= SegmentStart(phdrs[i], pg)
      ensures SegmentEnd(phdrs[i], pg) <= PageEnd(Highest(phdrs), pg)
      ensures PageStart(Lowest(phdrs), pg) <= PageEnd(Highest(phdrs), pg)
    {
      SpanBounds(phdrs, i);
      PageStartMonotone(Lowest(phdrs), phdrs[i].vaddr, pg);
      PageEndMonotone(phdrs[i].vaddr + phdrs[i].memsz, Highest(phdrs), pg);
    }
  }

  /** The address `vaddr`, moved by the bias, has the same place within a unit of alignment as before. */
  predicate KeepsPlace(bias: int, vaddr: nat, unit: nat)
    requires unit > 0
  {
    bias + vaddr >= 0 && bias + vaddr - PageStart(bias + vaddr, unit) == vaddr - PageStart(vaddr, unit)
  }

  /** Segments keep the alignment they ask for exactly if the lowest page has it. */
  lemma BiasPlaces(phdrs: seq<Phdr>, base: nat, pageBits: nat)
    requires Loads(phdrs) && Aligned(base, Pow2(MaxAlign(phdrs, pageBits)))
    ensures var unit, low := Pow2(MaxAlign(phdrs, pageBits)), PageStart(Lowest(phdrs), Pow2(pageBits));
            && (Multiple(base - low, unit) <==> Aligned(low, unit))
            && forall i :: 0 <= i < |phdrs| && phdrs[i].Load? ==>
                 low <= phdrs[i].vaddr && (KeepsPlace(base - low, phdrs[i].vaddr, unit) <==> Aligned(low, unit))
  {
    hide PageStart, Lowest, Highest, MaxAlign;
    var unit, low := Pow2(MaxAlign(phdrs, pageBits)), PageStart(Lowest(phdrs), Pow2(pageBits));
    BiasAligned(base, low, unit);
    forall i | 0 <= i < |phdrs| && phdrs[i].Load?
      ensures low <= phdrs[i].vaddr && (KeepsPlace(base - low, phdrs[i].vaddr, unit) <==> Aligned(low, unit))
    {
      SpanBounds(phdrs, i);
      PlaceKept(base, low, phdrs[i].vaddr, unit);
    }
  }

  /** A module at page 0x1000 that asks for 64 KiB: its lowest page does not have that alignment. */
  lemma MisalignedModule()
    ensures var phdrs := [Load(0x1000, 0x1000, 0x1000, 0x1000, 16)];
            Loads(phdrs) && MaxAlign(phdrs, 12) == 16 && !Aligned(PageStart(Lowest(phdrs), Pow2(12)), Pow2(16))
  {
    var phdrs := [Load(0x1000, 0x1000, 0x1000, 0x1000, 16)];
    assert phdrs[0].Load? && phdrs[..0] == [];
    assert Lowest(phdrs) == 0x1000;
    assert Pow2(4) == 16;
    assert Pow2(8) == 256;
    assert Pow2(12) == 0x1000;
    assert Pow2(16) == 0x1_0000;
    assert PageStart(0x1000, 0x1000) == 0x1000;
  }

  function Reservation(from: nat, n: nat): (mem: Space)
    ensures Reserved(mem, from, n) && forall a :: a in mem ==> mem[a] == 0
  {
    map a: nat | from <= a < from + n && Between(from, a, n) :: 0
  }

  predicate Between(from: nat, a: nat, n: nat) {
    from <= a < from + n
  }

  class SegmentMapper {
    var mem: Space
    var mapStart: nat
    var mapSize: nat
    var loadBias: int

    constructor () {
      mem, mapStart, mapSize, loadBias := map[], 0, 0, 0;
    }

    /** Alignment, lowest and highest address of the segments. */
    static method Measure(phdrs: seq<Phdr>, pageBits: nat) returns (any: bool, alignBits: nat, low: nat, high: nat)
      ensures any == Loads(phdrs) && alignBits == MaxAlign(phdrs, pageBits) && high == Highest(phdrs)
      ensures any ==> low == Lowest(phdrs)
    {
      any, alignBits, low, high := false, pageBits, 0, 0;
      for i := 0 to |phdrs|
        invariant any == Loads(phdrs[..i]) && alignBits == MaxAlign(phdrs[..i], pageBits) && high == Highest(phdrs[..i])
        invariant any ==> low == Lowest(phdrs[..i])
      {
        var ph := phdrs[i];
        assert phdrs[..i + 1][..i] == phdrs[..i] && phdrs[..i + 1][i] == ph;
        assert Loads(phdrs[..i + 1]) <==> Loads(phdrs[..i]) || ph.Load? by {
          assert forall j :: 0 <= j < i ==> phdrs[..i + 1][j] == phdrs[..i][j];
        }
        if ph.Load? {
          if ph.alignBits > alignBits {
            alignBits := ph.alignBits;
          }
          if !any || ph.vaddr < low {
            low := ph.vaddr;
          }
          if ph.vaddr + ph.memsz > high {
            high := ph.vaddr + ph.memsz;
          }
          any := true;
        }
      }
      assert phdrs[..|phdrs|] == phdrs;
    }

    /**
     Reserves room for the segments at `raw`, where the kernel put it, trims it to what is needed,
     and fills it. It fails only without segments, or when a segment to be read is not all in the file.
     */
    method MapSegments(file: seq<byte>, phdrs: seq<Phdr>, pageBits: nat, anonymous: bool, raw: nat) returns (ok: bool)
      requires forall i :: 0 <= i < |phdrs| && phdrs[i].Load? ==> phdrs[i].filesz <= phdrs[i].memsz
      modifies this
      ensures ok <==> Loads(phdrs) && (anonymous ==> forall i :: 0 <= i < |phdrs| ==> InFile(file, phdrs[i]))
      ensures ok ==>
                var pg, low := Pow2(pageBits), PageStart(Lowest(phdrs), Pow2(pageBits));
                && Aligned(mapStart, Pow2(MaxAlign(phdrs, pageBits))) && Aligned(mapStart, pg)
                && loadBias == mapStart - low
                && raw <= mapStart && mapStart + mapSize <= raw + mapSize + Pow2(MaxAlign(phdrs, pageBits))
                && low + mapSize == PageEnd(Highest(phdrs), pg)
                && AllPlaced(Reservation(mapStart, mapSize), phdrs, mapStart, low, mapSize, pg)
                && mem == Fill(Reservation(mapStart, mapSize), file, phdrs, mapStart, low, mapSize, pg, anonymous)
      ensures ok ==>
                var unit, low := Pow2(MaxAlign(phdrs, pageBits)), PageStart(Lowest(phdrs), Pow2(pageBits));
                && (Multiple(loadBias, unit) <==> Aligned(low, unit))
                && forall i :: 0 <= i < |phdrs| && phdrs[i].Load? ==>
                     low <= phdrs[i].vaddr && (KeepsPlace(loadBias, phdrs[i].vaddr, unit) <==> Aligned(low, unit))
    {
      hide PageStart, Lowest, Highest, MaxAlign, Fill, Within;
      var pg := Pow2(pageBits);
      var any, alignBits, lowest, highest := Measure(phdrs, pageBits);
      if !any {
        return false;
      }
      AllWithin(phdrs, pg);
      var low, high := PageStart(lowest, pg), PageEnd(highest, pg);
      var span := high - low;
      var reserve := span + Pow2(alignBits);
      mem := Reservation(raw, reserve);
      var aligned := PageEnd(raw, Pow2(alignBits));
      Trim(raw, reserve, aligned, span);
      mapStart, mapSize := aligned, span;
      loadBias := aligned as int - low as int;
      PageStartAligned(raw + Pow2(alignBits) - 1, Pow2(alignBits));
      CoarserAligned(aligned, pageBits, alignBits);
      PageStartAligned(lowest, pg);
      BiasPlaces(phdrs, aligned, pageBits);
      ok := FillAll(file, phdrs, low, pg, anonymous);
    }

    /** Gives back what lies before and behind. */
    method Trim(raw: nat, reserve: nat, aligned: nat, span: nat)
      requires mem == Reservation(raw, reserve) && raw <= aligned && aligned + span <= raw + reserve
      modifies this`mem
      ensures mem == Reservation(aligned, span)
    {
      if aligned != raw {
        mem := Without(mem, raw, aligned);
      }
      var tail := aligned + span;
      if raw + reserve > tail {
        mem := Without(mem, tail, raw + reserve);
      }
      assert mem == Reservation(aligned, span);
    }

    method FillAll(file: seq<byte>, phdrs: seq<Phdr>, low: nat, pg: nat, anonymous: bool) returns (ok: bool)
      requires AllPlaced(mem, phdrs, mapStart, low, mapSize, pg) && loadBias == mapStart - low
      modifies this`mem
      ensures ok <==> (anonymous ==> forall i :: 0 <= i < |phdrs| ==> InFile(file, phdrs[i]))
      ensures ok ==> mem == Fill(old(mem), file, phdrs, mapStart, low, mapSize, pg, anonymous)
    {
      for i := 0 to |phdrs|
        invariant AllPlaced(old(mem), phdrs[..i], mapStart, low, mapSize, pg)
        invariant mem == Fill(old(mem), file, phdrs[..i], mapStart, low, mapSize, pg, anonymous)
        invariant anonymous ==> forall j :: 0 <= j < i ==> InFile(file, phdrs[j])
      {
        var ph := phdrs[i];
        assert phdrs[..i + 1][..i] == phdrs[..i];
        if anonymous && !InFile(file, ph) {
          return false;
        }
        FillSegment(file, ph, low, pg, anonymous);
      }
      assert phdrs[..|phdrs|] == phdrs;
      return true;
    }

    /** One segment, step by step. */
    method FillSegment(file: seq<byte>, ph: Phdr, low: nat, pg: nat, anonymous: bool)
      requires Placed(mem, ph, mapStart, low, mapSize, pg) && loadBias == mapStart - low
      modifies this`mem
      ensures mem == FillOne(old(mem), file, ph, mapStart, low, mapSize, pg, anonymous)
    {
      hide PageStart, Splice, FileBytes, Zeros, Aligned;
      if ph.Other? {
        return;
      }
      var segStart, fileEnd, memEnd := loadBias + PageStart(ph.vaddr, pg), loadBias + (ph.vaddr + ph.filesz),
          loadBias + PageEnd(ph.vaddr + ph.memsz, pg);
      if anonymous {
        if ph.filesz > 0 {
          mem := Splice(mem, loadBias + ph.vaddr, FileBytes(file, ph.offset, ph.filesz));
        }
        return;
      }
      FilePages(ph, mapStart, low, pg);
      var filePageEnd := PageEnd(fileEnd, pg);
      if ph.filesz > 0 {
        mem := Splice(mem, segStart, FileBytes(file, PageStart(ph.offset, pg), filePageEnd - segStart));
        if ph.memsz > ph.filesz && filePageEnd > fileEnd {
          mem := Splice(mem, fileEnd, Zeros(filePageEnd - fileEnd));
        }
      }
      if memEnd > filePageEnd {
        mem := Splice(mem, filePageEnd, Zeros(memEnd - filePageEnd));
      }
    }
  }
}
