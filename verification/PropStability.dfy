/** Writing the property file and reading it again: what stays, and exactly when everything does. */
module PropStability {
  import opened PropFile

  // ----- texts as lines -----

  /** Lines written out, each with its end. */
  function Text(lines: seq<string>): string {
    if lines == [] then "" else lines[0] + "\n" + Text(lines[1..])
  }

  lemma {:induction false} LengthOfFirst(line: string, rest: string)
    requires '\n' !in line
    ensures LineLength(line + "\n" + rest) == |line|
  {
    var text := line + "\n" + rest;
    if line != "" {
      assert text[0] == line[0] && text[1..] == line[1..] + "\n" + rest;
      LengthOfFirst(line[1..], rest);
    }
  }

  lemma FirstLine(line: string, rest: string)
    requires '\n' !in line
    ensures Lines(line + "\n" + rest) == [line] + Lines(rest)
  {
    var text := line + "\n" + rest;
    LengthOfFirst(line, rest);
    assert text[..|line|] == line && text[|line| + 1..] == rest;
  }

  ghost predicate OneLiners(lines: seq<string>) {
    forall i :: 0 <= i < |lines| ==> '\n' !in lines[i]
  }

  lemma {:induction false} LinesOfText(lines: seq<string>, rest: string)
    requires OneLiners(lines)
    ensures Lines(Text(lines) + rest) == lines + Lines(rest)
  {
    hide Lines;
    if lines == [] {
      assert Text(lines) + rest == rest;
    } else {
      LinesOfText(lines[1..], rest);
      assert Text(lines) + rest == lines[0] + "\n" + (Text(lines[1..]) + rest);
      FirstLine(lines[0], Text(lines[1..]) + rest);
      assert lines == [lines[0]] + lines[1..];
    }
  }

  lemma {:induction false} TextSnoc(lines: seq<string>, line: string)
    ensures Text(lines + [line]) == Text(lines) + line + "\n"
  {
    if lines != [] {
      TextSnoc(lines[1..], line);
      assert (lines + [line])[1..] == lines[1..] + [line];
    } else {
      assert (lines + [line])[1..] == [];
    }
  }

  /** A line as it can be written and read back unchanged. */
  predicate Plain(line: string) {
    line != "" && '\n' !in line && '\0' !in line && line[|line| - 1] != '\r'
  }

  ghost predicate AllPlain(lines: seq<string>) {
    forall i :: 0 <= i < |lines| ==> Plain(lines[i])
  }

  lemma {:induction false} JoinIsText(lines: seq<string>)
    requires AllPlain(lines) && lines != []
    ensures Ended(Join(lines)) == Text(lines) && Join(lines) != ""
    decreases |lines|
  {
    var n := |lines| - 1;
    var front, last := lines[..n], lines[n];
    assert lines == front + [last];
    TextSnoc(front, last);
    if front == [] {
      assert Join(front) == "" && Text(front) == "";
    } else {
      JoinIsText(front);
      LastOfJoin(front);
    }
    LastOfJoin(lines);
  }

  lemma {:induction false} LastOfJoin(lines: seq<string>)
    requires AllPlain(lines) && lines != []
    ensures Join(lines) != "" && Join(lines)[|Join(lines)| - 1] != '\n'
    decreases |lines|
  {
    var last := lines[|lines| - 1];
    assert Join(lines)[|Join(lines)| - 1] == last[|last| - 1];
  }

  // ----- tidying and stripping -----

  lemma {:induction false} NoZeroStays(line: string)
    requires '\0' !in line
    ensures UpToZero(line) == line
  {
    if line != "" {
      NoZeroStays(line[1..]);
    }
  }

  lemma PlainStays(line: string)
    requires '\0' !in line && (line != "" ==> line[|line| - 1] != '\r' && line[|line| - 1] != '\n')
    ensures Tidied(line) == line
  {
    NoZeroStays(line);
  }

  lemma TidiedPlain(raw: string)
    requires '\n' !in raw
    ensures var t := Tidied(raw); '\n' !in t && '\0' !in t && (t != "" ==> Plain(t)) && Tidied(t) == t
  {
    var t := Tidied(raw);
    assert t <= UpToZero(raw);
    assert forall c :: c in t ==> c in UpToZero(raw);
    PlainStays(t);
  }

  /** `t` is the end of `d`. */
  predicate Suffix(t: string, d: string) {
    |t| <= |d| && d[|d| - |t|..] == t
  }

  lemma {:induction false} TrimSuffix(d: string)
    ensures Suffix(TrimLead(d), d)
  {
    if d != "" && d[0] in "= \t" {
      TrimSuffix(d[1..]);
    }
  }

  lemma {:induction false} BehindSuffix(d: string)
    requires ']' in d
    ensures Suffix(Behind(d), d)
  {
    if d[0] != ']' {
      BehindSuffix(d[1..]);
    }
  }

  lemma SuffixOfSuffix(a: string, b: string, c: string)
    requires Suffix(a, b) && Suffix(b, c)
    ensures Suffix(a, c)
  {
    assert c[|c| - |a|..] == c[|c| - |b|..][|b| - |a|..];
  }

  lemma {:induction false} StripSuffix(d: string)
    ensures Suffix(Strip(d), d)
    decreases |d|
  {
    if StripOnce(d) != d {
      var inner := if Decorated(d) then Behind(d) else d;
      if Decorated(d) {
        BehindSuffix(d);
      }
      TrimSuffix(inner);
      SuffixOfSuffix(StripOnce(d), inner, d);
      StripSuffix(StripOnce(d));
      SuffixOfSuffix(Strip(d), StripOnce(d), d);
    }
  }

  lemma PlainSuffix(t: string, d: string)
    requires Suffix(t, d) && t != "" && '\n' !in d && '\0' !in d && d[|d| - 1] != '\r'
    ensures Plain(t)
  {
    assert t[|t| - 1] == d[|d| - 1];
    assert forall c :: c in t ==> c in d;
  }

  lemma {:induction false} BehindBracket(a: string, b: string)
    requires ']' !in a
    ensures ']' in a + "]" + b && Behind(a + "]" + b) == b
  {
    var d := a + "]" + b;
    assert d[|a|] == ']';
    if a != "" {
      BehindBracket(a[1..], b);
      assert d[1..] == a[1..] + "]" + b && d[0] == a[0];
    }
  }

  lemma StripTrimmed(d: string)
    ensures Strip(TrimLead(d)) == Strip(d)
  {
    if d != "" && d[0] in "= \t" {
      assert !Decorated(d) by {
        if MARK <= d {
          assert d[0] == MARK[0];
        }
      }
    }
  }

  lemma OpeningFacts(tracing: bool, abi64: bool, ok: bool)
    ensures MARK <= Opening(tracing, abi64, ok) && ']' !in Opening(tracing, abi64, ok)
    ensures '\n' !in Opening(tracing, abi64, ok) && '\0' !in Opening(tracing, abi64, ok)
  {
    hide Opening;
    OpeningHasNo(tracing, abi64, ok, ']');
    OpeningHasNo(tracing, abi64, ok, '\n');
    OpeningHasNo(tracing, abi64, ok, '\0');
    OpeningMarked(tracing, abi64, ok);
  }

  lemma OpeningMarked(tracing: bool, abi64: bool, ok: bool)
    ensures MARK <= Opening(tracing, abi64, ok)
  {
  }

  lemma OpeningHasNo(tracing: bool, abi64: bool, ok: bool, c: char)
    requires c == ']' || c == '\n' || c == '\0'
    ensures c !in Opening(tracing, abi64, ok)
  {
    assert c !in "OK" && c !in "NO" && c !in "64-bit" && c !in "32-bit";
    assert c !in MARK && c !in " " && c !in ", NyaZygisk " && c !in ": ";
  }

  /** A decoration put in front is stripped again. */
  lemma StripDecorated(tracing: bool, abi64: bool, ok: bool, d: string)
    ensures Strip(Decoration(tracing, abi64, ok) + d) == Strip(d)
  {
    var opening := Opening(tracing, abi64, ok);
    OpeningFacts(tracing, abi64, ok);
    var whole := Decoration(tracing, abi64, ok) + d;
    assert whole == opening + "]" + (" " + d);
    hide Opening, Decoration;
    BehindBracket(opening, " " + d);
    assert MARK <= whole;
    assert Decorated(whole) && Behind(whole) == " " + d;
    assert (" " + d)[1..] == d;
    assert StripOnce(whole) == TrimLead(d);
    StripTrimmed(d);
  }

  // ----- what parsing leaves -----

  /** A line that parsing keeps as it is. */
  predicate Kept(line: string) {
    Plain(line) && !Skipped(line) && !(KEY <= line)
  }

  ghost predicate AllKept(lines: seq<string>) {
    forall i :: 0 <= i < |lines| ==> Kept(lines[i])
  }

  ghost predicate Good(s: Sections) {
    && AllKept(s.pre) && AllPlain(s.post) && (s.post != [] ==> AllKept(s.post[1..]))
    && (!s.seen ==> s.post == [])
  }

  lemma DescriptionPlain(line: string)
    requires Plain(line) && KEY <= line
    ensures var d := Strip(line[|KEY|..]); d == "" || Plain(d)
  {
    hide Strip, Plain;
    var d := line[|KEY|..];
    assert Suffix(d, line);
    StripSuffix(d);
    SuffixOfSuffix(Strip(d), d, line);
    if Strip(d) != "" {
      PlainEnd(Strip(d), line);
    }
  }

  lemma PlainEnd(t: string, d: string)
    requires Suffix(t, d) && t != "" && Plain(d)
    ensures Plain(t)
  {
    PlainSuffix(t, d);
  }

  lemma KeptAppend(lines: seq<string>, line: string)
    requires AllKept(lines) && Kept(line)
    ensures AllKept(lines + [line])
  {
    hide Kept;
  }

  lemma PlainAppend(lines: seq<string>, line: string)
    requires AllPlain(lines) && Plain(line)
    ensures AllPlain(lines + [line])
  {
    hide Plain;
  }

  lemma AddLineGood(s: Sections, raw: string)
    requires Good(s) && '\n' !in raw
    ensures Good(AddLine(s, raw))
  {
    TidiedPlain(raw);
    hide Tidied, Blank, Generated, Strip, Plain;
    var line := Tidied(raw);
    if !Skipped(line) {
      NotBlank(line);
      if KEY <= line {
        DescriptionPlain(line);
      } else if s.seen {
        PlainAppend(s.post, line);
        if s.post != [] {
          assert (s.post + [line])[1..] == s.post[1..] + [line];
          KeptAppend(s.post[1..], line);
        }
      } else {
        KeptAppend(s.pre, line);
      }
    }
  }

  lemma NotBlank(line: string)
    requires !Skipped(line)
    ensures line != ""
  {
  }

  lemma {:induction false} AddLinesGood(s: Sections, lines: seq<string>)
    requires Good(s) && OneLiners(lines)
    ensures Good(AddLines(s, lines))
    decreases |lines|
  {
    hide Good, AddLine;
    if lines != [] {
      AddLinesGood(s, lines[..|lines| - 1]);
      AddLineGood(AddLines(s, lines[..|lines| - 1]), lines[|lines| - 1]);
    }
  }

  lemma {:induction false} LinesAreOneLiners(text: string)
    ensures OneLiners(Lines(text))
    decreases |text|
  {
    if text != "" && LineLength(text) < |text| {
      LinesAreOneLiners(text[LineLength(text) + 1..]);
    }
  }

  lemma ParseGood(text: string)
    ensures Good(Parse(text))
  {
    LinesAreOneLiners(text);
    AddLinesGood(Sections([], [], false), Lines(text));
  }

  // ----- reading back what was written -----

  lemma {:induction false} AddLinesSplit(s: Sections, a: seq<string>, b: seq<string>)
    ensures AddLines(s, a + b) == AddLines(AddLines(s, a), b)
    decreases |b|
  {
    hide AddLine;
    if b == [] {
      assert a + b == a;
    } else {
      AddLinesSplit(s, a, b[..|b| - 1]);
      assert (a + b)[..|a + b| - 1] == a + b[..|b| - 1];
    }
  }

  /** Kept lines go to the section that is open. */
  lemma {:induction false} KeptLines(s: Sections, lines: seq<string>)
    requires AllKept(lines)
    ensures AddLines(s, lines) == if s.seen then s.(post := s.post + lines) else s.(pre := s.pre + lines)
    decreases |lines|
  {
    hide Tidied, Blank, Generated;
    if lines == [] {
      assert s.post + lines == s.post && s.pre + lines == s.pre;
    } else {
      var n := |lines| - 1;
      KeptLines(s, lines[..n]);
      assert Kept(lines[n]);
      PlainStays(lines[n]);
      assert s.post + lines == s.post + lines[..n] + [lines[n]] && s.pre + lines == s.pre + lines[..n] + [lines[n]];
    }
  }

  lemma KeyNotSkipped(line: string)
    requires KEY <= line
    ensures !Skipped(line)
  {
    assert line[0] == 'd' && line[1] == 'e' && line[0] in line;
    NotPrefix("monitor_status=", line, 0);
    NotPrefix("monitor_stop_reason=", line, 0);
    NotPrefix("zygote_", line, 0);
    NotPrefix("daemon_", line, 1);
  }

  lemma NotPrefix(p: string, line: string, i: nat)
    requires i < |p| && i < |line| && p[i] != line[i]
    ensures !(p <= line)
  {
  }

  /** The description line as it is written. */
  lemma DecoratedLine(head: string, tracing: bool, abi64: bool, ok: bool)
    requires head == "" || Plain(head)
    ensures var line := KEY + Decoration(tracing, abi64, ok) + head; '\n' !in line && Tidied(line) == line
  {
    var opening := Opening(tracing, abi64, ok);
    OpeningFacts(tracing, abi64, ok);
    var line := KEY + Decoration(tracing, abi64, ok) + head;
    assert line == KEY + opening + "] " + head;
    hide Opening, Decoration, Tidied;
    assert line[|line| - 1] == if head == "" then ' ' else head[|head| - 1];
    PlainStays(line);
  }

  /** The description line as it is read again. */
  lemma DescriptionLine(pre: seq<string>, head: string, tracing: bool, abi64: bool, ok: bool)
    requires head == "" || Plain(head)
    ensures AddLine(Sections(pre, [], false), KEY + Decoration(tracing, abi64, ok) + head) ==
            Sections(pre, if Strip(head) == "" then [] else [Strip(head)], true)
  {
    hide Decoration, Strip, Tidied, Skipped, Plain;
    DecoratedLine(head, tracing, abi64, ok);
    StripDecorated(tracing, abi64, ok, head);
    var line := KEY + Decoration(tracing, abi64, ok) + head;
    assert line[|KEY|..] == Decoration(tracing, abi64, ok) + head;
    assert KEY <= line;
    KeyNotSkipped(line);
  }

  function HeadOf(lines: seq<string>): string {
    if lines == [] then "" else lines[0]
  }

  function TailOf(lines: seq<string>): seq<string> {
    if lines == [] then [] else lines[1..]
  }

  /** The lines of the file that is written. */
  lemma PrintedLines(s: Sections, tracing: bool, abi64: bool, ok: bool)
    requires Good(s)
    ensures var deco := Decoration(tracing, abi64, ok);
            Lines(Print(Join(s.pre), Join(s.post), deco)) == s.pre + ([KEY + deco + HeadOf(s.post)] + TailOf(s.post))
  {
    var deco := Decoration(tracing, abi64, ok);
    var line, tail := KEY + deco + HeadOf(s.post), TailOf(s.post);
    DecoratedLine(HeadOf(s.post), tracing, abi64, ok);
    hide Decoration, Lines, Skipped, Tidied, Ended, Join, Text;
    assert AllPlain(s.pre) && AllPlain(tail);
    PostText(s.post, KEY + deco);
    if s.pre == [] {
      NoText();
    } else {
      JoinIsText(s.pre);
    }
    Regroup(Text(s.pre), KEY, deco, Ended(Join(s.post)));
    assert OneLiners([line] + tail) && OneLiners(s.pre);
    LinesOfText(s.pre, Text([line] + tail));
    LinesOfWhole([line] + tail);
  }

  lemma Regroup(a: string, b: string, c: string, d: string)
    ensures a + b + c + d == a + ((b + c) + d)
  {
  }

  lemma LinesOfWhole(lines: seq<string>)
    requires OneLiners(lines)
    ensures Lines(Text(lines)) == lines
  {
    LinesOfText(lines, "");
    assert Text(lines) + "" == Text(lines);
    assert Lines("") == [] && lines + [] == lines;
  }

  lemma NoText()
    ensures Join([]) == "" && Text([]) == ""
  {
  }

  lemma PostText(post: seq<string>, front: string)
    requires AllPlain(post)
    ensures front + Ended(Join(post)) == Text([front + HeadOf(post)] + TailOf(post))
  {
    var line, tail := front + HeadOf(post), TailOf(post);
    assert ([line] + tail)[1..] == tail;
    if post != [] {
      JoinIsText(post);
      assert Text(post) == post[0] + "\n" + Text(post[1..]);
    }
  }

  /**
   What is read back: the same lines before, and from the description on the same but for stripping its
   line again.
   */
  lemma ReadBack(s: Sections, tracing: bool, abi64: bool, ok: bool)
    requires Good(s)
    ensures Parse(Print(Join(s.pre), Join(s.post), Decoration(tracing, abi64, ok))) ==
            Sections(s.pre,
                     (if Strip(HeadOf(s.post)) == "" then [] else [Strip(HeadOf(s.post))]) + TailOf(s.post), true)
  {
    hide Decoration, AddLine, Lines, Strip, Print, AddLines;
    var deco, none := Decoration(tracing, abi64, ok), Sections([], [], false);
    var line, tail := KEY + deco + HeadOf(s.post), TailOf(s.post);
    PrintedLines(s, tracing, abi64, ok);
    AddLinesSplit(none, s.pre, [line] + tail);
    KeptLines(none, s.pre);
    var before := Sections(s.pre, [], false);
    assert none.(pre := none.pre + s.pre) == before;
    AddLinesSplit(before, [line], tail);
    OneLine(before, line);
    DescriptionLine(s.pre, HeadOf(s.post), tracing, abi64, ok);
    KeptLines(AddLine(before, line), tail);
  }

  lemma OneLine(s: Sections, line: string)
    ensures AddLines(s, [line]) == AddLine(s, line)
  {
    assert [line][..0] == [];
    assert AddLines(s, []) == s;
  }

  // ----- restarts -----

  lemma {:induction false} JoinLength(a: seq<string>, b: seq<string>)
    requires |a| == |b| && a != [] && |a[0]| < |b[0]| && AllPlain(a) && AllPlain(b) && a[1..] == b[1..]
    ensures |Join(a)| < |Join(b)|
    decreases |a|
  {
    var n := |a| - 1;
    if n == 0 {
      assert a[..0] == [] && b[..0] == [];
    } else {
      assert a[n] == a[1..][n - 1] && b[n] == b[1..][n - 1];
      assert a[..n][1..] == a[1..][..n - 1] && b[..n][1..] == b[1..][..n - 1];
      JoinLength(a[..n], b[..n]);
      LastOfJoin(a[..n]);
      LastOfJoin(b[..n]);
    }
  }

  lemma {:induction false} JoinTail(b: seq<string>)
    requires b != [] && AllPlain(b)
    ensures |Join(b[1..])| < |Join(b)|
    decreases |b|
  {
    var n := |b| - 1;
    LastOfJoin(b);
    if n > 0 {
      assert b[1..][..n - 1] == b[..n][1..] && b[1..][n - 1] == b[n];
      JoinTail(b[..n]);
      LastOfJoin(b[..n]);
      if n > 1 {
        LastOfJoin(b[..n][1..]);
      }
    }
  }

  /** The first line from the description on is free of decorations and leading separators, or there is none. */
  predicate Settled(s: Sections) {
    s.post != [] ==> Strip(s.post[0]) == s.post[0]
  }

  /**
   A restart reads back what was written: always the lines before the description, and the rest
   exactly when it is settled, whatever status was shown.
   */
  lemma RestartStable(text: string, tracing: bool, abi64: bool, ok: bool)
    ensures var s := Parse(text);
            var again := Parse(Print(Join(s.pre), Join(s.post), Decoration(tracing, abi64, ok)));
            Join(again.pre) == Join(s.pre) && (Join(again.post) == Join(s.post) <==> Settled(s))
  {
    hide Parse, Strip, Join, Print, Decoration, Plain, Kept;
    var s := Parse(text);
    ParseGood(text);
    ReadBack(s, tracing, abi64, ok);
    if s.post == [] {
      NothingStrips();
      assert [] + TailOf(s.post) == [];
    } else {
      StripShortens(s.post);
    }
  }

  lemma NothingStrips()
    ensures Strip("") == ""
  {
  }

  lemma StripShortens(post: seq<string>)
    requires post != [] && AllPlain(post)
    ensures var d := Strip(post[0]);
            Join((if d == "" then [] else [d]) + post[1..]) == Join(post) <==> d == post[0]
  {
    hide Strip, Join;
    var d := Strip(post[0]);
    var again := (if d == "" then [] else [d]) + post[1..];
    assert post == [post[0]] + post[1..];
    StripSuffix(post[0]);
    StripDifferent(post[0]);
    if d == "" {
      assert again == post[1..];
      JoinTail(post);
    } else if d != post[0] {
      PlainSuffix(d, post[0]);
      assert again[1..] == post[1..];
      JoinLength(again, post);
    }
  }

  lemma StripDifferent(d: string)
    ensures Strip(d) == d || |Strip(d)| < |d|
  {
  }

  // ----- which files are settled, told from their lines -----

  /** Is this the line of a description? */
  predicate Describes(raw: string) {
    KEY <= Tidied(raw)
  }

  /** The description in such a line, stripped. */
  function Description(raw: string): string
    requires Describes(raw)
  {
    Strip(Tidied(raw)[|KEY|..])
  }

  /** Behind a description, a line is passed over if it is blank, generated or another description. */
  predicate PassedOver(raw: string) {
    Skipped(Tidied(raw)) || Describes(raw)
  }

  /** The index of the first description, or the number of lines. */
  function FirstDescription(lines: seq<string>): (i: nat)
    ensures i <= |lines| && (forall k :: 0 <= k < i ==> !Describes(lines[k])) && (i < |lines| ==> Describes(lines[i]))
  {
    if lines == [] || Describes(lines[0]) then 0 else 1 + FirstDescription(lines[1..])
  }

  /** The index of the first line that is not passed over, or the number of lines. */
  function FirstKept(lines: seq<string>): (i: nat)
    ensures i <= |lines| && (forall k :: 0 <= k < i ==> PassedOver(lines[k])) && (i < |lines| ==> !PassedOver(lines[i]))
  {
    if lines == [] || !PassedOver(lines[0]) then 0 else 1 + FirstKept(lines[1..])
  }

  /** The description is missing or not empty, or the first line kept behind it needs no stripping. */
  predicate SettledLines(lines: seq<string>) {
    var i := FirstDescription(lines);
    i == |lines| || Description(lines[i]) != "" || SettledRest(lines[i + 1..])
  }

  predicate SettledRest(lines: seq<string>) {
    var j := FirstKept(lines);
    j == |lines| || Strip(Tidied(lines[j])) == Tidied(lines[j])
  }

  lemma {:induction false} BeforeDescription(s: Sections, lines: seq<string>)
    requires !s.seen && s.post == [] && forall k :: 0 <= k < |lines| ==> !Describes(lines[k])
    ensures !AddLines(s, lines).seen && AddLines(s, lines).post == []
    decreases |lines|
  {
    hide Skipped;
    if lines != [] {
      BeforeDescription(s, lines[..|lines| - 1]);
    }
  }

  lemma {:induction false} AllPassedOver(s: Sections, lines: seq<string>)
    requires s.seen && forall k :: 0 <= k < |lines| ==> PassedOver(lines[k])
    ensures AddLines(s, lines) == s
    decreases |lines|
  {
    hide Skipped, Tidied;
    if lines != [] {
      AllPassedOver(s, lines[..|lines| - 1]);
    }
  }

  /** The first line from the description on stays the first, whatever follows. */
  lemma {:induction false} HeadStays(s: Sections, lines: seq<string>)
    requires s.seen && s.post != []
    ensures var t := AddLines(s, lines); t.seen && t.post != [] && t.post[0] == s.post[0]
    decreases |lines|
  {
    hide Strip, Tidied, Skipped;
    if lines != [] {
      HeadStays(s, lines[..|lines| - 1]);
    }
  }

  lemma RestSettles(s: Sections, lines: seq<string>)
    requires s.seen && s.post == []
    ensures Settled(AddLines(s, lines)) <==> SettledRest(lines)
  {
    hide Strip, Tidied, Skipped, AddLines, FirstKept;
    var j := FirstKept(lines);
    AddLinesSplit(s, lines[..j], lines[j..]);
    assert lines == lines[..j] + lines[j..];
    AllPassedOver(s, lines[..j]);
    if j < |lines| {
      assert lines[j..] == [lines[j]] + lines[j + 1..];
      AddLinesSplit(s, [lines[j]], lines[j + 1..]);
      OneLine(s, lines[j]);
      HeadStays(AddLine(s, lines[j]), lines[j + 1..]);
    } else {
      assert lines[j..] == [];
      NoLines(s);
    }
  }

  lemma NoLines(s: Sections)
    ensures AddLines(s, []) == s
  {
  }

  /** What the lines of a file say about being settled. */
  lemma SettledExactly(text: string)
    ensures Settled(Parse(text)) <==> SettledLines(Lines(text))
  {
    hide Strip, Tidied, Skipped, AddLines, FirstDescription, Lines, SettledRest;
    var lines, none := Lines(text), Sections([], [], false);
    var i := FirstDescription(lines);
    AddLinesSplit(none, lines[..i], lines[i..]);
    assert lines == lines[..i] + lines[i..];
    BeforeDescription(none, lines[..i]);
    var before := AddLines(none, lines[..i]);
    if i < |lines| {
      assert lines[i..] == [lines[i]] + lines[i + 1..];
      AddLinesSplit(before, [lines[i]], lines[i + 1..]);
      OneLine(before, lines[i]);
      DescriptionAdded(before, lines[i]);
      var after := AddLine(before, lines[i]);
      if Description(lines[i]) != "" {
        HeadStays(after, lines[i + 1..]);
        StripTwice(Tidied(lines[i])[|KEY|..]);
      } else {
        RestSettles(after, lines[i + 1..]);
      }
    } else {
      assert lines[i..] == [];
      NoLines(before);
    }
  }

  lemma DescriptionAdded(s: Sections, raw: string)
    requires Describes(raw) && !s.seen
    ensures AddLine(s, raw) == Sections(s.pre, if Description(raw) == "" then [] else [Description(raw)], true)
  {
    hide Strip, Tidied;
    KeyNotSkipped(Tidied(raw));
  }

  lemma StripTwice(d: string)
    ensures Strip(Strip(d)) == Strip(d)
  {
  }

  /**
   A file with a description that is more than decorations and separators survives every restart: both
   sections are read back as they were, whatever status was shown.
   */
  lemma DescribedStable(text: string, tracing: bool, abi64: bool, ok: bool)
    requires var lines := Lines(text); var i := FirstDescription(lines); i < |lines| && Description(lines[i]) != ""
    ensures var s := Parse(text);
            var again := Parse(Print(Join(s.pre), Join(s.post), Decoration(tracing, abi64, ok)));
            Join(again.pre) == Join(s.pre) && Join(again.post) == Join(s.post)
  {
    hide Parse, Join, Print, Decoration, Lines, Description, FirstDescription;
    SettledExactly(text);
    RestartStable(text, tracing, abi64, ok);
  }

  const BARE: string := "description="
  const INDENTED: string := " author=x"

  /**
   The other case: an empty description, and behind it a line that stripping changes. The file is
   changed by a restart.
   */
  lemma RestartUnstable(tracing: bool, abi64: bool, ok: bool)
    ensures var s := Parse(BARE + "\n" + INDENTED);
            var again := Parse(Print(Join(s.pre), Join(s.post), Decoration(tracing, abi64, ok)));
            Join(again.post) != Join(s.post)
  {
    hide Parse, Join, Print, Decoration, Settled;
    NotSettled();
    RestartStable(BARE + "\n" + INDENTED, tracing, abi64, ok);
  }

  lemma NotSettled()
    ensures !Settled(Parse(BARE + "\n" + INDENTED))
  {
    BareLine();
    IndentedLine();
    FirstLine(BARE, INDENTED);
    LinesOfOne(INDENTED);
    hide AddLine, Strip, Lines;
    var none := Sections([], [], false);
    assert [BARE] + [INDENTED] == [BARE, INDENTED] && [BARE, INDENTED][..1] == [BARE];
    OneLine(none, BARE);
    assert AddLines(none, [BARE, INDENTED]) == AddLine(AddLines(none, [BARE]), INDENTED);
  }

  lemma BareLine()
    ensures '\n' !in BARE && AddLine(Sections([], [], false), BARE) == Sections([], [], true)
  {
    hide Skipped, Tidied;
    PlainStays(BARE);
    KeyNotSkipped(BARE);
    assert BARE[|KEY|..] == "";
    NothingStrips();
  }

  lemma IndentedLine()
    ensures '\n' !in INDENTED && INDENTED != ""
    ensures AddLine(Sections([], [], true), INDENTED) == Sections([], [INDENTED], true) && Strip(INDENTED) != INDENTED
  {
    hide Tidied;
    PlainStays(INDENTED);
    assert INDENTED[0] == ' ' && INDENTED[1] == 'a' && INDENTED[1] in INDENTED;
    NotPrefix(KEY, INDENTED, 0);
    NotPrefix("monitor_status=", INDENTED, 0);
    NotPrefix("monitor_stop_reason=", INDENTED, 0);
    NotPrefix("zygote_", INDENTED, 0);
    NotPrefix("daemon_", INDENTED, 0);
    NotPrefix(MARK, INDENTED, 0);
    assert [] + [INDENTED] == [INDENTED];
  }

  lemma LinesOfOne(line: string)
    requires '\n' !in line && line != ""
    ensures Lines(line) == [line]
  {
    assert LineLength(line) == |line| && line[..|line|] == line;
  }
}
