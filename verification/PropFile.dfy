/**
 The module's property file. At start the monitor splits it into what comes before the description
 and the description with what follows, leaving out its own additions; at every change of status it
 writes the file anew with a decorated description. Restarting must not let decorations pile up.
 */
module PropFile {

  // ----- lines -----

  /** The lines of a text, each without its end. */
  function Lines(text: string): seq<string>
    decreases |text|
  {
    if text == "" then []
    else var n := LineLength(text); [text[..n]] + (if n < |text| then Lines(text[n + 1..]) else [])
  }

  function LineLength(text: string): (n: nat)
    ensures n <= |text| && '\n' !in text[..n] && (n < |text| ==> text[n] == '\n')
  {
    if text == "" || text[0] == '\n' then 0 else assert text == [text[0]] + text[1..]; 1 + LineLength(text[1..])
  }

  /** What the line reader passes on: up to a zero byte, without carriage returns at the end. */
  function Tidied(line: string): string {
    ChopReturns(UpToZero(line))
  }

  function UpToZero(line: string): (t: string)
    ensures '\0' !in t && (forall c :: c in t ==> c in line)
  {
    if line == "" || line[0] == '\0' then "" else [line[0]] + UpToZero(line[1..])
  }

  function ChopReturns(line: string): (t: string)
    ensures t <= line && (t != "" ==> t[|t| - 1] != '\r' && t[|t| - 1] != '\n')
  {
    if line != "" && (line[|line| - 1] == '\r' || line[|line| - 1] == '\n') then ChopReturns(line[..|line| - 1])
    else line
  }

  /** Lines put together again. */
  function Join(lines: seq<string>): string {
    if lines == [] then ""
    else Add(Join(lines[..|lines| - 1]), lines[|lines| - 1])
  }

  function Add(section: string, line: string): string {
    if section == "" then line else section + "\n" + line
  }

  // ----- what is kept of a line -----

  predicate Blank(line: string) {
    forall c :: c in line ==> c == ' ' || c == '\t'
  }

  predicate Generated(line: string) {
    "monitor_status=" <= line || "monitor_stop_reason=" <= line || "zygote_" <= line || "daemon_" <= line
  }

  const KEY: string := "description="

  const MARK: string := "[Monitor:"

  /** Leading characters that are taken off a description. */
  function TrimLead(d: string): (t: string)
    ensures |t| <= |d| && (t == d || |t| < |d|) && (t != "" ==> t[0] !in "= \t")
  {
    if d != "" && d[0] in "= \t" then TrimLead(d[1..]) else d
  }

  /** The text behind the first closing bracket. */
  function Behind(d: string): (t: string)
    requires ']' in d
    ensures |t| < |d|
  {
    if d[0] == ']' then d[1..] else Behind(d[1..])
  }

  predicate Decorated(d: string) {
    MARK <= d && ']' in d
  }

  function StripOnce(d: string): (t: string)
    ensures t == d || |t| < |d|
  {
    TrimLead(if Decorated(d) then Behind(d) else d)
  }

  /** A description without decorations and leading separators. */
  function Strip(d: string): (t: string)
    ensures StripOnce(t) == t && (t == d || |t| < |d|)
    decreases |d|
  {
    if StripOnce(d) == d then d else Strip(StripOnce(d))
  }

  /** What is left alone is exactly what begins with no separator and no decoration. */
  lemma StripExactly(d: string)
    ensures Strip(d) == d <==> d == "" || (d[0] != '=' && d[0] != ' ' && d[0] != '\t' && !Decorated(d))
  {
  }

  /** Separators in front do not count. */
  lemma LeadGoes(c: char, d: string)
    requires c == '=' || c == ' ' || c == '\t'
    ensures Strip([c] + d) == Strip(TrimLead(d))
  {
    var e := [c] + d;
    assert e[1..] == d && MARK[0] == '[';
    assert StripOnce(e) == TrimLead(d);
  }

  // ----- parsing -----

  /** The lines before the description, and those from it on, its own first if it is not empty. */
  datatype Sections = Sections(pre: seq<string>, post: seq<string>, seen: bool)

  predicate Skipped(line: string) {
    Blank(line) || Generated(line)
  }

  function AddLine(s: Sections, raw: string): Sections {
    var line := Tidied(raw);
    if Skipped(line) then s
    else if KEY <= line then
      if s.seen then s
      else var d := Strip(line[|KEY|..]); Sections(s.pre, if d == "" then [] else [d], true)
    else if s.seen then s.(post := s.post + [line])
    else s.(pre := s.pre + [line])
  }

  function AddLines(s: Sections, lines: seq<string>): Sections {
    if lines == [] then s else AddLine(AddLines(s, lines[..|lines| - 1]), lines[|lines| - 1])
  }

  function Parse(text: string): Sections {
    AddLines(Sections([], [], false), Lines(text))
  }

  /** A line that is the module's own. */
  predicate Own(line: string) {
    "id=" <= line || "name=" <= line || "version=" <= line || "versionCode=" <= line || "author=" <= line
  }

  lemma OwnIsKept(s: Sections, raw: string)
    requires Own(Tidied(raw))
    ensures AddLine(s, raw) ==
            if s.seen then s.(post := s.post + [Tidied(raw)]) else s.(pre := s.pre + [Tidied(raw)])
  {
    hide Tidied;
    var line := Tidied(raw);
    assert line[0] == 'i' || line[0] == 'n' || line[0] == 'v' || line[0] == 'a';
    assert !Blank(line) by {
      assert line[0] in line;
    }
    assert !Generated(line) by {
      assert "monitor_status="[0] == "monitor_stop_reason="[0] == 'm' && "zygote_"[0] == 'z' && "daemon_"[0] == 'd';
    }
    assert KEY[0] == 'd';
  }

  /** Every line of the module's own is kept. */
  lemma {:induction false} OwnSurvives(lines: seq<string>, i: nat)
    requires i < |lines| && Own(Tidied(lines[i]))
    ensures var s := AddLines(Sections([], [], false), lines); Tidied(lines[i]) in s.pre + s.post
    decreases |lines|
  {
    hide Own, Tidied, AddLine;
    var n := |lines| - 1;
    var front := lines[..n];
    var before := AddLines(Sections([], [], false), front);
    if i == n {
      OwnIsKept(before, lines[n]);
    } else {
      OwnSurvives(front, i);
      NothingBehind(front);
      LinesStay(before, lines[n], Tidied(lines[i]));
    }
  }

  lemma LinesStay(s: Sections, raw: string, line: string)
    requires line in s.pre + s.post && (!s.seen ==> s.post == [])
    ensures line in AddLine(s, raw).pre + AddLine(s, raw).post
  {
    hide Tidied, Strip;
  }

  lemma {:induction false} NothingBehind(lines: seq<string>)
    ensures var s := AddLines(Sections([], [], false), lines); !s.seen ==> s.post == []
    decreases |lines|
  {
    if lines != [] {
      NothingBehind(lines[..|lines| - 1]);
    }
  }

  // ----- printing -----

  function Decoration(tracing: bool, abi64: bool, ok: bool): string {
    Opening(tracing, abi64, ok) + "] "
  }

  function Opening(tracing: bool, abi64: bool, ok: bool): string {
    MARK + " " + (if tracing then "OK" else "NO") + ", NyaZygisk " + (if abi64 then "64-bit" else "32-bit") + ": " +
    (if ok then "OK" else "NO")
  }

  function Ended(section: string): string {
    if section != "" && section[|section| - 1] == '\n' then section else section + "\n"
  }

  function Print(pre: string, post: string, decoration: string): string {
    (if pre == "" then "" else Ended(pre)) + KEY + decoration + Ended(post)
  }

  /** The decoration of a monitor that traces, over a zygote that is not injected into. */
  lemma OpeningTold()
    ensures Opening(true, true, false) == "[Monitor: OK, NyaZygisk 64-bit: NO"
  {
    assert MARK + " " == "[Monitor: ";
    assert "[Monitor: " + "OK" == "[Monitor: OK";
    assert "[Monitor: OK" + ", NyaZygisk " == "[Monitor: OK, NyaZygisk ";
    assert "[Monitor: OK, NyaZygisk " + "64-bit" == "[Monitor: OK, NyaZygisk 64-bit";
  }

  // ----- the monitor's loops -----

  /** Reads the file into the two sections. */
  method PrepareEnvironment(text: string) returns (pre: string, post: string)
    ensures pre == Join(Parse(text).pre) && post == Join(Parse(text).post)
  {
    var lines := Lines(text);
    pre, post := "", "";
    var seen := false;
    ghost var s := Sections([], [], false);
    for i := 0 to |lines|
      invariant s == AddLines(Sections([], [], false), lines[..i]) && seen == s.seen && (!seen ==> s.post == [])
      invariant pre == Join(s.pre) && post == Join(s.post)
    {
      assert lines[..i + 1][..i] == lines[..i];
      var line := Tidied(lines[i]);
      s := AddLine(s, lines[i]);
      if Skipped(line) {
        continue;
      }
      if KEY <= line {
        if !seen {
          seen := true;
          var d := CleanDescription(line[|KEY|..]);
          post := post + d;
        }
      } else if seen {
        post := Add(post, line);
      } else {
        pre := Add(pre, line);
      }
    }
    assert lines[..|lines|] == lines;
  }

  /** The stripping loop: it ends, since the text gets shorter. */
  method CleanDescription(d: string) returns (clean: string)
    ensures clean == Strip(d)
  {
    clean := d;
    var cleaning := true;
    while cleaning
      invariant Strip(clean) == Strip(d) && (!cleaning ==> StripOnce(clean) == clean)
      decreases |clean|, cleaning
    {
      cleaning := false;
      ghost var was := clean;
      if Decorated(clean) {
        clean := Behind(clean);
        cleaning := true;
      }
      var trimmed := TrimLead(clean);
      if trimmed != "" && trimmed != clean {
        cleaning := true;
      }
      clean := trimmed;
      assert clean == StripOnce(was);
    }
  }
}
