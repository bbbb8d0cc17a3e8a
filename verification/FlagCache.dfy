/**
 The flag cache under concurrency: the daemon's threads write the table one at a time, inside a
 section marked by an odd version, while any number of other processes read it with no lock.
 Every load and store is a step of its own, and steps interleave in any order.
 */
module FlagCache {
  import opened BitArithmetic
  import opened FlagTable

  /** Where the thread that holds the write lock is; `base` is the version it loaded. */
  datatype Writer =
    | Unlocked
    | Entered(op: Op)
    | Loaded(op: Op, base: u32)
    | Searching(op: Op, base: u32, k: nat)
    | StoringUid(op: Op, base: u32, k: nat)
    | StoringFlags(op: Op, base: u32, k: nat)
    | WipingUid(op: Op, base: u32, i: nat)
    | WipingFlags(op: Op, base: u32, i: nat)
    | Closing(op: Op, base: u32)

  /**
   Where a reader is. `before` is the version it loaded first; `since` counts the write sections
   completed at that time, and `until` those begun when it loaded the version again.
   */
  datatype Reader =
    | Asking(uid: u32)
    | Probing(uid: u32, before: u32, since: nat, k: nat)
    | LoadingFlags(uid: u32, before: u32, since: nat, k: nat)
    | Checking(uid: u32, before: u32, since: nat, k: nat, flags: u32)
    | Hit(uid: u32, since: nat, until: nat, flags: u32)
    | Absent(uid: u32, since: nat, calm: bool)
    | Busy(uid: u32)
    | Changed(uid: u32)

  /** The shared memory, the threads, and the log of completed writes. */
  datatype State = State(
    version: u32,
    uids: seq<u32>,
    flags: seq<u32>,
    writer: Writer,
    readers: map<nat, Reader>,
    log: seq<Op>)

  datatype Step = Enter(op: Op) | WriterStep | Ask(r: nat, uid: u32) | ReaderStep(r: nat)

  /** The daemon caches uids of a non-negative signed 32-bit value only. */
  predicate Cacheable(op: Op) {
    op.Cache? ==> op.uid < 0x8000_0000
  }

  predicate Done(r: Reader) {
    r.Hit? || r.Absent? || r.Busy? || r.Changed?
  }

  predicate Enabled(s: State, step: Step) {
    match step
    case Enter(op) => s.writer == Unlocked && Cacheable(op)
    case WriterStep => s.writer != Unlocked
    case Ask(r, uid) => r !in s.readers && uid != EMPTY
    case ReaderStep(r) => r in s.readers && !Done(s.readers[r])
  }

  /** Is the version odd on account of a section that has begun? */
  predicate Open(w: Writer) {
    !w.Unlocked? && !w.Entered? && !w.Loaded?
  }

  /** Write sections begun so far. */
  function Begun(s: State): nat {
    |s.log| + if Open(s.writer) then 1 else 0
  }

  predicate Shaped(s: State) {
    && |s.uids| == |s.flags| == SIZE
    && (s.writer.Searching? ==> s.writer.op.Cache? && s.writer.k < SIZE)
    && (s.writer.StoringUid? || s.writer.StoringFlags? ==> s.writer.op.Cache? && s.writer.k < SIZE)
    && (s.writer.WipingUid? || s.writer.WipingFlags? ==> s.writer.op.Invalidate? && s.writer.i < SIZE)
    && (forall r :: r in s.readers && (s.readers[r].Probing? || s.readers[r].LoadingFlags?) ==> s.readers[r].k < SIZE)
  }

  function Write(s: State): State
    requires Shaped(s) && s.writer != Unlocked
  {
    match s.writer
    case Entered(op) => s.(writer := Loaded(op, s.version))
    case Loaded(op, base) =>
      s.(version := Wrap32(base + 1), writer := if op.Cache? then Searching(op, base, 0) else WipingUid(op, base, 0))
    case Searching(op, base, k) =>
      var found := s.uids[Slot(op.uid, k)];
      if found == EMPTY || found == op.uid then s.(writer := StoringUid(op, base, k))
      else if k + 1 < SIZE then s.(writer := Searching(op, base, k + 1))
      else s.(writer := Closing(op, base))
    case StoringUid(op, base, k) =>
      s.(uids := s.uids[Slot(op.uid, k) := op.uid], writer := StoringFlags(op, base, k))
    case StoringFlags(op, base, k) =>
      s.(flags := s.flags[Slot(op.uid, k) := op.flags], writer := Closing(op, base))
    case WipingUid(op, base, i) => s.(uids := s.uids[i := EMPTY], writer := WipingFlags(op, base, i))
    case WipingFlags(op, base, i) =>
      s.(flags := s.flags[i := 0], writer := if i + 1 < SIZE then WipingUid(op, base, i + 1) else Closing(op, base))
    case Closing(op, base) => s.(version := Wrap32(base + 2), writer := Unlocked, log := s.log + [op])
  }

  /** Nothing has been written since the reader loaded the version. */
  predicate Calm(s: State, since: nat) {
    |s.log| == since && !Open(s.writer)
  }

  function Read(s: State, r: Reader): Reader
    requires Shaped(s) && !Done(r) && (r.Probing? || r.LoadingFlags? ==> r.k < SIZE)
  {
    match r
    case Asking(uid) => if s.version % 2 == 0 then Probing(uid, s.version, |s.log|, 0) else Busy(uid)
    case Probing(uid, before, since, k) =>
      var found := s.uids[Slot(uid, k)];
      if found == uid then LoadingFlags(uid, before, since, k)
      else if found == EMPTY || k + 1 == SIZE then Absent(uid, since, Calm(s, since))
      else Probing(uid, before, since, k + 1)
    case LoadingFlags(uid, before, since, k) => Checking(uid, before, since, k, s.flags[Slot(uid, k)])
    case Checking(uid, before, since, k, flags) =>
      if before == s.version then Hit(uid, since, Begun(s), flags) else Changed(uid)
  }

  function Next(s: State, step: Step): State
    requires Shaped(s) && Enabled(s, step)
  {
    match step
    case Enter(op) => s.(writer := Entered(op))
    case WriterStep => Write(s)
    case Ask(r, uid) => s.(readers := s.readers[r := Asking(uid)])
    case ReaderStep(r) => s.(readers := s.readers[r := Read(s, s.readers[r])])
  }

  predicate Initial(s: State) {
    && s.version == 0 && |s.uids| == |s.flags| == SIZE && s.writer == Unlocked && s.readers == map[] && s.log == []
    && (forall i :: 0 <= i < SIZE ==> s.uids[i] == EMPTY)
  }

  /** States reached by a run of enabled steps. */
  ghost predicate Reaches(s: State, steps: seq<Step>, t: State)
    decreases |steps|
  {
    if steps == [] then Initial(s) && s == t
    else
      exists m :: Reaches(s, steps[..|steps| - 1], m) && Shaped(m) &&
                  Enabled(m, steps[|steps| - 1]) && t == Next(m, steps[|steps| - 1])
  }

  /** The map after a log of writes. */
  function Contents(log: seq<Op>): map<u32, u32> {
    if log == [] then map[] else Apply(Contents(log[..|log| - 1]), log[|log| - 1])
  }

  /** The table during each part of a write. */
  ghost predicate TableOk(s: State)
    requires Shaped(s)
  {
    var m := Contents(s.log);
    match s.writer
    case Searching(op, _, k) => op.uid != EMPTY && Represents(s.uids, s.flags, m) && Passed(s.uids, op.uid, k)
    case StoringUid(op, _, k) =>
      && op.uid != EMPTY && Represents(s.uids, s.flags, m) && Passed(s.uids, op.uid, k)
      && s.uids[Slot(op.uid, k)] in {EMPTY, op.uid}
    case StoringFlags(op, _, k) => Represents(s.uids, s.flags[Slot(op.uid, k) := op.flags], Apply(m, op))
    case WipingUid(_, _, i) => forall j :: 0 <= j < i ==> s.uids[j] == EMPTY
    case WipingFlags(_, _, i) => forall j :: 0 <= j <= i ==> s.uids[j] == EMPTY
    case Closing(op, _) => Represents(s.uids, s.flags, Apply(m, op))
    case _ => Represents(s.uids, s.flags, m)
  }

  predicate VersionOk(s: State) {
    && s.version == Wrap32(2 * |s.log| + if Open(s.writer) then 1 else 0)
    && (s.writer.Loaded? || Open(s.writer) ==> s.writer.base == Wrap32(2 * |s.log|))
    && (!s.writer.Unlocked? ==> Cacheable(s.writer.op))
  }

  /** What a reader knows, as long as nothing was written. */
  ghost predicate ReaderOk(s: State, r: Reader)
    requires Shaped(s) && (r.Probing? || r.LoadingFlags? ==> r.k < SIZE)
  {
    match r
    case Probing(uid, before, since, k) =>
      Timed(s, uid, before, since) && (Calm(s, since) ==> Passed(s.uids, uid, k))
    case LoadingFlags(uid, before, since, k) =>
      Timed(s, uid, before, since) && (Calm(s, since) ==> s.uids[Slot(uid, k)] == uid)
    case Checking(uid, before, since, k, flags) =>
      && Timed(s, uid, before, since) && k < SIZE
      && (Calm(s, since) ==> s.uids[Slot(uid, k)] == uid && s.flags[Slot(uid, k)] == flags)
    case Hit(uid, since, until, flags) =>
      && since <= |s.log| && since <= until <= Begun(s)
      && (until - since < 0x8000_0000 ==> until == since && Lookup(s.log, since, uid) == Cached(flags))
    case Absent(uid, since, calm) => since <= |s.log| && (calm ==> Lookup(s.log, since, uid) == AskDaemon)
    case Asking(uid) => uid != EMPTY
    case _ => true
  }

  predicate Timed(s: State, uid: u32, before: u32, since: nat) {
    uid != EMPTY && since <= |s.log| && before == Wrap32(2 * since)
  }

  /** The answer that the map gave after the first `n` writes. */
  function Lookup(log: seq<Op>, n: nat, uid: u32): Answer
    requires n <= |log|
  {
    var m := Contents(log[..n]);
    if uid in m then Cached(m[uid]) else AskDaemon
  }

  ghost predicate Inv(s: State) {
    Shaped(s) && VersionOk(s) && TableOk(s) && forall r :: r in s.readers ==> ReaderOk(s, s.readers[r])
  }

  lemma InitialInv(s: State)
    requires Initial(s)
    ensures Inv(s)
  {
    EmptyTable(s.uids, s.flags);
  }

  /** A section that closes has made the map what its operation says. */
  lemma WriteKeepsTable(s: State)
    requires Shaped(s) && VersionOk(s) && TableOk(s) && s.writer != Unlocked
    ensures Shaped(Write(s)) && TableOk(Write(s))
  {
    hide Represents, Passed, Apply, Slot;
    var m := Contents(s.log);
    match s.writer
    case Loaded(op, base) =>
      if op.Cache? {
        NonePassed(s.uids, op.uid);
      }
    case Searching(op, base, k) =>
      var found := s.uids[Slot(op.uid, k)];
      if found != EMPTY && found != op.uid {
        PassOne(s.uids, op.uid, k);
        if k + 1 == SIZE {
          StoreNowhere(s.uids, s.flags, m, op.uid, op.flags);
        }
      }
    case StoringUid(op, base, k) =>
      if s.uids[Slot(op.uid, k)] == EMPTY {
        StoreEmpty(s.uids, s.flags, m, op.uid, k, op.flags);
      } else {
        StoreFound(s.uids, s.flags, m, op.uid, k, op.flags);
      }
    case WipingFlags(op, base, i) =>
      if i + 1 == SIZE {
        EmptyTable(s.uids, s.flags[i := 0]);
        WipeAll(m);
      }
    case Closing(op, base) =>
      assert (s.log + [op])[..|s.log|] == s.log;
    case _ =>
  }

  lemma WipeAll(m: map<u32, u32>)
    ensures Apply(m, Invalidate) == map[]
  {
  }

  lemma PassOne(uids: seq<u32>, uid: u32, k: nat)
    requires |uids| == SIZE && k < SIZE && Passed(uids, uid, k)
    requires uids[Slot(uid, k)] != EMPTY && uids[Slot(uid, k)] != uid
    ensures Passed(uids, uid, k + 1)
  {
  }

  lemma WriteKeepsVersion(s: State)
    requires Shaped(s) && VersionOk(s) && s.writer != Unlocked
    ensures VersionOk(Write(s))
  {
    Wrap32Adds(2 * |s.log|, 1);
    Wrap32Adds(2 * |s.log|, 2);
  }

  /** Readers at work learn nothing from a write, and those that are done keep their answers. */
  lemma WriteKeepsReader(s: State, r: Reader)
    requires Shaped(s) && s.writer != Unlocked && (r.Probing? || r.LoadingFlags? ==> r.k < SIZE) && ReaderOk(s, r)
    ensures Shaped(Write(s)) && ReaderOk(Write(s), r)
  {
    hide Slot, Passed, Contents;
    var t := Write(s);
    assert s.log <= t.log && Begun(s) <= Begun(t);
    if r.Hit? || r.Absent? {
      assert t.log[..r.since] == s.log[..r.since];
    } else if !r.Asking? && !r.Busy? && !r.Changed? && Calm(t, r.since) {
      assert s.uids == t.uids && s.flags == t.flags && Calm(s, r.since);
    }
  }

  lemma ReadKeepsReader(s: State, r: Reader)
    requires Shaped(s) && VersionOk(s) && TableOk(s) && !Done(r)
    requires (r.Probing? || r.LoadingFlags? ==> r.k < SIZE) && ReaderOk(s, r)
    ensures var t := Read(s, r); (t.Probing? || t.LoadingFlags? ==> t.k < SIZE) && ReaderOk(s, t)
  {
    hide Slot, Passed, Contents, Wrap32, Represents;
    match r
    case Asking(uid) =>
      WrapEven(2 * |s.log| + 1);
      NonePassed(s.uids, uid);
    case Probing(uid, before, since, k) =>
      var found := s.uids[Slot(uid, k)];
      if Calm(s, since) && found != uid {
        assert s.log[..since] == s.log;
        if found == EMPTY {
          ProbeMiss(s.uids, s.flags, Contents(s.log), uid, k);
        } else {
          PassOne(s.uids, uid, k);
          if k + 1 == SIZE {
            ProbeMiss(s.uids, s.flags, Contents(s.log), uid, SIZE);
          }
        }
      }
    case LoadingFlags(uid, before, since, k) =>
    case Checking(uid, before, since, k, flags) =>
      if before == s.version && Begun(s) - since < 0x8000_0000 {
        SameVersion(since, |s.log|, Open(s.writer));
        assert s.log[..since] == s.log;
        ProbeHit(s.uids, s.flags, Contents(s.log), uid, k);
      }
  }

  /** Within 2^31 sections, an equal version means that none has begun. */
  lemma SameVersion(since: nat, now: nat, open: bool)
    requires since <= now && Wrap32(2 * since) == Wrap32(2 * now + if open then 1 else 0)
    requires now + (if open then 1 else 0) - since < 0x8000_0000
    ensures since == now && !open
  {
  }

  lemma StepKeepsInv(s: State, step: Step)
    requires Inv(s) && Enabled(s, step)
    ensures Inv(Next(s, step))
  {
    hide Slot, Passed, Contents, Wrap32, Represents;
    match step
    case WriterStep =>
      WriteKeepsTable(s);
      WriteKeepsVersion(s);
      forall r | r in s.readers
        ensures ReaderOk(Write(s), s.readers[r])
      {
        WriteKeepsReader(s, s.readers[r]);
      }
    case ReaderStep(r) => ReadKeepsReader(s, s.readers[r]);
    case _ =>
  }

  lemma {:induction false} RunsKeepInv(s: State, steps: seq<Step>, t: State)
    requires Reaches(s, steps, t)
    ensures Inv(t)
    decreases |steps|
  {
    if steps == [] {
      InitialInv(s);
    } else {
      var m :| Reaches(s, steps[..|steps| - 1], m) && Shaped(m) &&
               Enabled(m, steps[|steps| - 1]) && t == Next(m, steps[|steps| - 1]);
      RunsKeepInv(s, steps[..|steps| - 1], m);
      StepKeepsInv(m, steps[|steps| - 1]);
    }
  }

  /**
   In every run, whatever interleaves, flags served from the cache are those that the map held for
   the uid when the reader loaded the version first, unless 2^31 writes began during the read.
   */
  lemma NoTornRead(s: State, steps: seq<Step>, t: State, r: nat)
    requires Reaches(s, steps, t) && r in t.readers && t.readers[r].Hit?
    ensures var hit := t.readers[r];
            hit.since <= |t.log| && (hit.until - hit.since < 0x8000_0000 ==>
              Lookup(t.log, hit.since, hit.uid) == Cached(hit.flags))
  {
    RunsKeepInv(s, steps, t);
  }

  /** The i-th write cached these flags, and the n-th came with no flush or other flags for the uid between. */
  ghost predicate Latest(log: seq<Op>, n: nat, i: nat, uid: u32, flags: u32)
    requires n <= |log|
  {
    i < n && log[i] == Cache(uid, flags) && forall j :: i < j < n ==> log[j].Cache? && log[j].uid != uid
  }

  /** What the map holds for a uid is what was cached for it last, with no flush since. */
  lemma {:induction false} HeldIsLatest(log: seq<Op>, n: nat, uid: u32, flags: u32) returns (i: nat)
    requires n <= |log| && Lookup(log, n, uid) == Cached(flags)
    ensures Latest(log, n, i, uid, flags)
    decreases n
  {
    assert log[..n][..n - 1] == log[..n - 1];
    if log[n - 1] == Cache(uid, flags) {
      i := n - 1;
    } else {
      i := HeldIsLatest(log, n - 1, uid, flags);
    }
  }

  /** So a reader serves the flags cached last for its uid when it began. */
  lemma ServedIsLatest(s: State, steps: seq<Step>, t: State, r: nat) returns (i: nat)
    requires Reaches(s, steps, t) && r in t.readers && t.readers[r].Hit?
    requires t.readers[r].until - t.readers[r].since < 0x8000_0000
    ensures t.readers[r].since <= |t.log| && Latest(t.log, t.readers[r].since, i, t.readers[r].uid, t.readers[r].flags)
  {
    NoTornRead(s, steps, t, r);
    i := HeldIsLatest(t.log, t.readers[r].since, t.readers[r].uid, t.readers[r].flags);
  }

  /** A reader that found nothing while nothing was written asked for a uid not in the map. */
  lemma NoLostEntry(s: State, steps: seq<Step>, t: State, r: nat)
    requires Reaches(s, steps, t) && r in t.readers && t.readers[r].Absent? && t.readers[r].calm
    ensures t.readers[r].since <= |t.log| && Lookup(t.log, t.readers[r].since, t.readers[r].uid) == AskDaemon
  {
    RunsKeepInv(s, steps, t);
  }

  /** Between sections the table stands for the map of the log. */
  lemma StableTable(s: State, steps: seq<Step>, t: State)
    requires Reaches(s, steps, t) && t.version % 2 == 0
    ensures Represents(t.uids, t.flags, Contents(t.log))
  {
    hide Reaches, Wrap32, Represents, Contents, ReaderOk;
    RunsKeepInv(s, steps, t);
    WrapEven(2 * |t.log| + 1);
  }

  /** A bound on the steps a reader has left. */
  function StepsLeft(r: Reader): nat
    requires r.Probing? ==> r.k < SIZE
  {
    match r
    case Asking(_) => SIZE + 3
    case Probing(_, _, _, k) => SIZE + 2 - k
    case LoadingFlags(_, _, _, _) => 2
    case Checking(_, _, _, _, _) => 1
    case _ => 0
  }

  function StepsOf(steps: seq<Step>, r: nat): nat {
    if steps == [] then 0
    else StepsOf(steps[..|steps| - 1], r) + if steps[|steps| - 1] == ReaderStep(r) then 1 else 0
  }

  lemma StepSpends(s: State, step: Step, r: nat)
    requires Shaped(s) && Enabled(s, step) && Shaped(Next(s, step))
    ensures r in s.readers ==> r in Next(s, step).readers
    ensures r in s.readers ==>
              StepsLeft(Next(s, step).readers[r]) + (if step == ReaderStep(r) then 1 else 0) <= StepsLeft(s.readers[r])
    ensures r !in s.readers && r in Next(s, step).readers ==> StepsLeft(Next(s, step).readers[r]) == SIZE + 3
    ensures step == ReaderStep(r) ==> r in s.readers
  {
    hide Slot, Calm, Begun;
  }

  /** Readers never wait: in every run, each answers within 8195 steps of its own. */
  lemma {:induction false} ReadersFinish(s: State, steps: seq<Step>, t: State, r: nat)
    requires Reaches(s, steps, t)
    ensures Shaped(t)
    ensures r in t.readers ==> StepsOf(steps, r) + StepsLeft(t.readers[r]) <= SIZE + 3
    ensures r !in t.readers ==> StepsOf(steps, r) == 0
    decreases |steps|
  {
    RunsKeepInv(s, steps, t);
    hide Inv;
    if steps != [] {
      var m :| Reaches(s, steps[..|steps| - 1], m) && Shaped(m) &&
               Enabled(m, steps[|steps| - 1]) && t == Next(m, steps[|steps| - 1]);
      ReadersFinish(s, steps[..|steps| - 1], m, r);
      hide Next;
      StepSpends(m, steps[|steps| - 1], r);
    }
  }

  // A reader gives up only when it was disturbed.

  /** The run goes on from m to t. */
  ghost predicate GoesOn(m: State, steps: seq<Step>, t: State)
    decreases |steps|
  {
    if steps == [] then m == t
    else
      exists n :: GoesOn(m, steps[..|steps| - 1], n) && Shaped(n) &&
                  Enabled(n, steps[|steps| - 1]) && t == Next(n, steps[|steps| - 1])
  }

  /** A reader is turned away by its first load exactly when a section is open. */
  lemma BusyExactly(s: State, steps: seq<Step>, m: State, r: nat)
    requires Reaches(s, steps, m) && r in m.readers && m.readers[r].Asking?
    ensures Shaped(m) && (Next(m, ReaderStep(r)).readers[r].Busy? <==> Open(m.writer))
  {
    hide Reaches, Wrap32, Represents, Contents, Passed;
    RunsKeepInv(s, steps, m);
    WrapEven(2 * |m.log| + if Open(m.writer) then 1 else 0);
  }

  /** And by its last only if a section has begun since the first; within 2^31 sections, exactly then. */
  lemma ChangedExactly(s: State, steps: seq<Step>, m: State, r: nat)
    requires Reaches(s, steps, m) && r in m.readers && m.readers[r].Checking?
    ensures var since, then' := m.readers[r].since, Next(m, ReaderStep(r)).readers[r];
            && Shaped(m)
            && (then'.Changed? ==> Begun(m) > since)
            && (Begun(m) - since < 0x8000_0000 ==> (then'.Changed? <==> Begun(m) > since))
  {
    hide Reaches, Represents, Contents, Passed;
    RunsKeepInv(s, steps, m);
    var since := m.readers[r].since;
    assert ReaderOk(m, m.readers[r]);
    if m.version == m.readers[r].before && Begun(m) - since < 0x8000_0000 {
      SameVersion(since, |m.log|, Open(m.writer));
    }
  }

  /** What a reader that is done answers. */
  function AnswerOf(r: Reader): Answer {
    if r.Hit? then Cached(r.flags) else AskDaemon
  }

  /** No section is open or has begun since the n-th was done, and the reader has not seen otherwise. */
  predicate Undisturbed(s: State, r: nat, uid: u32, n: nat) {
    && Begun(s) == |s.log| == n && r in s.readers && s.readers[r].uid == uid
    && match s.readers[r]
       case Asking(_) => true
       case Hit(_, since, until, _) => since == until == n
       case Absent(_, since, calm) => since == n && calm
       case Busy(_) => false
       case Changed(_) => false
       case other => other.since == n
  }

  lemma StaysUndisturbed(s: State, step: Step, r: nat, uid: u32, n: nat)
    requires Inv(s) && Enabled(s, step) && Undisturbed(s, r, uid, n) && Begun(Next(s, step)) == n
    ensures Undisturbed(Next(s, step), r, uid, n)
  {
    hide Wrap32, Represents, Contents, Passed, Slot;
    WrapEven(2 * |s.log|);
    assert ReaderOk(s, s.readers[r]);
  }

  lemma BegunGrows(s: State, step: Step)
    requires Shaped(s) && Enabled(s, step)
    ensures Begun(s) <= Begun(Next(s, step)) && |s.log| <= |Next(s, step).log|
  {
  }

  /**
   In every run, a reader from whose first load on no section is open or begins is never turned away:
   it answers what the map holds for its uid, exactly as a query with no other process at work.
   */
  lemma {:induction false} QuietReader(s: State, first: seq<Step>, m: State, steps: seq<Step>, t: State, r: nat)
    requires Reaches(s, first, m) && GoesOn(m, steps, t)
    requires r in m.readers && m.readers[r].Asking? && Begun(t) == |m.log|
    ensures Inv(t) && t.log == m.log && Undisturbed(t, r, m.readers[r].uid, |m.log|)
    ensures Done(t.readers[r]) ==> AnswerOf(t.readers[r]) == Lookup(m.log, |m.log|, m.readers[r].uid)
    decreases |steps|
  {
    hide Reaches, Next, Represents, Contents, Passed, Slot;
    if steps == [] {
      RunsKeepInv(s, first, m);
    } else {
      var step := steps[|steps| - 1];
      var n :| GoesOn(m, steps[..|steps| - 1], n) && Shaped(n) && Enabled(n, step) && t == Next(n, step);
      GoneOn(s, first, m, steps[..|steps| - 1], n);
      BegunGrows(n, step);
      QuietReader(s, first, m, steps[..|steps| - 1], n, r);
      StaysUndisturbed(n, step, r, m.readers[r].uid, |m.log|);
      StepKeepsInv(n, step);
      LogKept(n, step);
    }
    assert ReaderOk(t, t.readers[r]);
  }

  lemma LogKept(s: State, step: Step)
    requires Shaped(s) && Enabled(s, step) && |Next(s, step).log| == |s.log|
    ensures Next(s, step).log == s.log
  {
  }

  lemma {:induction false} GoneOn(s: State, first: seq<Step>, m: State, steps: seq<Step>, t: State)
    requires Reaches(s, first, m) && GoesOn(m, steps, t)
    ensures Inv(t) && Begun(t) >= Begun(m) >= |m.log|
    decreases |steps|
  {
    hide Reaches, Next, Inv;
    if steps == [] {
      RunsKeepInv(s, first, m);
    } else {
      var step := steps[|steps| - 1];
      var n :| GoesOn(m, steps[..|steps| - 1], n) && Shaped(n) && Enabled(n, step) && t == Next(n, step);
      GoneOn(s, first, m, steps[..|steps| - 1], n);
      StepKeepsInv(n, step);
      BegunGrows(n, step);
    }
  }

  // The bound on writes during a read cannot be raised.

  lemma Extend(s: State, steps: seq<Step>, m: State, step: Step)
    requires Reaches(s, steps, m) && Enabled(m, step)
    ensures Shaped(m) && Reaches(s, steps + [step], Next(m, step))
  {
    RunsKeepInv(s, steps, m);
    assert (steps + [step])[..|steps|] == steps;
  }

  const SOMEONE: u32 := 10000

  function Repeated(n: nat): seq<Op> {
    if n == 0 then [] else Repeated(n - 1) + [Cache(SOMEONE, 1)]
  }

  /** After n writes of the same entry, with a reader that has loaded version 0 and nothing else. */
  ghost predicate AfterWrites(t: State, n: nat) {
    && |t.uids| == |t.flags| == SIZE && t.writer == Unlocked
    && t.version == Wrap32(2 * n) && t.log == Repeated(n) && t.readers == map[0 := Probing(SOMEONE, 0, 0, 0)]
    && t.uids[Slot(SOMEONE, 0)] == (if n == 0 then EMPTY else SOMEONE)
    && (n > 0 ==> t.flags[Slot(SOMEONE, 0)] == 1)
  }

  lemma OneWrite(s: State, steps: seq<Step>, t: State, n: nat) returns (more: seq<Step>, u: State)
    requires Reaches(s, steps, t) && AfterWrites(t, n)
    ensures Reaches(s, more, u) && AfterWrites(u, n + 1)
  {
    hide Reaches, Contents, Represents, Slot, Wrap32;
    var op := Cache(SOMEONE, 1);
    Extend(s, steps, t, Enter(op));
    more, u := steps + [Enter(op)], Next(t, Enter(op));
    more, u := Move(s, more, u);
    more, u := Move(s, more, u);
    more, u := Move(s, more, u);
    more, u := Move(s, more, u);
    more, u := Move(s, more, u);
    more, u := Move(s, more, u);
    Wrap32Adds(2 * n, 2);
  }

  lemma Move(s: State, steps: seq<Step>, t: State) returns (more: seq<Step>, u: State)
    requires Reaches(s, steps, t) && t.writer != Unlocked
    ensures Shaped(t) && u == Write(t) && Reaches(s, more, u)
  {
    Extend(s, steps, t, WriterStep);
    more, u := steps + [WriterStep], Write(t);
  }

  lemma {:induction false} ManyWrites(s: State, steps: seq<Step>, t: State, n: nat) returns (more: seq<Step>, u: State)
    requires Reaches(s, steps, t) && AfterWrites(t, 0)
    ensures Reaches(s, more, u) && AfterWrites(u, n)
  {
    hide Reaches, AfterWrites;
    if n == 0 {
      more, u := steps, t;
    } else {
      more, u := ManyWrites(s, steps, t, n - 1);
      more, u := OneWrite(s, more, u, n - 1);
    }
  }

  /** Exactly 2^31 writes bring the version back, and a reader serves flags that the map did not hold when it began. */
  lemma WrappedRead(s: State) returns (steps: seq<Step>, t: State)
    requires Initial(s)
    ensures Reaches(s, steps, t) && 0 in t.readers && t.readers[0] == Hit(SOMEONE, 0, 0x8000_0000, 1)
    ensures Lookup(t.log, 0, SOMEONE) == AskDaemon
  {
    hide Reaches, Slot, Contents, Represents, Repeated;
    steps, t := WaitingReader(s);
    steps, t := ManyWrites(s, steps, t, 0x8000_0000);
    RepeatedLength(0x8000_0000);
    steps, t := MoveReader(s, steps, t);
    steps, t := MoveReader(s, steps, t);
    steps, t := MoveReader(s, steps, t);
    NothingLogged(t.log, SOMEONE);
  }

  lemma NothingLogged(log: seq<Op>, uid: u32)
    ensures Lookup(log, 0, uid) == AskDaemon
  {
  }

  lemma WaitingReader(s: State) returns (steps: seq<Step>, t: State)
    requires Initial(s)
    ensures Reaches(s, steps, t) && AfterWrites(t, 0)
  {
    hide Represents, Slot, Contents;
    Extend(s, [], s, Ask(0, SOMEONE));
    steps, t := MoveReader(s, [Ask(0, SOMEONE)], Next(s, Ask(0, SOMEONE)));
  }

  lemma MoveReader(s: State, steps: seq<Step>, t: State) returns (more: seq<Step>, u: State)
    requires Reaches(s, steps, t) && 0 in t.readers && !Done(t.readers[0])
    ensures Shaped(t) && u == t.(readers := t.readers[0 := Read(t, t.readers[0])]) && Reaches(s, more, u)
  {
    Extend(s, steps, t, ReaderStep(0));
    more, u := steps + [ReaderStep(0)], Next(t, ReaderStep(0));
  }

  lemma RepeatedLength(n: nat)
    ensures |Repeated(n)| == n
  {
  }
}
