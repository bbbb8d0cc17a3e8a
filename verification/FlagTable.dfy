/**
 The table of process flags that the daemon shares with injected processes: 8192 slots of a
 uid and its flags, linearly probed from the uid's home slot. A stable table stands for a map.
 */
module FlagTable {
  import opened BitArithmetic

  const SIZE: nat := 8192
  const EMPTY: u32 := 0xFFFFFFFF

  lemma WrapEven(v: nat)
    ensures Wrap32(v) % 2 == v % 2
  {
  }

  function Home(uid: u32): (home: nat)
    ensures home < SIZE
  {
    uid % SIZE
  }

  /** The slot reached from the home of `uid` in k steps around the table. */
  function Slot(uid: u32, k: nat): (i: nat)
    requires k <= SIZE
    ensures i < SIZE
  {
    if Home(uid) + k < SIZE then Home(uid) + k else Home(uid) + k - SIZE
  }

  /** Probing goes up from the uid, one slot at a time, around the table. */
  lemma SlotTold(uid: u32, k: nat)
    requires k <= SIZE
    ensures Slot(uid, k) == (uid + k) % 8192
  {
  }

  /** The first k slots probed for `uid` hold other uids. */
  ghost predicate Passed(uids: seq<u32>, uid: u32, k: nat)
    requires |uids| == SIZE && k <= SIZE
  {
    forall j: nat :: j < k ==> uids[Slot(uid, j)] != EMPTY && uids[Slot(uid, j)] != uid
  }

  /** Probing for the uid in slot i gets there, and nowhere before. */
  ghost predicate Reachable(uids: seq<u32>, i: nat)
    requires |uids| == SIZE && i < SIZE
  {
    exists k: nat :: k < SIZE && Slot(uids[i], k) == i && Passed(uids, uids[i], k)
  }

  /** The table stands for the map m. */
  ghost predicate Represents(uids: seq<u32>, flags: seq<u32>, m: map<u32, u32>) {
    && |uids| == |flags| == SIZE && EMPTY !in m
    && (forall i: nat :: i < SIZE && uids[i] != EMPTY ==> Reachable(uids, i) && uids[i] in m && m[uids[i]] == flags[i])
    && (forall u :: u in m ==> u in uids)
  }

  /** A write to the cache. */
  datatype Op = Cache(uid: u32, flags: u32) | Invalidate

  /** What a write does to the map: a new uid is dropped when the table is full. */
  function Apply(m: map<u32, u32>, op: Op): map<u32, u32> {
    match op
    case Invalidate => map[]
    case Cache(uid, flags) => if uid !in m && |m| == SIZE then m else m[uid := flags]
  }

  lemma SlotInjective(uid: u32, a: nat, b: nat)
    requires a < b < SIZE
    ensures Slot(uid, a) != Slot(uid, b) && Slot(uid, a) < SIZE && Slot(uid, b) < SIZE
  {
  }

  /** Probing around the whole table visits every slot. */
  lemma SlotCovers(uid: u32, i: nat) returns (k: nat)
    requires i < SIZE
    ensures k < SIZE && Slot(uid, k) == i
  {
    var home := Home(uid);
    k := if i >= home then i - home else i + SIZE - home;
  }

  /** A probe that meets the uid has found the map's value. */
  lemma ProbeHit(uids: seq<u32>, flags: seq<u32>, m: map<u32, u32>, uid: u32, k: nat)
    requires Represents(uids, flags, m) && k < SIZE && uid != EMPTY && uids[Slot(uid, k)] == uid
    ensures uid in m && m[uid] == flags[Slot(uid, k)]
  {
  }

  /** How far a uid in the table is from its home; a probe that passed k slots has not gone by it. */
  lemma Distance(uids: seq<u32>, i: nat, k: nat) returns (d: nat)
    requires |uids| == SIZE && i < SIZE && k <= SIZE && Reachable(uids, i) && Passed(uids, uids[i], k)
    ensures k <= d < SIZE && Slot(uids[i], d) == i && Passed(uids, uids[i], d)
  {
    d :| d < SIZE && Slot(uids[i], d) == i && Passed(uids, uids[i], d);
  }

  /** A probe that meets an empty slot, or comes all the way round, proves the uid absent. */
  lemma ProbeMiss(uids: seq<u32>, flags: seq<u32>, m: map<u32, u32>, uid: u32, k: nat)
    requires Represents(uids, flags, m) && k <= SIZE && uid != EMPTY && Passed(uids, uid, k)
    requires k < SIZE ==> uids[Slot(uid, k)] == EMPTY
    ensures uid !in m
  {
    hide Reachable, Slot, Passed;
    if uid in m {
      var i: nat :| i < SIZE && uids[i] == uid;
      var d := Distance(uids, i, k);
      PassedAt(uids, uid, k, d);
    }
  }

  lemma PassedAt(uids: seq<u32>, uid: u32, k: nat, d: nat)
    requires |uids| == SIZE && k <= d < SIZE && Passed(uids, uid, d) && uids[Slot(uid, d)] == uid != EMPTY
    ensures uids[Slot(uid, k)] != EMPTY
    ensures uids[Slot(uid, k)] == uid ==> d == k
  {
  }

  /** No uid is in two slots. */
  lemma Unique(uids: seq<u32>, flags: seq<u32>, m: map<u32, u32>, i: nat, j: nat)
    requires Represents(uids, flags, m) && i < SIZE && j < SIZE && uids[i] == uids[j] != EMPTY
    ensures i == j
  {
    hide Reachable, Slot, Passed;
    var u := uids[i];
    NonePassed(uids, u);
    var a := Distance(uids, i, 0);
    var b := Distance(uids, j, 0);
    if a <= b {
      PassedAt(uids, u, a, b);
    } else {
      PassedAt(uids, u, b, a);
    }
  }

  lemma NonePassed(uids: seq<u32>, uid: u32)
    requires |uids| == SIZE
    ensures Passed(uids, uid, 0)
  {
  }

  /** A stable table determines its map. */
  lemma OneMap(uids: seq<u32>, flags: seq<u32>, m: map<u32, u32>, n: map<u32, u32>)
    requires Represents(uids, flags, m) && Represents(uids, flags, n)
    ensures m == n
  {
    forall u | u in m || u in n
      ensures u in m && u in n && m[u] == n[u]
    {
      var i: nat :| i < SIZE && uids[i] == u;
    }
  }

  function Held(uids: seq<u32>): set<u32> {
    if uids == [] then {}
    else Held(uids[..|uids| - 1]) + (if uids[|uids| - 1] == EMPTY then {} else {uids[|uids| - 1]})
  }

  lemma {:induction false} HeldMembers(uids: seq<u32>, u: u32)
    ensures u in Held(uids) <==> u in uids && u != EMPTY
  {
    if uids != [] {
      HeldMembers(uids[..|uids| - 1], u);
      assert uids == uids[..|uids| - 1] + [uids[|uids| - 1]];
    }
  }

  lemma {:induction false} HeldCount(uids: seq<u32>)
    requires forall i, j :: 0 <= i < j < |uids| ==> uids[i] != uids[j] || uids[i] == EMPTY
    ensures |Held(uids)| <= |uids|
    ensures |Held(uids)| == |uids| <==> EMPTY !in uids
  {
    if uids != [] {
      var n := |uids| - 1;
      HeldCount(uids[..n]);
      HeldMembers(uids[..n], uids[n]);
      assert uids == uids[..n] + [uids[n]];
      assert uids[n] == EMPTY || uids[n] !in uids[..n];
    }
  }

  /** The table is full exactly when the map has 8192 entries. */
  lemma FullCount(uids: seq<u32>, flags: seq<u32>, m: map<u32, u32>)
    requires Represents(uids, flags, m)
    ensures |m| <= SIZE
    ensures |m| == SIZE <==> EMPTY !in uids
  {
    forall i, j | 0 <= i < j < |uids|
      ensures uids[i] != uids[j] || uids[i] == EMPTY
    {
      if uids[i] == uids[j] && uids[i] != EMPTY {
        Unique(uids, flags, m, i, j);
      }
    }
    HeldCount(uids);
    forall u: u32
      ensures u in Held(uids) <==> u in m
    {
      HeldMembers(uids, u);
    }
    assert m.Keys == Held(uids);
    assert |m| == |m.Keys|;
  }

  /** Overwriting the flags of a uid found by probing updates the map. */
  lemma StoreFound(uids: seq<u32>, flags: seq<u32>, m: map<u32, u32>, uid: u32, k: nat, f: u32)
    requires Represents(uids, flags, m) && k < SIZE && uid != EMPTY && uids[Slot(uid, k)] == uid
    ensures uids[Slot(uid, k) := uid] == uids
    ensures Represents(uids, flags[Slot(uid, k) := f], m[uid := f]) && Apply(m, Cache(uid, f)) == m[uid := f]
  {
    var at := Slot(uid, k);
    forall i: nat | i < SIZE && uids[i] != EMPTY
      ensures m[uid := f][uids[i]] == flags[at := f][i]
    {
      if uids[i] == uid {
        Unique(uids, flags, m, i, at);
      }
    }
  }

  /** Filling the first empty slot of the probe adds the uid to the map. */
  lemma StoreEmpty(uids: seq<u32>, flags: seq<u32>, m: map<u32, u32>, uid: u32, k: nat, f: u32)
    requires Represents(uids, flags, m) && k < SIZE && uid != EMPTY
    requires Passed(uids, uid, k) && uids[Slot(uid, k)] == EMPTY
    ensures Represents(uids[Slot(uid, k) := uid], flags[Slot(uid, k) := f], m[uid := f])
    ensures Apply(m, Cache(uid, f)) == m[uid := f]
  {
    var at := Slot(uid, k);
    var filled := uids[at := uid];
    ProbeMiss(uids, flags, m, uid, k);
    FullCount(uids, flags, m);
    assert filled[at] == uid && Passed(filled, uid, k) by {
      forall j: nat | j < k
        ensures filled[Slot(uid, j)] == uids[Slot(uid, j)]
      {
        SlotInjective(uid, j, k);
      }
    }
    forall i: nat | i < SIZE && filled[i] != EMPTY
      ensures Reachable(filled, i)
    {
      if i != at {
        StillReachable(uids, at, uid, i);
      } else {
        assert Slot(filled[i], k) == i;
      }
    }
    forall u | u in m[uid := f]
      ensures u in filled
    {
      if u != uid {
        var i: nat :| i < SIZE && uids[i] == u;
        assert filled[i] == u;
      }
    }
  }

  lemma StillReachable(uids: seq<u32>, at: nat, uid: u32, i: nat)
    requires |uids| == SIZE && at < SIZE && i < SIZE && uids[at] == EMPTY != uid && uid !in uids
    requires uids[i] != EMPTY && Reachable(uids, i)
    ensures Reachable(uids[at := uid], i)
  {
    var filled := uids[at := uid];
    var k: nat :| k < SIZE && Slot(uids[i], k) == i && Passed(uids, uids[i], k);
    assert filled[i] == uids[i];
    assert Passed(filled, filled[i], k) by {
      forall j: nat | j < k
        ensures filled[Slot(filled[i], j)] != EMPTY && filled[Slot(filled[i], j)] != filled[i]
      {
        assert uids[Slot(uids[i], j)] != EMPTY;
      }
    }
  }

  /** A probe that comes all the way round leaves the map as it is. */
  lemma StoreNowhere(uids: seq<u32>, flags: seq<u32>, m: map<u32, u32>, uid: u32, f: u32)
    requires Represents(uids, flags, m) && uid != EMPTY && Passed(uids, uid, SIZE)
    ensures Apply(m, Cache(uid, f)) == m && uid !in m && |m| == SIZE
  {
    ProbeMiss(uids, flags, m, uid, SIZE);
    if EMPTY in uids {
      var i: nat :| i < SIZE && uids[i] == EMPTY;
      var k := SlotCovers(uid, i);
    }
    FullCount(uids, flags, m);
  }

  lemma EmptyTable(uids: seq<u32>, flags: seq<u32>)
    requires |uids| == |flags| == SIZE && forall i :: 0 <= i < SIZE ==> uids[i] == EMPTY
    ensures Represents(uids, flags, map[])
  {
  }

  /** The answer to a query: the cached flags, or none, when the daemon has to be asked. */
  datatype Answer = Cached(flags: u32) | AskDaemon

  /** The shared memory, as one process uses it with no other at work. */
  class ShmLayout {
    var version: u32
    const uids: array<u32>
    const flags: array<u32>
    ghost var contents: map<u32, u32>

    ghost predicate Valid()
      reads this, uids, flags
    {
      && uids.Length == flags.Length == SIZE && uids != flags && version % 2 == 0
      && Represents(uids[..], flags[..], contents)
    }

    constructor ()
      ensures Valid() && version == 0 && contents == map[]
      ensures fresh(uids) && fresh(flags)
    {
      uids := new u32[SIZE];
      flags := new u32[SIZE];
      version := 0;
      contents := map[];
      new;
      Clear();
      EmptyTable(uids[..], flags[..]);
    }

    /** Empties every slot. */
    method Clear()
      requires uids.Length == flags.Length == SIZE && uids != flags
      modifies uids, flags
      ensures forall i :: 0 <= i < SIZE ==> uids[i] == EMPTY && flags[i] == 0
    {
      for i := 0 to SIZE
        invariant forall j :: 0 <= j < i ==> uids[j] == EMPTY && flags[j] == 0
      {
        uids[i] := EMPTY;
        flags[i] := 0;
      }
    }

    /** Drops every entry. */
    method InvalidateAll()
      requires Valid()
      modifies this`version, this`contents, uids, flags
      ensures Valid() && contents == Apply(old(contents), Invalidate) && version == Wrap32(old(version) + 2)
    {
      var baseVersion: int := version;
      version := Wrap32(baseVersion + 1);
      Clear();
      EmptyTable(uids[..], flags[..]);
      WrapEven(baseVersion + 2);
      contents := map[];
      version := Wrap32(baseVersion + 2);
    }

    /** Caches the flags of a uid, unless the table is full of others. */
    method CacheProcessFlags(uid: u32, f: u32)
      requires Valid() && uid != EMPTY
      modifies this`version, this`contents, uids, flags
      ensures Valid() && contents == Apply(old(contents), Cache(uid, f)) && version == Wrap32(old(version) + 2)
    {
      hide Represents, Wrap32, Apply;
      var baseVersion: int := version;
      version := Wrap32(baseVersion + 1);
      WrapEven(baseVersion + 2);
      var inserted := Insert(uid, f);
      version := Wrap32(baseVersion + 2);
    }

    method Insert(uid: u32, f: u32) returns (inserted: bool)
      requires uids.Length == flags.Length == SIZE && uids != flags && Represents(uids[..], flags[..], contents)
      requires uid != EMPTY
      modifies this`contents, uids, flags
      ensures Represents(uids[..], flags[..], contents) && contents == Apply(old(contents), Cache(uid, f))
      ensures inserted <==> uid in contents
    {
      var index := uid % SIZE;
      var start := index;
      ghost var k := 0;
      while true
        invariant k < SIZE && index == Slot(uid, k) && start == Slot(uid, 0) && Passed(uids[..], uid, k)
        invariant Represents(uids[..], flags[..], contents) && contents == old(contents)
        decreases SIZE - k
      {
        var currentUid := uids[index];
        if currentUid == EMPTY || currentUid == uid {
          if currentUid == EMPTY {
            StoreEmpty(uids[..], flags[..], contents, uid, k, f);
          } else {
            StoreFound(uids[..], flags[..], contents, uid, k, f);
          }
          ghost var newUids, newFlags := uids[..][index := uid], flags[..][index := f];
          uids[index] := uid;
          flags[index] := f;
          assert uids[..] == newUids && flags[..] == newFlags;
          contents := contents[uid := f];
          return true;
        }
        index := (index + 1) % SIZE;
        k := k + 1;
        if index == start {
          StoreNowhere(uids[..], flags[..], contents, uid, f);
          return false;
        }
      }
    }

    /** Looks a uid up by probing: the answer is the map's. */
    method Query(uid: u32) returns (answer: Answer)
      requires Valid() && uid != EMPTY
      ensures answer == if uid in contents then Cached(contents[uid]) else AskDaemon
    {
      var versionBefore := version;
      if versionBefore % 2 == 0 {
        var index := uid % SIZE;
        var start := index;
        var found, cachedFlags := false, 0;
        ghost var k := 0;
        while true
          invariant k < SIZE && index == Slot(uid, k) && start == Slot(uid, 0) && Passed(uids[..], uid, k) && !found
          decreases SIZE - k
        {
          var currentUid := uids[index];
          if currentUid == uid {
            ProbeHit(uids[..], flags[..], contents, uid, k);
            cachedFlags := flags[index];
            found := true;
            break;
          }
          if currentUid == EMPTY {
            ProbeMiss(uids[..], flags[..], contents, uid, k);
            break;
          }
          index := (index + 1) % SIZE;
          k := k + 1;
          if index == start {
            ProbeMiss(uids[..], flags[..], contents, uid, k);
            break;
          }
        }
        if found {
          var versionAfter := version;
          if versionBefore == versionAfter {
            return Cached(cachedFlags);
          }
        }
      }
      return AskDaemon;
    }
  }
}
