/** One room and the pools it shares with the others: every step of a room conserves its
    command log, keeps its frame numbers exactly those below `m_frameId`, and leaves alone the
    frame and command objects other rooms use. Runs of all rooms together are in `Lobby`. */
module Rooms {
  import opened Options
  import opened Serial
  import opened Room

  // ---------------------------------------------------------------- who owns what

  ghost predicate NoDup(xs: seq<nat>) {
    forall i, j :: 0 <= i < j < |xs| ==> xs[i] != xs[j]
  }

  ghost predicate Owns(s: Store, f: nat, c: nat) {
    f < |s.frames| && c in s.frames[f].cmds
  }

  /** No command object is in two frames, or in a frame and in the pool. */
  ghost predicate CmdsOk(s: Store) {
    && (forall f: nat, c: nat :: Owns(s, f, c) ==> c < |s.cmds| && c !in s.pool)
    && (forall f: nat, g: nat, c: nat :: Owns(s, f, c) && Owns(s, g, c) ==> f == g)
    && (forall f :: 0 <= f < |s.frames| ==> NoDup(s.frames[f].cmds))
    && NoDup(s.pool) && (forall c :: c in s.pool ==> c < |s.cmds|)
  }

  /** A pooled frame object is there once and owns no command. */
  ghost predicate PoolOk(s: Store) {
    NoDup(s.pool2001) && forall f :: f in s.pool2001 ==> f < |s.frames| && s.frames[f].cmds == []
  }

  ghost predicate StoreOk(s: Store) { CmdsOk(s) && PoolOk(s) }

  /** The frame objects a room refers to. */
  ghost function Held(r: RoomState): set<nat> {
    r.oper.Values + if r.pending.Some? then {r.pending.value} else {}
  }

  /** The log has exactly the keys below `m_frameId`, each with a frame object of its own
      that carries its number. */
  ghost predicate LogOk(s: Store, r: RoomState) {
    && (forall k :: k in r.oper <==> 0 <= k < r.frameId)
    && (forall j, k :: 0 <= j < k < r.frameId ==> r.oper[j] != r.oper[k])
    && (forall k :: 0 <= k < r.frameId ==> r.oper[k] < |s.frames| && s.frames[r.oper[k]].id == k)
    && (r.pending.Some? ==> r.pending.value < |s.frames| && r.pending.value !in r.oper.Values)
  }

  /** These frame objects are allocated and not free. */
  ghost predicate InUse(s: Store, fs: set<nat>) {
    forall f :: f in fs ==> f < |s.frames| && f !in s.pool2001
  }

  /** A room and the frame objects `others` that other rooms refer to are apart. */
  ghost predicate Apart(s: Store, r: RoomState, others: set<nat>) {
    LogOk(s, r) && InUse(s, Held(r)) && InUse(s, others) && Held(r) !! others
  }

  /** Nothing the other rooms can see has changed. */
  ghost predicate Untouched(s: Store, t: Store, others: set<nat>) {
    forall f :: f in others && f < |s.frames| ==>
      f < |t.frames| && t.frames[f] == s.frames[f] && Contents(t, f) == Contents(s, f)
  }

  /** Every command the room has accepted, in order. */
  ghost function Log(s: Store, r: RoomState): seq<int> {
    Cmds(Collect(s, r, 0, r.frameId)) + if r.pending.Some? then Contents(s, r.pending.value) else []
  }

  // ---------------------------------------------------------------- the pools

  lemma FetchPtKeeps(s: Store)
    requires StoreOk(s) && Handles(s)
    ensures var c := FetchPt(s);
            && StoreOk(c.store) && c.h < |c.store.cmds| && c.h !in c.store.pool
            && (forall f: nat :: !Owns(c.store, f, c.h))
            && c.store.frames == s.frames && c.store.pool2001 == s.pool2001
            && forall x: nat :: x < |s.cmds| && x !in s.pool ==> Read(c.store, x) == Read(s, x)
  {
    var c := FetchPt(s);
    assert forall f: nat, x: nat :: Owns(c.store, f, x) == Owns(s, f, x);
    if s.pool != [] {
      assert c.h in s.pool;
      assert forall x :: x in s.pool[1..] ==> x in s.pool;
    }
  }

  lemma FetchFrameKeeps(s: Store)
    requires StoreOk(s) && Handles(s)
    ensures var f := FetchFrame(s);
            && StoreOk(f.store) && f.h < |f.store.frames| && f.h !in f.store.pool2001 && f.store.frames[f.h].cmds == []
            && (f.h in s.pool2001 || f.h == |s.frames|) && f.store.cmds == s.cmds && f.store.pool == s.pool
            && |s.frames| <= |f.store.frames|
            && (forall g :: 0 <= g < |s.frames| && g != f.h ==> f.store.frames[g] == s.frames[g])
            && (forall g :: g in f.store.pool2001 ==> g in s.pool2001)
  {
    var f := FetchFrame(s);
    if s.pool2001 != [] {
      assert f.h in s.pool2001 && s.frames[f.h].cmds == [];
      assert forall g :: g in s.pool2001[1..] ==> g in s.pool2001;
    }
    assert forall g: nat, x: nat :: Owns(f.store, g, x) ==> Owns(s, g, x);
  }

  /** Contents depend only on the command list and on command objects that are not free. */
  lemma SameContents(s: Store, t: Store, f: nat)
    requires CmdsOk(s) && f < |s.frames| && f < |t.frames| && t.frames[f].cmds == s.frames[f].cmds
    requires forall x: nat :: x < |s.cmds| && x !in s.pool ==> Read(t, x) == Read(s, x)
    ensures Contents(t, f) == Contents(s, f)
  {
    forall i | 0 <= i < |s.frames[f].cmds| ensures Read(t, s.frames[f].cmds[i]) == Read(s, s.frames[f].cmds[i]) {
      assert Owns(s, f, s.frames[f].cmds[i]);
    }
  }

  lemma UntouchedBy(s: Store, t: Store, others: set<nat>)
    requires CmdsOk(s) && |s.frames| <= |t.frames|
    requires forall f :: f in others && f < |s.frames| ==> t.frames[f] == s.frames[f]
    requires forall x: nat :: x < |s.cmds| && x !in s.pool ==> Read(t, x) == Read(s, x)
    ensures Untouched(s, t, others)
  {
    forall f | f in others && f < |s.frames| ensures Contents(t, f) == Contents(s, f) {
      SameContents(s, t, f);
    }
  }

  lemma {:induction false} SameCollect(s: Store, t: Store, r: RoomState, q: RoomState, from: nat, to: nat)
    requires forall k :: from <= k < to ==> (k in r.oper <==> k in q.oper) && (k in r.oper ==> r.oper[k] == q.oper[k])
    requires forall k :: from <= k < to && k in r.oper ==> r.oper[k] < |s.frames|
    requires Untouched(s, t, r.oper.Values)
    ensures Collect(t, q, from, to) == Collect(s, r, from, to)
    decreases if from < to then to - from else 0
  {
    if from < to {
      if from in r.oper { assert r.oper[from] in r.oper.Values; }
      SameCollect(s, t, r, q, from + 1, to);
    }
  }

  // ---------------------------------------------------------------- one room

  /** A step of one room that keeps the objects apart and appends `more` to its log. */
  ghost predicate Steps(s: Store, r: RoomState, t: Store, q: RoomState, others: set<nat>, more: seq<int>) {
    && StoreOk(t) && Apart(t, q, others) && Untouched(s, t, others) && Log(t, q) == Log(s, r) + more
  }

  lemma StepsTrans(s: Store, r: RoomState, t: Store, q: RoomState, u: Store, p: RoomState, others: set<nat>,
                   first: seq<int>, second: seq<int>)
    requires Steps(s, r, t, q, others, first) && Steps(t, q, u, p, others, second)
    ensures Steps(s, r, u, p, others, first + second)
  {
    hide StoreOk, Apart, Contents, Collect, Cmds;
    assert Log(s, r) + first + second == Log(s, r) + (first + second);
  }

  /** A room without a pending frame takes one from the pool. */
  lemma FetchSteps(s: Store, r: RoomState, others: set<nat>)
    requires StoreOk(s) && Handles(s) && Apart(s, r, others) && r.pending.None?
    ensures var f := FetchFrame(s); Steps(s, r, f.store, r.(pending := Some(f.h)), others, [])
    ensures var f := FetchFrame(s); f.store.cmds == s.cmds && f.store.pool == s.pool
    ensures forall g: nat, c: nat :: Owns(FetchFrame(s).store, g, c) ==> Owns(s, g, c)
  {
    var f := FetchFrame(s);
    FetchFrameKeeps(s);
    assert f.h !in Held(r) && f.h !in others;
    UntouchedBy(s, f.store, others + r.oper.Values);
    FetchApart(s, r, others, f.store, f.h);
    FetchLog(s, r, f.store, f.h);
  }

  lemma FetchApart(s: Store, r: RoomState, others: set<nat>, t: Store, h: nat)
    requires Apart(s, r, others) && r.pending.None? && h !in Held(r) && h !in others
    requires h < |t.frames| && h !in t.pool2001 && |s.frames| <= |t.frames|
    requires forall g :: 0 <= g < |s.frames| && g != h ==> t.frames[g] == s.frames[g]
    requires forall g :: g in t.pool2001 ==> g in s.pool2001
    ensures Apart(t, r.(pending := Some(h)), others)
  {
    forall k | 0 <= k < r.frameId ensures r.oper[k] != h { assert r.oper[k] in r.oper.Values; }
  }

  lemma FetchLog(s: Store, r: RoomState, t: Store, h: nat)
    requires LogOk(s, r) && r.pending.None? && Untouched(s, t, r.oper.Values)
    requires h < |t.frames| && t.frames[h].cmds == []
    ensures Log(t, r.(pending := Some(h))) == Log(s, r) + []
  {
    SameCollect(s, t, r, r.(pending := Some(h)), 0, r.frameId);
  }

  lemma OpenSteps(s: Store, r: RoomState, others: set<nat>)
    requires StoreOk(s) && Sane(s, r) && Apart(s, r, others)
    ensures var o := Open(s, r);
            && Steps(s, r, o.store, o.room, others, [])
            && o.room == r.(pending := o.room.pending) && o.store.cmds == s.cmds && o.store.pool == s.pool
            && forall g: nat, c: nat :: Owns(o.store, g, c) ==> Owns(s, g, c)
  {
    hide CmdsOk, PoolOk, Collect, Contents, Cmds;
    if r.pending.None? {
      FetchSteps(s, r, others);
    } else {
      assert Log(s, r) + [] == Log(s, r);
    }
  }

  /** A free command object joins the pending frame. */
  lemma AppendSteps(s: Store, r: RoomState, others: set<nat>, c: nat)
    requires StoreOk(s) && Apart(s, r, others) && r.pending.Some?
    requires c < |s.cmds| && c !in s.pool && forall g: nat :: !Owns(s, g, c)
    ensures var f := r.pending.value;
            Steps(s, r, s.(frames := s.frames[f := s.frames[f].(cmds := s.frames[f].cmds + [c])]), r, others,
                  [s.cmds[c]])
  {
    var f := r.pending.value;
    var t := s.(frames := s.frames[f := s.frames[f].(cmds := s.frames[f].cmds + [c])]);
    assert f in Held(r);
    AppendStore(s, f, c);
    AppendApart(s, t, r, others);
    hide Apart, Collect, Cmds;
    UntouchedBy(s, t, others + r.oper.Values);
    SameCollect(s, t, r, r, 0, r.frameId);
    assert Contents(t, f) == Contents(s, f) + [s.cmds[c]] by { hide StoreOk; }
    hide StoreOk, Contents;
    assert Log(t, r) == Log(s, r) + [s.cmds[c]];
  }

  lemma AppendApart(s: Store, t: Store, r: RoomState, others: set<nat>)
    requires Apart(s, r, others) && |t.frames| == |s.frames| && t.pool2001 == s.pool2001
    requires forall g :: 0 <= g < |s.frames| ==> t.frames[g].id == s.frames[g].id
    ensures Apart(t, r, others) && forall k :: 0 <= k < r.frameId ==> k in r.oper && r.oper[k] < |s.frames|
    ensures r.pending.Some? ==> r.pending.value !in others && r.pending.value !in r.oper.Values
  { }

  lemma AppendStore(s: Store, f: nat, c: nat)
    requires StoreOk(s) && f < |s.frames| && f !in s.pool2001
    requires c < |s.cmds| && c !in s.pool && forall g: nat :: !Owns(s, g, c)
    ensures StoreOk(s.(frames := s.frames[f := s.frames[f].(cmds := s.frames[f].cmds + [c])]))
  {
    var t := s.(frames := s.frames[f := s.frames[f].(cmds := s.frames[f].cmds + [c])]);
    assert !Owns(s, f, c);
    assert forall g: nat, x: nat :: Owns(t, g, x) <==> Owns(s, g, x) || (g == f && x == c);
  }

  /** The command object a command is read into. */
  lemma FetchPtSteps(s: Store, r: RoomState, others: set<nat>, data: int)
    requires StoreOk(s) && Handles(s) && Apart(s, r, others)
    ensures var c := FetchPt(s);
            var t := c.store.(cmds := c.store.cmds[c.h := data]);
            && Steps(s, r, t, r, others, []) && c.h !in t.pool && t.cmds[c.h] == data && t.frames == s.frames
            && t.pool2001 == s.pool2001 && forall g: nat :: !Owns(t, g, c.h)
  {
    hide Contents, Collect, Cmds;
    var c := FetchPt(s);
    var t := c.store.(cmds := c.store.cmds[c.h := data]);
    FetchPtKeeps(s);
    assert forall g: nat, x: nat :: Owns(t, g, x) == Owns(c.store, g, x) == Owns(s, g, x);
    assert StoreOk(t);
    FetchedUntouched(s, t, c.h, others + Held(r));
    SameCollect(s, t, r, r, 0, r.frameId);
    assert Log(s, r) + [] == Log(s, r);
  }

  lemma FetchedUntouched(s: Store, t: Store, c: nat, fs: set<nat>)
    requires CmdsOk(s) && t.frames == s.frames && forall g: nat :: !Owns(s, g, c)
    requires forall x: nat :: x < |s.cmds| && x !in s.pool && x != c ==> Read(t, x) == Read(s, x)
    ensures Untouched(s, t, fs)
  {
    forall f | f in fs && f < |s.frames| ensures Contents(t, f) == Contents(s, f) {
      forall i | 0 <= i < |s.frames[f].cmds| ensures Read(t, s.frames[f].cmds[i]) == Read(s, s.frames[f].cmds[i]) {
        assert Owns(s, f, s.frames[f].cmds[i]);
      }
    }
  }

  /** An accepted command is appended to the log of its room and seen by no other. */
  lemma AddCmdSteps(s: Store, r: RoomState, others: set<nat>, data: int)
    requires StoreOk(s) && Sane(s, r) && Apart(s, r, others)
    ensures var o := AddCmd(s, r, data); Steps(s, r, o.store, o.room, others, [data])
  {
    hide StoreOk, Apart, Steps, Owns;
    var c := FetchPt(s);
    var t := c.store.(cmds := c.store.cmds[c.h := data]);
    FetchPtSteps(s, r, others, data);
    StepsGive(s, r, t, r, others, []);
    var o := Open(t, r);
    OpenSteps(t, r, others);
    StepsGive(t, r, o.store, o.room, others, []);
    AppendSteps(o.store, o.room, others, c.h);
    StepsTrans(s, r, t, r, o.store, o.room, others, [], []);
    var none: seq<int> := [];
    assert none + none == none;
    var a := AddCmd(s, r, data);
    StepsTrans(s, r, o.store, o.room, a.store, a.room, others, [], [data]);
    assert none + [data] == [data];
  }

  lemma StepsGive(s: Store, r: RoomState, t: Store, q: RoomState, others: set<nat>, more: seq<int>)
    requires Steps(s, r, t, q, others, more)
    ensures StoreOk(t) && Apart(t, q, others)
  { }

  lemma {:induction false} CmdsConcat(a: seq<Sent>, b: seq<Sent>)
    ensures Cmds(a + b) == Cmds(a) + Cmds(b)
  {
    if a == [] {
      assert a + b == b;
    } else {
      assert (a + b)[1..] == a[1..] + b;
      CmdsConcat(a[1..], b);
    }
  }

  lemma {:induction false} CollectSplit(s: Store, r: RoomState, from: nat, mid: nat, to: nat)
    requires from <= mid <= to
    ensures Collect(s, r, from, to) == Collect(s, r, from, mid) + Collect(s, r, mid, to)
    decreases mid - from
  {
    if from < mid {
      CollectSplit(s, r, from + 1, mid, to);
    }
  }

  /** The pending frame becomes the next frame of the log. */
  function Logged(s: Store, r: RoomState): InRoom
    requires r.pending.Some? && r.pending.value < |s.frames|
  {
    var f := r.pending.value;
    InRoom(s.(frames := s.frames[f := s.frames[f].(id := r.frameId)]),
           r.(oper := r.oper[r.frameId := f], pending := None, frameId := r.frameId + 1))
  }

  lemma LoggedSteps(s: Store, r: RoomState, others: set<nat>)
    requires StoreOk(s) && Apart(s, r, others) && r.pending.Some?
    ensures var o := Logged(s, r); Steps(s, r, o.store, o.room, others, [])
  {
    var o := Logged(s, r);
    var f := r.pending.value;
    LoggedApart(s, r, others);
    assert forall g: nat, x: nat :: Owns(o.store, g, x) == Owns(s, g, x);
    UntouchedBy(s, o.store, others + r.oper.Values);
    LoggedLog(s, r);
  }

  lemma LoggedApart(s: Store, r: RoomState, others: set<nat>)
    requires Apart(s, r, others) && r.pending.Some?
    ensures var o := Logged(s, r); Apart(o.store, o.room, others)
  {
    var o := Logged(s, r);
    var f := r.pending.value;
    forall k | 0 <= k < r.frameId ensures r.oper[k] != f { assert r.oper[k] in r.oper.Values; }
    forall h | h in Held(o.room) ensures h in Held(r) {
      var k :| k in o.room.oper && o.room.oper[k] == h;
      if k != r.frameId { assert r.oper[k] in r.oper.Values; }
    }
  }

  lemma CmdsOneMore(fs: seq<Sent>, one: Sent)
    ensures Cmds(fs + [one]) == Cmds(fs) + one.cmds
  {
    CmdsConcat(fs, [one]);
    assert Cmds([one]) == one.cmds;
  }

  lemma CollectOne(s: Store, r: RoomState, n: nat)
    requires n in r.oper && r.oper[n] < |s.frames|
    ensures var one := Sent(s.frames[r.oper[n]].id, Contents(s, r.oper[n]));
            Collect(s, r, n, n + 1) == [one]
  {
    assert Collect(s, r, n + 1, n + 1) == [];
  }

  lemma LoggedLog(s: Store, r: RoomState)
    requires StoreOk(s) && LogOk(s, r) && r.pending.Some?
    ensures var o := Logged(s, r); Log(o.store, o.room) == Log(s, r) + []
  {
    var o := Logged(s, r);
    var f, n := r.pending.value, r.frameId;
    hide Contents, Collect, Cmds, CmdsOk, PoolOk;
    var logged := Collect(s, r, 0, n);
    assert Collect(o.store, o.room, 0, n) == logged by {
      UntouchedBy(s, o.store, r.oper.Values);
      SameCollect(s, o.store, r, o.room, 0, n);
    }
    CollectSplit(o.store, o.room, 0, n, n + 1);
    CollectOne(o.store, o.room, n);
    assert Contents(o.store, f) == Contents(s, f) by { SameContents(s, o.store, f); }
    CmdsOneMore(logged, Sent(n, Contents(s, f)));
    var none: seq<int> := [];
    assert Log(s, r) == Cmds(logged) + Contents(s, f) && Log(o.store, o.room) == Cmds(logged) + Contents(s, f) + none;
  }

  /** Committing a frame changes no log: its commands move from the pending frame. */
  lemma CommitSteps(s: Store, r: RoomState, others: set<nat>)
    requires StoreOk(s) && Sane(s, r) && Apart(s, r, others)
    ensures var o := Commit(s, r); Steps(s, r, o.store, o.room, others, [])
  {
    hide StoreOk, Apart, Steps, Owns;
    var o := Open(s, r);
    OpenSteps(s, r, others);
    StepsGive(s, r, o.store, o.room, others, []);
    var l := Logged(o.store, o.room);
    LoggedSteps(o.store, o.room, others);
    StepsGive(o.store, o.room, l.store, l.room, others, []);
    FetchSteps(l.store, l.room, others);
    var none: seq<int> := [];
    assert none + none == none;
    StepsTrans(s, r, o.store, o.room, l.store, l.room, others, [], []);
    var c := Commit(s, r);
    StepsTrans(s, r, l.store, l.room, c.store, c.room, others, [], []);
  }

  /** Fields that carry no object. */
  lemma TimersStep(s: Store, r: RoomState, others: set<nat>, q: RoomState)
    requires StoreOk(s) && Apart(s, r, others) && q.oper == r.oper && q.pending == r.pending && q.frameId == r.frameId
    ensures Steps(s, r, s, q, others, [])
  {
    hide StoreOk, Collect, Cmds;
    SameCollect(s, s, r, q, 0, r.frameId);
    assert Log(s, q) == Log(s, r) && Log(s, r) + [] == Log(s, r);
  }

  lemma {:induction false} CatchUpSteps(s: Store, r: RoomState, others: set<nat>)
    requires StoreOk(s) && Sane(s, r) && Apart(s, r, others) && r.tick > 0
    ensures var o := CatchUp(s, r); Steps(s, r, o.store, o.room, others, [])
    decreases r.accMs
  {
    hide StoreOk, Apart, Steps, Commit;
    if r.accMs < r.tick {
      TimersStep(s, r, others, r);
    } else {
      var q := r.(accMs := r.accMs - r.tick);
      TimersStep(s, r, others, q);
      StepsGive(s, r, s, q, others, []);
      var c := Commit(s, q);
      CommitSteps(s, q, others);
      StepsGive(s, q, c.store, c.room, others, []);
      CatchUpSteps(c.store, c.room, others);
      var o := CatchUp(s, r);
      var none: seq<int> := [];
      assert none + none == none;
      StepsTrans(s, r, s, q, c.store, c.room, others, [], []);
      StepsTrans(s, r, c.store, c.room, o.store, o.room, others, [], []);
    }
  }

  lemma UpdateSteps(s: Store, r: RoomState, others: set<nat>, ms: nat)
    requires StoreOk(s) && Sane(s, r) && Apart(s, r, others) && r.tick > 0
    ensures var u := Update(s, r, ms); Steps(s, r, u.store, u.room, others, [])
  {
    hide StoreOk, Apart, Steps, CatchUp;
    var u := Update(s, r, ms);
    var q := r.(accMs := U32(r.accMs + U32(ms - r.lastMs)), lastMs := ms);
    var o := CatchUp(s, q);
    if u.store == s && u.room.oper == r.oper && u.room.pending == r.pending && u.room.frameId == r.frameId {
      TimersStep(s, r, others, u.room);
    } else {
      TimersStep(s, r, others, q);
      StepsGive(s, r, s, q, others, []);
      CatchUpSteps(s, q, others);
      StepsGive(s, q, o.store, o.room, others, []);
      TimersStep(o.store, o.room, others, u.room);
      var none: seq<int> := [];
      assert none + none == none;
      StepsTrans(s, r, s, q, o.store, o.room, others, [], []);
      StepsTrans(s, r, o.store, o.room, u.store, u.room, others, [], []);
    }
  }

  // ---------------------------------------------------------------- what players receive

  /** Taking a frame from the pool leaves every frame in use as it is. */
  lemma FetchLeaves(s: Store, fs: set<nat>)
    requires StoreOk(s) && Handles(s) && InUse(s, fs)
    ensures var f := FetchFrame(s);
            && Untouched(s, f.store, fs) && InUse(f.store, fs) && Contents(f.store, f.h) == [] && f.h !in fs
            && forall g :: g in fs ==> g < |s.frames| && f.store.frames[g] == s.frames[g]
  {
    FetchFrameKeeps(s);
    UntouchedBy(s, FetchFrame(s).store, fs);
  }

  lemma OpenLeaves(s: Store, r: RoomState)
    requires StoreOk(s) && Sane(s, r) && Apart(s, r, {})
    ensures var o := Open(s, r); Untouched(s, o.store, Held(r))
  {
    if r.pending.None? { FetchLeaves(s, Held(r)); }
  }

  lemma LoggedLeaves(s: Store, r: RoomState)
    requires StoreOk(s) && Sane(s, r) && Apart(s, r, {}) && r.pending.Some?
    ensures var l := Logged(s, r);
            && Untouched(s, l.store, r.oper.Values)
            && Contents(l.store, r.pending.value) == Contents(s, r.pending.value)
  {
    var l := Logged(s, r);
    UntouchedBy(s, l.store, r.oper.Values);
    SameContents(s, l.store, r.pending.value);
  }

  lemma UntouchedTrans(s: Store, t: Store, u: Store, fs: set<nat>, some: set<nat>)
    requires Untouched(s, t, fs) && Untouched(t, u, some) && fs <= some
    ensures Untouched(s, u, fs)
  { }

  lemma LoggedValues(s: Store, r: RoomState)
    requires LogOk(s, r) && r.pending.Some?
    ensures var l := Logged(s, r);
            l.room.oper.Values == r.oper.Values + {r.pending.value} == Held(l.room) && r.oper.Values <= Held(r)
  {
    var l := Logged(s, r);
    forall h ensures h in l.room.oper.Values <==> h in r.oper.Values + {r.pending.value} {
      if h in r.oper.Values {
        var k :| k in r.oper && r.oper[k] == h;
        assert k != r.frameId && l.room.oper[k] == h;
      }
      if h == r.pending.value { assert l.room.oper[r.frameId] == h; }
    }
  }

  lemma ApartGives(s: Store, r: RoomState)
    requires Apart(s, r, {})
    ensures LogOk(s, r) && InUse(s, Held(r)) && r.oper.Values <= Held(r)
  { }

  /** A commit broadcasts the frame that enters the log, and changes no earlier one. */
  lemma CommitLeaves(s: Store, r: RoomState)
    requires StoreOk(s) && Sane(s, r) && Apart(s, r, {})
    ensures var c := Commit(s, r);
            && Untouched(s, c.store, r.oper.Values) && c.room.oper == r.oper[r.frameId := c.room.oper[r.frameId]]
            && r.oper.Values <= c.room.oper.Values
            && Collect(c.store, c.room, r.frameId, r.frameId + 1) == [NextSent(s, r)]
  {
    hide StoreOk, Apart, Steps, LogOk, InUse, Held, Contents, Collect;
    var o := Open(s, r);
    OpenLeaves(s, r);
    OpenSteps(s, r, {});
    StepsGive(s, r, o.store, o.room, {}, []);
    ApartGives(s, r);
    ApartGives(o.store, o.room);
    var l := Logged(o.store, o.room);
    LoggedLeaves(o.store, o.room);
    LoggedSteps(o.store, o.room, {});
    StepsGive(o.store, o.room, l.store, l.room, {}, []);
    LoggedValues(o.store, o.room);
    ApartGives(l.store, l.room);
    FetchLeaves(l.store, l.room.oper.Values);
    var c := Commit(s, r);
    CollectOne(c.store, c.room, r.frameId);
    hide Untouched;
    UntouchedTrans(s, o.store, l.store, r.oper.Values, r.oper.Values) by {
      UntouchedLess(s, o.store, Held(r), r.oper.Values);
    }
    UntouchedTrans(s, l.store, c.store, r.oper.Values, l.room.oper.Values);
  }

  lemma UntouchedLess(s: Store, t: Store, fs: set<nat>, few: set<nat>)
    requires Untouched(s, t, fs) && few <= fs
    ensures Untouched(s, t, few)
  { }

  /** One turn of the catch-up loop. */
  lemma BroadcastTurn(s: Store, r: RoomState)
    requires StoreOk(s) && Sane(s, r) && Apart(s, r, {}) && r.accMs >= r.tick > 0
    ensures var q := r.(accMs := r.accMs - r.tick);
            Sane(s, q) && var c := Commit(s, q);
            && StoreOk(c.store) && Apart(c.store, c.room, {}) && LogOk(s, r)
            && c.room.oper == r.oper[r.frameId := c.room.oper[r.frameId]] && r.oper.Values <= c.room.oper.Values
            && Untouched(s, c.store, r.oper.Values)
            && Collect(c.store, c.room, r.frameId, r.frameId + 1) == [NextSent(s, q)]
  {
    hide StoreOk, Apart, Steps, Contents, NextSent, Commit, Untouched, KeepsKeys, LogOk, Held, InUse, Collect;
    var q := r.(accMs := r.accMs - r.tick);
    ApartGives(s, r);
    TimersStep(s, r, {}, q);
    StepsGive(s, r, s, q, {}, []);
    CommitLeaves(s, q);
    CommitSteps(s, q, {});
    StepsGive(s, q, Commit(s, q).store, Commit(s, q).room, {}, []);
  }

  /** What an update broadcasts to the players is exactly the part of the log it adds, and the
      frames already in the log never change: every player can replay the log. */
  lemma {:induction false} BroadcastIsLog(s: Store, r: RoomState)
    requires StoreOk(s) && Sane(s, r) && Apart(s, r, {}) && r.tick > 0
    ensures var o := CatchUp(s, r);
            && r.frameId <= o.room.frameId && CatchUpSent(s, r) == Collect(o.store, o.room, r.frameId, o.room.frameId)
            && Untouched(s, o.store, r.oper.Values) && KeepsKeys(r, o.room)
    decreases r.accMs
  {
    hide StoreOk, Apart, Contents, NextSent, Commit, Untouched, KeepsKeys, LogOk;
    if r.accMs >= r.tick {
      var q := r.(accMs := r.accMs - r.tick);
      BroadcastTurn(s, r);
      var c, o := Commit(s, q), CatchUp(s, r);
      BroadcastIsLog(c.store, c.room);
      KeysTrans(s, r, c.room, o.room);
      SentSoFar(c.store, c.room, o.store, o.room, r.frameId, NextSent(s, q));
      UntouchedTrans(s, c.store, o.store, r.oper.Values, c.room.oper.Values);
    } else {
      UntouchedSelf(s, r.oper.Values);
      KeysSelf(r);
    }
  }

  ghost predicate KeepsKeys(r: RoomState, q: RoomState) {
    forall k :: k in r.oper ==> k in q.oper && q.oper[k] == r.oper[k]
  }

  lemma KeysSelf(r: RoomState)
    ensures KeepsKeys(r, r)
  { }

  lemma KeysTrans(s: Store, r: RoomState, p: RoomState, q: RoomState)
    requires LogOk(s, r) && r.frameId in p.oper && p.oper == r.oper[r.frameId := p.oper[r.frameId]] && KeepsKeys(p, q)
    ensures KeepsKeys(r, q)
  {
    forall k | k in r.oper ensures k in q.oper && q.oper[k] == r.oper[k] {
      assert k in p.oper && p.oper[k] == r.oper[k];
    }
  }

  lemma UntouchedSelf(s: Store, fs: set<nat>)
    ensures Untouched(s, s, fs)
  { }

  lemma SentSoFar(s: Store, r: RoomState, t: Store, q: RoomState, n: nat, first: Sent)
    requires r.frameId == n + 1 <= q.frameId && Sane(s, r) && Untouched(s, t, r.oper.Values)
    requires KeepsKeys(r, q)
    requires n in r.oper && Collect(s, r, n, n + 1) == [first]
    ensures Collect(t, q, n, q.frameId) == [first] + Collect(t, q, n + 1, q.frameId)
  {
    CollectSplit(t, q, n, n + 1, q.frameId);
    SameCollect(s, t, r, q, n, n + 1);
  }

  lemma UpdateBroadcasts(s: Store, r: RoomState, ms: nat)
    requires StoreOk(s) && Sane(s, r) && Apart(s, r, {}) && r.tick > 0
    ensures var u := Update(s, r, ms);
            && UpdateSent(s, r, ms) == Collect(u.store, u.room, r.frameId, u.room.frameId)
            && Untouched(s, u.store, r.oper.Values) && KeepsKeys(r, u.room)
  {
    hide CatchUp, CatchUpSent, StoreOk, Apart, Untouched, Contents, Steps;
    var u := Update(s, r, ms);
    if r.gateOver || !r.run || r.rids == map[] || r.lastMs == 0 {
      UntouchedSelf(s, r.oper.Values);
    } else {
      var q := r.(accMs := U32(r.accMs + U32(ms - r.lastMs)), lastMs := ms);
      TimersStep(s, r, {}, q);
      StepsGive(s, r, s, q, {}, []);
      BroadcastIsLog(s, q);
      var o := CatchUp(s, q);
      SameLog(o.store, o.room, u.room, r.frameId, o.room.frameId);
    }
  }

  lemma {:induction false} SameLog(s: Store, r: RoomState, q: RoomState, from: nat, to: nat)
    requires q.oper == r.oper
    ensures Collect(s, q, from, to) == Collect(s, r, from, to)
    decreases if from < to then to - from else 0
  {
    if from < to { SameLog(s, r, q, from + 1, to); }
  }

  // ---------------------------------------------------------------- the end of a room

  lemma NoDupConcat(a: seq<nat>, b: seq<nat>)
    requires NoDup(a) && NoDup(b) && forall x :: x in a ==> x !in b
    ensures NoDup(a + b)
  {
    forall i, j | 0 <= i < j < |a + b| ensures (a + b)[i] != (a + b)[j] {
      if i < |a| <= j { assert a[i] in a && b[j - |a|] in b; }
    }
  }

  lemma {:induction false} ReverseSame(xs: seq<nat>)
    ensures NoDup(xs) ==> NoDup(Reverse(xs))
    ensures forall x :: x in Reverse(xs) <==> x in xs
  {
    if xs != [] {
      var n := |xs| - 1;
      ReverseSame(xs[..n]);
      assert xs == xs[..n] + [xs[n]];
      if NoDup(xs) { NoDupConcat([xs[n]], Reverse(xs[..n])); }
    }
  }

  /** Giving a frame object back empties it into the pools and touches nothing else. */
  lemma RecycleKeeps(s: Store, f: nat, others: set<nat>)
    requires StoreOk(s) && f < |s.frames| && f !in s.pool2001 && f !in others && InUse(s, others)
    ensures var t := RecycleFrame(s, f);
            && StoreOk(t) && InUse(t, others) && Untouched(s, t, others)
            && (forall c :: c in s.frames[f].cmds ==> c in t.pool) && f in t.pool2001
  {
    var t := RecycleFrame(s, f);
    ReverseSame(s.frames[f].cmds);
    assert forall g: nat, x: nat :: Owns(t, g, x) <==> Owns(s, g, x) && g != f;
    assert forall x :: x in s.frames[f].cmds ==> Owns(s, f, x);
    assert forall x :: x in t.pool <==> x in s.pool || x in s.frames[f].cmds;
    NoDupConcat(s.pool, Reverse(s.frames[f].cmds));
    UntouchedBy(s, t, others);
  }

  lemma LoggedFrame(s: Store, r: RoomState, others: set<nat>, k: nat)
    requires Apart(s, r, others) && k < r.frameId
    ensures k in r.oper && r.oper[k] in r.oper.Values && r.oper[k] !in others && r.oper[k] < |s.frames|
    ensures InUse(s, others) && forall j :: 0 <= j < r.frameId && j != k ==> j in r.oper && r.oper[j] != r.oper[k]
  {
    assert r.oper[k] in r.oper.Values;
  }

  lemma NothingPooled(s: Store, r: RoomState, others: set<nat>)
    requires Apart(s, r, others)
    ensures InUse(s, others) && forall k :: 0 <= k < r.frameId ==> k in r.oper && r.oper[k] !in s.pool2001
  {
    forall k | 0 <= k < r.frameId ensures r.oper[k] !in s.pool2001 { assert r.oper[k] in r.oper.Values; }
  }

  lemma RecycledPool(s: Store, f: nat)
    requires f < |s.frames|
    ensures var t := RecycleFrame(s, f);
            |t.frames| == |s.frames| && forall x :: x in t.pool2001 <==> x in s.pool2001 || x == f
  { }

  /** `Finnal` gives back every frame of the log and nothing the other rooms use. */
  lemma {:induction false} RecycledKeeps(s: Store, r: RoomState, others: set<nat>, n: nat)
    requires StoreOk(s) && Apart(s, r, others) && n <= r.frameId
    ensures var t := Recycled(s, r, n);
            && StoreOk(t) && InUse(t, others) && Untouched(s, t, others)
            && (forall k :: n <= k < r.frameId ==> r.oper[k] !in t.pool2001)
            && (forall k :: 0 <= k < n ==> r.oper[k] in t.pool2001)
  {
    hide StoreOk, InUse, Untouched, Contents, RecycleFrame;
    if n > 0 {
      RecycledKeeps(s, r, others, n - 1);
      var t := Recycled(s, r, n - 1);
      var f := r.oper[n - 1];
      LoggedFrame(s, r, others, n - 1);
      RecycleKeeps(t, f, others);
      RecycledPool(t, f);
      UntouchedTrans(s, t, RecycleFrame(t, f), others, others);
    } else {
      UntouchedSelf(s, others);
      NothingPooled(s, r, others);
    }
  }

  // ---------------------------------------------------------------- the frame clock

  /** A series of updates. */
  function UpdateAll(s: Store, r: RoomState, times: seq<nat>): (u: Updating)
    requires Sane(s, r) && r.tick > 0
    ensures Sane(u.store, u.room) && u.room.tick == r.tick
    decreases |times|
  {
    if times == [] then Updating(s, r, false)
    else
      var u := UpdateAll(s, r, times[..|times| - 1]);
      Update(u.store, u.room, times[|times| - 1])
  }

  /** The roles that play; the others watch. */
  ghost function Playing(r: RoomState): set<nat> {
    set x | x in r.rids && r.rids[x] <= 1
  }

  ghost function PlayingUpTo(r: RoomState, rid: nat): set<nat> {
    set x | x in r.rids && r.rids[x] <= 1 && x <= rid
  }

  lemma FewerRoles(a: set<nat>, b: set<nat>)
    requires a <= b
    ensures |a| <= |b| && (a != b ==> |a| < |b|)
  {
    assert b == a + (b - a);
    if a != b { assert b - a != {}; }
  }

  /** The index of a playing role is its rank: at least 1, at most the number of playing roles, and
      greater for a greater role. */
  lemma IndexIsRank(r: RoomState, a: nat, b: nat)
    requires a in Playing(r) && b in Playing(r)
    ensures 1 <= PIdx(r, a) <= |Playing(r)|
    ensures a < b <==> PIdx(r, a) < PIdx(r, b)
  {
    var up, down := PlayingUpTo(r, a), PlayingUpTo(r, b);
    assert a in up && b in down && PIdx(r, a) == |up| && PIdx(r, b) == |down|;
    FewerRoles({a}, up);
    FewerRoles(up, Playing(r));
    if a < b {
      assert b !in up;
      FewerRoles(up, down);
    } else {
      FewerRoles(down, up);
    }
  }

  /** The server's command: its kind in the low byte, then the index of the role, then whether the
      player enters (1) or leaves (0). */
  lemma ServerCommand(r: RoomState, rid: nat, param: nat)
    requires PIdx(r, rid) < 256 && param < 65536
    ensures var d := SvrData(r, rid, param); d % 256 == 15 && d / 256 % 256 == PIdx(r, rid) && d / 65536 == param
  { }

  /** Running, populated, and nobody has called `Over`. */
  ghost predicate Running(r: RoomState) {
    r.run && !r.gateOver && r.rids != map[] && r.endFrame == NO_END
  }

  /** How many whole ticks fit, and what is left over. */
  function Ticks(time: nat, tick: nat): nat requires tick > 0 { time / tick }

  function Left(time: nat, tick: nat): nat requires tick > 0 { time % tick }

  lemma DivUnique(a: nat, b: nat, q: nat, r: nat)
    requires b > 0 && a == q * b + r && r < b
    ensures Ticks(a, b) == q && Left(a, b) == r
  {
    var q', r' := a / b, a % b;
    assert a == q' * b + r';
    if q' < q { MulMono(q' + 1, q, b); } else if q < q' { MulMono(q + 1, q', b); }
  }

  lemma TicksLeft(a: nat, b: nat)
    requires b > 0
    ensures a == Ticks(a, b) * b + Left(a, b) && Left(a, b) < b
  { }

  lemma Distribute(x: nat, y: nat, b: nat)
    ensures (x + y) * b == x * b + y * b
  { }

  lemma TicksStep(a: nat, b: nat)
    requires b > 0
    ensures a < b ==> Ticks(a, b) == 0 && Left(a, b) == a
    ensures a >= b ==> Ticks(a, b) == 1 + Ticks(a - b, b) && Left(a, b) == Left(a - b, b)
  {
    hide Ticks, Left;
    if a < b {
      DivUnique(a, b, 0, a);
    } else {
      TicksLeft(a - b, b);
      Distribute(1, Ticks(a - b, b), b);
      DivUnique(a, b, 1 + Ticks(a - b, b), Left(a - b, b));
    }
  }

  /** What is left over plus more time divides like the whole. */
  lemma TicksAdd(a: nat, d: nat, b: nat)
    requires b > 0
    ensures Ticks(a + d, b) == Ticks(a, b) + Ticks(Left(a, b) + d, b) && Left(a + d, b) == Left(Left(a, b) + d, b)
    ensures Left(a, b) <= a
  {
    hide Ticks, Left;
    var e := Left(a, b) + d;
    TicksLeft(a, b);
    TicksLeft(e, b);
    Distribute(Ticks(a, b), Ticks(e, b), b);
    DivUnique(a + d, b, Ticks(a, b) + Ticks(e, b), Left(e, b));
    MulMono(0, Ticks(a, b), b);
  }

  /** The catch-up loop commits one frame per whole tick and keeps the remainder. */
  lemma {:induction false} CatchUpClock(s: Store, r: RoomState)
    requires Sane(s, r) && r.tick > 0
    ensures var q := CatchUp(s, r).room;
            && q.frameId == r.frameId + Ticks(r.accMs, r.tick) && q.accMs == Left(r.accMs, r.tick)
            && q == r.(frameId := q.frameId, accMs := q.accMs, pending := q.pending, oper := q.oper)
    decreases r.accMs
  {
    hide Ticks, Left, Commit;
    TicksStep(r.accMs, r.tick);
    if r.accMs >= r.tick {
      var c := Commit(s, r.(accMs := r.accMs - r.tick));
      CatchUpClock(c.store, c.room);
    }
  }

  /** Since the first update at `t0`, whatever the spacing of the others: the frame number
      has grown by the number of whole ticks, and `m_accMs` is the time left over. */
  ghost predicate OnClock(r: RoomState, start: nat, t0: nat) {
    && r.tick > 0 && 0 < t0 <= r.lastMs < TWO32
    && r.frameId == start + Ticks(r.lastMs - t0, r.tick) && r.accMs == Left(r.lastMs - t0, r.tick)
  }

  lemma UpdateClock(s: Store, r: RoomState, ms: nat, start: nat, t0: nat)
    requires Sane(s, r) && r.tick > 0 && Running(r) && OnClock(r, start, t0) && r.lastMs <= ms < TWO32
    ensures var u := Update(s, r, ms); !u.over && Running(u.room) && u.room.lastMs == ms && OnClock(u.room, start, t0)
  {
    hide Ticks, Left, U32, CatchUp;
    var a, d := r.lastMs - t0, ms - r.lastMs;
    TicksAdd(a, d, r.tick);
    U32Small(d);
    U32Small(r.accMs + d);
    CatchUpClock(s, r.(accMs := r.accMs + d, lastMs := ms));
  }

  lemma {:induction false} FrameClock(s: Store, r: RoomState, times: seq<nat>)
    requires Sane(s, r) && r.tick > 0 && Running(r) && r.lastMs == 0 && times != []
    requires forall i :: 0 <= i < |times| ==> 0 < times[i] < TWO32
    requires forall i :: 0 < i < |times| ==> times[i - 1] <= times[i]
    ensures var u := UpdateAll(s, r, times);
            !u.over && Running(u.room) && u.room.lastMs == times[|times| - 1] && OnClock(u.room, r.frameId, times[0])
    decreases |times|
  {
    var n := |times| - 1;
    if n == 0 {
      assert UpdateAll(s, r, times[..0]) == Updating(s, r, false);
      TicksStep(0, r.tick);
    } else {
      FrameClock(s, r, times[..n]);
      var u := UpdateAll(s, r, times[..n]);
      UpdateClock(u.store, u.room, times[n], r.frameId, times[0]);
    }
  }

  // ---------------------------------------------------------------- where every object is

  /** A frame object that is neither free nor held by this room. */
  ghost predicate Elsewhere(s: Store, r: RoomState, f: nat) {
    f < |s.frames| && f !in s.pool2001 && f !in Held(r)
  }

  /** A step of one room moves frame objects only between the pool and the room. */
  ghost predicate SameElsewhere(s: Store, r: RoomState, t: Store, q: RoomState) {
    forall f: nat :: Elsewhere(t, q, f) <==> Elsewhere(s, r, f)
  }

  /** Every command object is free or in a frame. */
  ghost predicate NoStray(s: Store) {
    forall c: nat :: c < |s.cmds| ==> c in s.pool || exists f: nat :: Owns(s, f, c)
  }

  /** What a step of one room keeps of the whereabouts of objects. */
  ghost predicate Accounts(s: Store, r: RoomState, t: Store, q: RoomState) {
    SameElsewhere(s, r, t, q) && NoStray(t)
  }

  lemma AccountsTrans(s: Store, r: RoomState, t: Store, q: RoomState, u: Store, p: RoomState)
    requires Accounts(s, r, t, q) && Accounts(t, q, u, p)
    ensures Accounts(s, r, u, p)
  {
    hide Elsewhere, NoStray;
  }

  lemma OpenAccounts(s: Store, r: RoomState, others: set<nat>)
    requires StoreOk(s) && Sane(s, r) && Apart(s, r, others) && NoStray(s)
    ensures var o := Open(s, r); Accounts(s, r, o.store, o.room)
  {
    if r.pending.None? { FetchAccounts(s, r); }
  }

  lemma FetchAccounts(s: Store, r: RoomState)
    requires StoreOk(s) && Handles(s) && InUse(s, Held(r)) && NoStray(s) && r.pending.None?
    ensures var f := FetchFrame(s); Accounts(s, r, f.store, r.(pending := Some(f.h)))
  {
    var f := FetchFrame(s);
    FetchFrameKeeps(s);
    forall g: nat ensures Elsewhere(f.store, r.(pending := Some(f.h)), g) <==> Elsewhere(s, r, g) {
      if s.pool2001 != [] && g != s.pool2001[0] { assert g in s.pool2001 <==> g in s.pool2001[1..]; }
    }
    forall c: nat | c < |f.store.cmds| && c !in f.store.pool ensures exists g: nat :: Owns(f.store, g, c) {
      var g: nat :| Owns(s, g, c);
      assert g != f.h;
      assert Owns(f.store, g, c);
    }
  }

  lemma AddCmdAccounts(s: Store, r: RoomState, others: set<nat>, data: int)
    requires StoreOk(s) && Sane(s, r) && Apart(s, r, others) && NoStray(s)
    ensures var a := AddCmd(s, r, data); Accounts(s, r, a.store, a.room)
  {
    var o, c, a := Open(s, r), FetchPt(s), AddCmd(s, r, data);
    OpenAccounts(s, r, others);
    AddCmdParts(s, r, data);
    hide StoreOk, Apart, AddCmd, Open, FetchPt, Elsewhere, NoStray, Sane, Held;
    AppendAccounts(o.store, o.room.pending.value, c.h, a.store);
    AppendElsewhere(o.store, o.room, a.store);
  }

  lemma AddCmdParts(s: Store, r: RoomState, data: int)
    requires Sane(s, r)
    ensures var o, c, a := Open(s, r), FetchPt(s), AddCmd(s, r, data);
            var f := o.room.pending.value;
            && a.room == o.room && f < |o.store.frames| && o.store.cmds == s.cmds && o.store.pool == s.pool
            && a.store.frames == o.store.frames[f := o.store.frames[f].(cmds := o.store.frames[f].cmds + [c.h])]
            && a.store.pool2001 == o.store.pool2001
            && |a.store.cmds| == |s.cmds| + (if s.pool == [] then 1 else 0)
            && if s.pool == [] then c.h == |s.cmds| && a.store.pool == []
               else c.h == s.pool[0] && a.store.pool == s.pool[1..]
  { }

  /** What was free before but is no longer has joined a frame. */
  lemma AppendAccounts(s: Store, f: nat, c: nat, t: Store)
    requires NoStray(s) && f < |s.frames| && |t.cmds| <= |s.cmds| + (if s.pool == [] then 1 else 0)
    requires t.frames == s.frames[f := s.frames[f].(cmds := s.frames[f].cmds + [c])]
    requires if s.pool == [] then c == |s.cmds| && t.pool == [] else c == s.pool[0] && t.pool == s.pool[1..]
    ensures NoStray(t)
  {
    forall x: nat | x < |t.cmds| && x !in t.pool ensures exists g: nat :: Owns(t, g, x) {
      if x == c {
        assert Owns(t, f, x);
      } else {
        assert x !in s.pool;
        var g: nat :| Owns(s, g, x);
        assert Owns(t, g, x);
      }
    }
  }

  lemma AppendElsewhere(s: Store, r: RoomState, t: Store)
    requires |t.frames| == |s.frames| && t.pool2001 == s.pool2001
    ensures SameElsewhere(s, r, t, r)
  { }

  lemma LoggedAccounts(s: Store, r: RoomState)
    requires LogOk(s, r) && r.pending.Some? && NoStray(s)
    ensures var l := Logged(s, r); Accounts(s, r, l.store, l.room)
  {
    var l := Logged(s, r);
    LoggedValues(s, r);
    assert Held(l.room) == Held(r);
    forall c: nat | c < |s.cmds| && c !in s.pool ensures exists f: nat :: Owns(l.store, f, c) {
      var f: nat :| Owns(s, f, c);
      assert Owns(l.store, f, c);
    }
  }

  lemma CommitAccounts(s: Store, r: RoomState, others: set<nat>)
    requires StoreOk(s) && Sane(s, r) && Apart(s, r, others) && NoStray(s)
    ensures var c := Commit(s, r); Accounts(s, r, c.store, c.room)
  {
    hide StoreOk, Apart, Steps, Accounts, LogOk, Held, InUse;
    var o := Open(s, r);
    OpenAccounts(s, r, others);
    OpenSteps(s, r, others);
    StepsGive(s, r, o.store, o.room, others, []);
    AccountsGive(s, r, o.store, o.room);
    ApartLog(o.store, o.room, others);
    var l := Logged(o.store, o.room);
    LoggedAccounts(o.store, o.room);
    AccountsGive(o.store, o.room, l.store, l.room);
    LoggedSteps(o.store, o.room, others);
    StepsGive(o.store, o.room, l.store, l.room, others, []);
    ApartLog(l.store, l.room, others);
    FetchAccounts(l.store, l.room);
    var c := Commit(s, r);
    AccountsTrans(s, r, o.store, o.room, l.store, l.room);
    AccountsTrans(s, r, l.store, l.room, c.store, c.room);
  }

  lemma ApartLog(s: Store, r: RoomState, others: set<nat>)
    requires Apart(s, r, others)
    ensures LogOk(s, r) && InUse(s, Held(r))
  { }

  lemma AccountsGive(s: Store, r: RoomState, t: Store, q: RoomState)
    requires Accounts(s, r, t, q)
    ensures NoStray(t)
  { }

  lemma {:induction false} CatchUpAccounts(s: Store, r: RoomState, others: set<nat>)
    requires StoreOk(s) && Sane(s, r) && Apart(s, r, others) && NoStray(s) && r.tick > 0
    ensures var o := CatchUp(s, r); Accounts(s, r, o.store, o.room)
    decreases r.accMs
  {
    hide StoreOk, Apart, Steps, Commit, NoStray;
    if r.accMs >= r.tick {
      var q := r.(accMs := r.accMs - r.tick);
      TimersStep(s, r, others, q);
      StepsGive(s, r, s, q, others, []);
      CommitAccounts(s, q, others);
      CommitSteps(s, q, others);
      var c := Commit(s, q);
      StepsGive(s, q, c.store, c.room, others, []);
      CatchUpAccounts(c.store, c.room, others);
      var o := CatchUp(s, r);
      AccountsTrans(s, q, c.store, c.room, o.store, o.room);
      assert forall f: nat :: Elsewhere(s, r, f) == Elsewhere(s, q, f);
    }
  }

  lemma UpdateAccounts(s: Store, r: RoomState, others: set<nat>, ms: nat)
    requires StoreOk(s) && Sane(s, r) && Apart(s, r, others) && NoStray(s) && r.tick > 0
    ensures var u := Update(s, r, ms); Accounts(s, r, u.store, u.room)
  {
    hide StoreOk, Apart, Steps, CatchUp, NoStray;
    var u := Update(s, r, ms);
    if !(r.gateOver || !r.run || r.rids == map[] || r.lastMs == 0) {
      var q := r.(accMs := U32(r.accMs + U32(ms - r.lastMs)), lastMs := ms);
      TimersStep(s, r, others, q);
      StepsGive(s, r, s, q, others, []);
      CatchUpAccounts(s, q, others);
      var o := CatchUp(s, q);
      assert forall f: nat :: Elsewhere(s, r, f) == Elsewhere(s, q, f);
      assert forall f: nat :: Elsewhere(u.store, u.room, f) == Elsewhere(o.store, o.room, f);
    }
  }

  /** Giving back a frame moves it and its commands to the pools, and no other object. */
  lemma RecycleAccounts(s: Store, f: nat)
    requires NoStray(s) && f < |s.frames|
    ensures var t := RecycleFrame(s, f);
            NoStray(t) && |t.frames| == |s.frames| && forall g: nat :: g in t.pool2001 <==> g in s.pool2001 || g == f
  {
    var t := RecycleFrame(s, f);
    ReverseSame(s.frames[f].cmds);
    forall c: nat | c < |t.cmds| && c !in t.pool ensures exists g: nat :: Owns(t, g, c) {
      var g: nat :| Owns(s, g, c);
      assert g != f;
      assert Owns(t, g, c);
    }
  }

  lemma {:induction false} RecycledAccounts(s: Store, r: RoomState, n: nat)
    requires NoStray(s) && n <= r.frameId && LogOk(s, r)
    ensures var t := Recycled(s, r, n);
            && NoStray(t) && |t.frames| == |s.frames|
            && forall g: nat :: g in t.pool2001 <==> g in s.pool2001 || exists k :: 0 <= k < n && r.oper[k] == g
  {
    if n > 0 {
      RecycledAccounts(s, r, n - 1);
      RecycleAccounts(Recycled(s, r, n - 1), r.oper[n - 1]);
    }
  }

  /** When a room ends, the frame objects of its log are free again and its pending one is not. */
  lemma FinalAccounts(s: Store, r: RoomState, others: set<nat>)
    requires StoreOk(s) && Apart(s, r, others) && NoStray(s)
    ensures var t := Recycled(s, r, r.frameId);
            && NoStray(t) && |t.frames| == |s.frames|
            && forall f: nat :: f < |t.frames| && f !in t.pool2001 <==> Elsewhere(s, r, f) || r.pending == Some(f)
  {
    RecycledAccounts(s, r, r.frameId);
    var t := Recycled(s, r, r.frameId);
    forall f: nat ensures f < |t.frames| && f !in t.pool2001 <==> Elsewhere(s, r, f) || r.pending == Some(f) {
      if f in r.oper.Values { var k :| k in r.oper && r.oper[k] == f; }
      if r.pending == Some(f) { assert f in Held(r); }
    }
  }

  // ---------------------------------------------------------------- what is left pending

  /** The commands of the pending frame. */
  ghost function Rest(s: Store, r: RoomState): seq<int> {
    if r.pending.Some? then Contents(s, r.pending.value) else []
  }

  lemma CommitPending(s: Store, r: RoomState)
    requires StoreOk(s) && Sane(s, r) && Apart(s, r, {})
    ensures var c := Commit(s, r); Rest(c.store, c.room) == []
  {
    hide StoreOk, Apart, Steps, LogOk, Held, Contents;
    var o := Open(s, r);
    OpenSteps(s, r, {});
    StepsGive(s, r, o.store, o.room, {}, []);
    var l := Logged(o.store, o.room);
    LoggedSteps(o.store, o.room, {});
    StepsGive(o.store, o.room, l.store, l.room, {}, []);
    FetchLeaves(l.store, {});
  }

  /** A catch-up loop that commits at least one frame leaves nothing pending. */
  lemma {:induction false} CatchUpPending(s: Store, r: RoomState)
    requires StoreOk(s) && Sane(s, r) && Apart(s, r, {}) && r.tick > 0 && (r.accMs >= r.tick || Rest(s, r) == [])
    ensures var o := CatchUp(s, r); Rest(o.store, o.room) == []
    decreases r.accMs
  {
    hide StoreOk, Apart, Steps, Commit, Rest;
    if r.accMs >= r.tick {
      var q := r.(accMs := r.accMs - r.tick);
      TimersStep(s, r, {}, q);
      StepsGive(s, r, s, q, {}, []);
      CommitPending(s, q);
      CommitSteps(s, q, {});
      var c := Commit(s, q);
      StepsGive(s, q, c.store, c.room, {}, []);
      CatchUpPending(c.store, c.room);
    }
  }

  /** Does this update commit a frame? */
  predicate Commits(r: RoomState, ms: nat) {
    !r.gateOver && r.run && r.rids != map[] && r.lastMs != 0 && U32(r.accMs + U32(ms - r.lastMs)) >= r.tick
  }

  /** After an update nothing is pending exactly when it commits a frame or nothing was. */
  lemma UpdatePending(s: Store, r: RoomState, ms: nat)
    requires StoreOk(s) && Sane(s, r) && Apart(s, r, {}) && r.tick > 0
    ensures var u := Update(s, r, ms); Rest(u.store, u.room) == [] <==> Commits(r, ms) || Rest(s, r) == []
  {
    hide StoreOk, Apart, Steps, CatchUp, Contents, U32;
    if !(r.gateOver || !r.run || r.rids == map[] || r.lastMs == 0) {
      var q := r.(accMs := U32(r.accMs + U32(ms - r.lastMs)), lastMs := ms);
      TimersStep(s, r, {}, q);
      StepsGive(s, r, s, q, {}, []);
      if q.accMs >= q.tick { CatchUpPending(s, q); } else { CatchUpIdle(s, q); }
    }
  }

  lemma CatchUpIdle(s: Store, r: RoomState)
    requires Sane(s, r) && 0 < r.tick && r.accMs < r.tick
    ensures CatchUp(s, r) == InRoom(s, r)
  { }
}
