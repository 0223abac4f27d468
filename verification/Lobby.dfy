/** All rooms of a server together, over any run. */
module Lobby {
  import opened Options
  import opened Serial
  import opened Room
  import opened Rooms

  /** What `Finnal` sends to the gate for one room. */
  datatype Record = Record(id: int, tick: nat, frames: seq<Sent>)

  /** The rooms, the queue of finished ones, the records sent, and, as history, the commands
      each room has accepted and the frame objects no list refers to any more. */
  datatype World = World(store: Store, rooms: map<int, RoomState>, finals: seq<int>, records: seq<Record>,
                         accepted: map<int, seq<int>>, lost: set<nat>)

  datatype Event =
    | Create(id: int)
    | EnterP(id: int, pid: int, rid: nat, camp: int, conn: Option<nat>)
    | LeaveP(id: int, rid: nat)
    | Command(id: int, pid: int, data: int)
    | SetReady(id: int)
    | SetTick(id: int, delta: nat)
    | EndRoom(id: int, force: bool)
    | TickRoom(id: int, ms: nat)
    | Finalize

  function Start(): World { World(Store([], [], [], []), map[], [], [], map[], {}) }

  function Put(w: World, id: int, s: Store, r: RoomState, more: seq<int>): World
    requires id in w.accepted
  {
    w.(store := s, rooms := w.rooms[id := r], accepted := w.accepted[id := w.accepted[id] + more])
  }

  /** `UpdateDelta` keeps the upper 16 bits. */
  function TickOf(delta: nat): nat { delta / 65536 % 65536 }

  /** A command can only reach an open room; a tick of 0 is excluded, and a finished room is
      no longer updated. */
  predicate Enabled(w: World, e: Event) {
    match e
    case Create(id) => id !in w.rooms
    case SetTick(id, delta) => id in w.rooms && TickOf(delta) > 0
    case TickRoom(id, ms) => id in w.rooms && id !in w.finals
    case Finalize => w.finals != [] && w.finals[0] in w.rooms
    case _ => e.id in w.rooms
  }

  ghost predicate RoomOk(w: World, id: int)
    requires id in w.rooms
  {
    Sane(w.store, w.rooms[id]) && w.rooms[id].tick > 0 && id in w.accepted
  }

  ghost predicate AllRoomOk(w: World) {
    forall id :: id in w.rooms ==> RoomOk(w, id)
  }

  /** The state after an event. */
  ghost function Apply(w: World, e: Event): World
    requires AllRoomOk(w) && Enabled(w, e)
  {
    match e
    case Create(id) =>
      w.(rooms := w.rooms[id := Fresh()], accepted := w.accepted[id := []])
    case EnterP(id, pid, rid, camp, conn) =>
      assert RoomOk(w, id);
      var o := Enter(w.store, w.rooms[id], pid, rid, camp, conn);
      Put(w, id, o.store, o.room, [SvrData(Entered(w.rooms[id], pid, rid, camp, conn), rid, 1)])
    case LeaveP(id, rid) =>
      assert RoomOk(w, id);
      var o := Leave(w.store, w.rooms[id], rid);
      Put(w, id, o.store, o.room, [SvrData(w.rooms[id], rid, 0)])
    case Command(id, pid, data) =>
      assert RoomOk(w, id);
      var o := FrameCmd(w.store, w.rooms[id], pid, data);
      Put(w, id, o.store, o.room, if pid in w.rooms[id].pids then [data] else [])
    case SetReady(id) =>
      assert RoomOk(w, id);
      Put(w, id, w.store, w.rooms[id].(run := true), [])
    case SetTick(id, delta) =>
      assert RoomOk(w, id);
      Put(w, id, w.store, w.rooms[id].(tick := TickOf(delta)), [])
    case EndRoom(id, force) =>
      assert RoomOk(w, id);
      Put(w, id, w.store, Over(w.rooms[id], force), [])
    case TickRoom(id, ms) =>
      assert RoomOk(w, id);
      var u := Update(w.store, w.rooms[id], ms);
      Put(w, id, u.store, u.room, []).(finals := if u.over then w.finals + [id] else w.finals)
    case Finalize =>
      var id := w.finals[0];
      assert RoomOk(w, id);
      var r := w.rooms[id];
      w.(store := Recycled(w.store, r, r.frameId), rooms := w.rooms - {id}, finals := w.finals[1..],
         records := w.records + [Record(id, r.tick, Collect(w.store, r, 0, r.frameId))],
         lost := w.lost + if r.pending.Some? then {r.pending.value} else {})
  }

  // ---------------------------------------------------------------- the invariant

  /** The frame objects of all rooms but one. */
  ghost function Others(rooms: map<int, RoomState>, id: int): set<nat> {
    set j, h | j in rooms && j != id && h in Held(rooms[j]) :: h
  }

  ghost predicate Kept(w: World, id: int)
    requires id in w.rooms
  {
    && Apart(w.store, w.rooms[id], Others(w.rooms, id)) && w.rooms[id].tick > 0
    && id in w.accepted && w.accepted[id] == Log(w.store, w.rooms[id])
  }

  /** No object is shared or free while in use, and every room's log is what it accepted. */
  ghost predicate Inv(w: World) {
    StoreOk(w.store) && forall id :: id in w.rooms ==> Kept(w, id)
  }

  lemma InvIsSane(w: World)
    requires Inv(w)
    ensures AllRoomOk(w)
  {
    forall id | id in w.rooms ensures RoomOk(w, id) {
      assert Kept(w, id);
      var r := w.rooms[id];
      forall k | k in r.oper ensures r.oper[k] < |w.store.frames| { assert r.oper[k] in Held(r); }
      forall i | 0 <= i < |w.store.pool| ensures w.store.pool[i] < |w.store.cmds| {
        assert w.store.pool[i] in w.store.pool;
      }
      forall i | 0 <= i < |w.store.pool2001| ensures w.store.pool2001[i] < |w.store.frames| {
        assert w.store.pool2001[i] in w.store.pool2001;
      }
    }
  }

  lemma HeldInOthers(rooms: map<int, RoomState>, id: int, j: int)
    requires j in rooms && j != id
    ensures Held(rooms[j]) <= Others(rooms, id)
  { }

  /** A room left alone by a step of another keeps its log and its objects. */
  lemma BystanderKept(w: World, v: World, id: int, j: int)
    requires Inv(w) && id in w.rooms && j in w.rooms && j != id && j in v.accepted
    requires v.rooms - {id} == w.rooms - {id}
    requires Untouched(w.store, v.store, Others(w.rooms, id)) && InUse(v.store, Others(w.rooms, id))
    requires id in v.rooms ==> Apart(v.store, v.rooms[id], Others(w.rooms, id))
    requires v.accepted[j] == w.accepted[j]
    ensures j in v.rooms && Kept(v, j)
  {
    hide CmdsOk, PoolOk, Collect, Cmds, Contents;
    assert j in w.rooms - {id};
    assert j in v.rooms - {id} && v.rooms[j] == (v.rooms - {id})[j] == (w.rooms - {id})[j] == w.rooms[j];
    var r := w.rooms[j];
    assert Kept(w, j);
    HeldInOthers(w.rooms, id, j);
    BystanderLog(w.store, v.store, r);
    forall h | h in Others(v.rooms, j) ensures h < |v.store.frames| && h !in v.store.pool2001 && h !in Held(r) {
      var i :| i in v.rooms && i != j && h in Held(v.rooms[i]);
      if i != id {
        assert i in v.rooms - {id} && v.rooms[i] == (v.rooms - {id})[i] == w.rooms[i];
        HeldInOthers(w.rooms, id, i);
        HeldInOthers(w.rooms, j, i);
      }
    }
  }

  lemma BystanderLog(s: Store, t: Store, r: RoomState)
    requires LogOk(s, r) && Untouched(s, t, Held(r))
    ensures LogOk(t, r) && Log(t, r) == Log(s, r)
  {
    forall k | 0 <= k < r.frameId ensures r.oper[k] < |t.frames| && t.frames[r.oper[k]].id == k {
      assert r.oper[k] in r.oper.Values;
    }
    SameCollect(s, t, r, r, 0, r.frameId);
  }

  lemma ApartInUse(s: Store, r: RoomState, others: set<nat>)
    requires Apart(s, r, others)
    ensures InUse(s, others)
  { }

  lemma SameOthers(rooms: map<int, RoomState>, id: int, r: RoomState)
    ensures Others(rooms[id := r], id) == Others(rooms, id)
  {
    hide Held;
    forall h: nat ensures h in Others(rooms[id := r], id) <==> h in Others(rooms, id) {
      assert forall j :: j in rooms && j != id ==> rooms[id := r][j] == rooms[j];
    }
  }

  /** A step of one room, seen from the whole server. */
  lemma RoomStepKeeps(w: World, id: int, s: Store, r: RoomState, more: seq<int>)
    requires Inv(w) && id in w.rooms && id in w.accepted && r.tick > 0
    requires Steps(w.store, w.rooms[id], s, r, Others(w.rooms, id), more)
    ensures Inv(Put(w, id, s, r, more))
  {
    hide StoreOk, Apart, Log, Untouched, Held;
    var v := Put(w, id, s, r, more);
    assert Kept(w, id);
    SameOthers(w.rooms, id, r);
    ApartInUse(s, r, Others(w.rooms, id));
    assert v.rooms - {id} == w.rooms - {id};
    hide Others, Steps;
    forall j | j in v.rooms ensures Kept(v, j) {
      if j != id {
        assert Kept(w, j);
        BystanderKept(w, v, id, j);
      }
    }
  }

  // ---------------------------------------------------------------- every event keeps it

  lemma CommandKeeps(w: World, id: int, r: RoomState, data: int)
    requires Inv(w) && id in w.rooms && id in w.accepted && Sane(w.store, w.rooms[id]) && Sane(w.store, r)
    requires r.oper == w.rooms[id].oper && r.pending == w.rooms[id].pending && r.frameId == w.rooms[id].frameId
             && r.tick > 0
    ensures var o := AddCmd(w.store, r, data); Inv(Put(w, id, o.store, o.room, [data]))
  {
    hide StoreOk, Apart, Steps, AddCmd;
    assert Kept(w, id);
    var others := Others(w.rooms, id);
    var r0 := w.rooms[id];
    TimersStep(w.store, r0, others, r);
    StepsGive(w.store, r0, w.store, r, others, []);
    var o := AddCmd(w.store, r, data);
    AddCmdSteps(w.store, r, others, data);
    AddCmdTick(w.store, r, data);
    StepsTrans(w.store, r0, w.store, r, o.store, o.room, others, [], [data]);
    var none: seq<int> := [];
    assert none + [data] == [data];
    RoomStepKeeps(w, id, o.store, o.room, [data]);
  }

  lemma AddCmdTick(s: Store, r: RoomState, data: int)
    requires Sane(s, r)
    ensures AddCmd(s, r, data).room == r.(pending := AddCmd(s, r, data).room.pending)
  { }

  lemma TimersKeep(w: World, id: int, r: RoomState)
    requires Inv(w) && id in w.rooms && id in w.accepted && r.tick > 0
    requires r.oper == w.rooms[id].oper && r.pending == w.rooms[id].pending && r.frameId == w.rooms[id].frameId
    ensures Inv(Put(w, id, w.store, r, []))
  {
    assert Kept(w, id);
    TimersStep(w.store, w.rooms[id], Others(w.rooms, id), r);
    RoomStepKeeps(w, id, w.store, r, []);
  }

  lemma NothingHappened(w: World, id: int)
    requires Inv(w) && id in w.rooms && id in w.accepted
    ensures Inv(Put(w, id, w.store, w.rooms[id], []))
  {
    assert Kept(w, id);
    TimersKeep(w, id, w.rooms[id]);
  }

  lemma UpdateKeeps(w: World, id: int, ms: nat)
    requires Inv(w) && id in w.rooms && RoomOk(w, id)
    ensures var u := Update(w.store, w.rooms[id], ms); Inv(Put(w, id, u.store, u.room, []))
  {
    hide StoreOk, Apart, Steps, Update;
    assert Kept(w, id);
    var u := Update(w.store, w.rooms[id], ms);
    UpdateSteps(w.store, w.rooms[id], Others(w.rooms, id), ms);
    RoomStepKeeps(w, id, u.store, u.room, []);
  }

  lemma CreateKeeps(w: World, id: int)
    requires Inv(w) && id !in w.rooms
    ensures Inv(w.(rooms := w.rooms[id := Fresh()], accepted := w.accepted[id := []]))
  {
    var v := w.(rooms := w.rooms[id := Fresh()], accepted := w.accepted[id := []]);
    assert Held(Fresh()) == {};
    forall j | j in v.rooms ensures Kept(v, j) {
      forall h: nat | h in Others(v.rooms, j) ensures h in Others(w.rooms, j) {
        var i :| i in v.rooms && i != j && h in Held(v.rooms[i]);
        assert i in w.rooms;
      }
      if j == id { OthersInUse(w, id); } else { assert Kept(w, j); }
    }
  }

  lemma OthersInUse(w: World, id: int)
    requires Inv(w)
    ensures InUse(w.store, Others(w.rooms, id))
  {
    forall h | h in Others(w.rooms, id) ensures h < |w.store.frames| && h !in w.store.pool2001 {
      var j :| j in w.rooms && j != id && h in Held(w.rooms[j]);
      assert Kept(w, j);
    }
  }

  lemma FinalizeKeeps(w: World, id: int)
    requires Inv(w) && id in w.rooms
    requires forall k :: k in w.rooms[id].oper ==> w.rooms[id].oper[k] < |w.store.frames|
    ensures Inv(w.(store := Recycled(w.store, w.rooms[id], w.rooms[id].frameId), rooms := w.rooms - {id}))
  {
    hide StoreOk, Recycled;
    var r := w.rooms[id];
    var v := w.(store := Recycled(w.store, r, r.frameId), rooms := w.rooms - {id});
    assert Kept(w, id);
    RecycledKeeps(w.store, r, Others(w.rooms, id), r.frameId);
    assert v.rooms - {id} == w.rooms - {id};
    forall j | j in v.rooms ensures Kept(v, j) {
      assert Kept(w, j);
      BystanderKept(w, v, id, j);
    }
  }

  lemma SameLobby(w: World, finals: seq<int>, records: seq<Record>, lost: set<nat>)
    requires Inv(w)
    ensures Inv(w.(finals := finals, records := records, lost := lost))
  {
    var v := w.(finals := finals, records := records, lost := lost);
    forall j | j in v.rooms ensures Kept(v, j) { assert Kept(w, j); }
  }

  /** Every event keeps the invariant. */
  lemma ApplyKeeps(w: World, e: Event)
    requires Inv(w) && AllRoomOk(w) && Enabled(w, e)
    ensures Inv(Apply(w, e))
  {
    hide Inv, AddCmd, Update, Recycled, Collect, Sane;
    match e
    case Create(id) => CreateKeeps(w, id);
    case EnterP(id, pid, rid, camp, conn) =>
      assert RoomOk(w, id);
      var r := Entered(w.rooms[id], pid, rid, camp, conn);
      assert Sane(w.store, r) by { SaneTimers(w.store, w.rooms[id], r); }
      CommandKeeps(w, id, r, SvrData(r, rid, 1));
    case LeaveP(id, rid) =>
      assert RoomOk(w, id);
      CommandKeeps(w, id, w.rooms[id], SvrData(w.rooms[id], rid, 0));
    case Command(id, pid, data) =>
      assert RoomOk(w, id);
      if pid in w.rooms[id].pids { CommandKeeps(w, id, w.rooms[id], data); } else { NothingHappened(w, id); }
    case SetReady(id) => assert RoomOk(w, id); TimersKeep(w, id, w.rooms[id].(run := true));
    case SetTick(id, delta) => assert RoomOk(w, id); TimersKeep(w, id, w.rooms[id].(tick := TickOf(delta)));
    case EndRoom(id, force) => assert RoomOk(w, id); TimersKeep(w, id, Over(w.rooms[id], force));
    case TickRoom(id, ms) =>
      assert RoomOk(w, id);
      UpdateKeeps(w, id, ms);
      var u := Update(w.store, w.rooms[id], ms);
      SameLobby(Put(w, id, u.store, u.room, []), if u.over then w.finals + [id] else w.finals, w.records, w.lost);
    case Finalize =>
      var id := w.finals[0];
      assert RoomOk(w, id);
      var r := w.rooms[id];
      SaneFrames(w.store, r);
      FinalizeKeeps(w, id);
      SameLobby(w.(store := Recycled(w.store, r, r.frameId), rooms := w.rooms - {id}), w.finals[1..],
                w.records + [Record(id, r.tick, Collect(w.store, r, 0, r.frameId))],
                w.lost + if r.pending.Some? then {r.pending.value} else {});
  }

  lemma SaneTimers(s: Store, r: RoomState, q: RoomState)
    requires Sane(s, r) && q.oper == r.oper && q.pending == r.pending
    ensures Sane(s, q)
  { }

  lemma SaneFrames(s: Store, r: RoomState)
    requires Sane(s, r)
    ensures forall k :: k in r.oper ==> r.oper[k] < |s.frames|
  { }

  // ---------------------------------------------------------------- runs

  /** A series of events is a run when each is enabled. */
  ghost predicate IsRun(es: seq<Event>)
    decreases |es|, 0
  {
    es != [] ==>
      var n := |es| - 1;
      IsRun(es[..n]) && Enabled(Exec(es[..n]), es[n])
  }

  ghost function Exec(es: seq<Event>): (w: World)
    requires IsRun(es)
    ensures Inv(w) && AllRoomOk(w)
    decreases |es|, 1
  {
    if es == [] then Start()
    else
      var n := |es| - 1;
      var w := Exec(es[..n]);
      ApplyKeeps(w, es[n]);
      InvIsSane(Apply(w, es[n]));
      Apply(w, es[n])
  }

  // ---------------------------------------------------------------- main results

  /** Command log conservation: in every run, for every open room, the commands of frames
      0..m_frameId-1 followed by those of the pending frame are the accepted ones, in order. */
  lemma LogConserved(es: seq<Event>, id: int)
    requires IsRun(es) && id in Exec(es).rooms
    ensures var w := Exec(es);
            var r := w.rooms[id];
            && id in w.accepted
            && w.accepted[id] == Cmds(Collect(w.store, r, 0, r.frameId))
                                 + (if r.pending.Some? then Contents(w.store, r.pending.value) else [])
            && (forall k :: k in r.oper <==> 0 <= k < r.frameId)
            && forall k :: 0 <= k < r.frameId ==> r.oper[k] < |w.store.frames| && w.store.frames[r.oper[k]].id == k
  {
    assert Kept(Exec(es), id);
  }

  /** Pool safety: in every run, a frame object some room refers to is in no pool and no other
      room refers to it, and neither does any of its commands lie in the pool or in another frame. */
  lemma PoolsApart(es: seq<Event>, id: int, j: int, f: nat, c: nat)
    requires IsRun(es) && id in Exec(es).rooms && j in Exec(es).rooms && f in Held(Exec(es).rooms[id])
    ensures var w := Exec(es);
            && f < |w.store.frames| && f !in w.store.pool2001 && (j != id ==> f !in Held(w.rooms[j]))
            && (c in w.store.frames[f].cmds ==> c !in w.store.pool && forall g: nat :: Owns(w.store, g, c) ==> g == f)
  {
    var w := Exec(es);
    assert Kept(w, id);
    if j != id { HeldInOthers(w.rooms, id, j); }
    if c in w.store.frames[f].cmds { assert Owns(w.store, f, c); }
  }

  /** The catch-up answer from frame `k` is the suffix of the log from `k`: one entry per
      frame, in order, with its number. */
  lemma {:induction false} CatchUpIsSuffix(s: Store, r: RoomState, k: nat)
    requires LogOk(s, r) && k <= r.frameId
    ensures var all, some := Collect(s, r, 0, r.frameId), Collect(s, r, k, r.frameId);
            && |all| == r.frameId && some == all[k..]
            && forall i :: 0 <= i < r.frameId ==> all[i] == Sent(i, Contents(s, r.oper[i]))
  {
    hide Contents, Collect;
    CollectSplit(s, r, 0, k, r.frameId);
    CollectLength(s, r, 0, k);
    CollectLength(s, r, 0, r.frameId);
    forall i | 0 <= i < r.frameId ensures Collect(s, r, 0, r.frameId)[i] == Sent(i, Contents(s, r.oper[i])) {
      CollectAt(s, r, 0, r.frameId, i);
    }
  }

  lemma {:induction false} CollectAt(s: Store, r: RoomState, from: nat, to: nat, i: nat)
    requires LogOk(s, r) && from + i < to <= r.frameId
    ensures |Collect(s, r, from, to)| == to - from
    ensures Collect(s, r, from, to)[i] == Sent(from + i, Contents(s, r.oper[from + i]))
    decreases i
  {
    hide Contents;
    CollectLength(s, r, from, to);
    if i > 0 { CollectAt(s, r, from + 1, to, i - 1); }
  }

  lemma {:induction false} CollectLength(s: Store, r: RoomState, from: nat, to: nat)
    requires LogOk(s, r) && from <= to <= r.frameId
    ensures |Collect(s, r, from, to)| == to - from
    decreases if from < to then to - from else 0
  {
    if from < to { CollectLength(s, r, from + 1, to); }
  }

  /** The final record of a room holds every frame; together with the commands still pending
      it is everything the room accepted, so it is the whole log exactly when none is pending. */
  lemma FinalRecord(es: seq<Event>)
    requires IsRun(es) && Enabled(Exec(es), Finalize)
    ensures var w := Exec(es);
            var id := w.finals[0];
            var r, records := w.rooms[id], Apply(w, Finalize).records;
            var rest := Rest(w.store, r);
            && records == w.records + [records[|w.records|]] && records[|w.records|].id == id
            && id in w.accepted && w.accepted[id] == Cmds(records[|w.records|].frames) + rest
            && (Cmds(records[|w.records|].frames) == w.accepted[id] <==> rest == [])
            && |records[|w.records|].frames| == r.frameId
  {
    var w := Exec(es);
    var id := w.finals[0];
    assert Kept(w, id);
    CollectLength(w.store, w.rooms[id], 0, w.rooms[id].frameId);
  }

  /** "The final record is the whole log" is false: a room ended by force right after a player
      entered leaves the server's command in the pending frame. */
  lemma FinalRecordCounterexample() returns (es: seq<Event>)
    ensures IsRun(es) && Enabled(Exec(es), Finalize)
    ensures var w := Apply(Exec(es), Finalize);
            var record := w.records[|w.records| - 1];
            record.id in w.accepted && Cmds(record.frames) != w.accepted[record.id]
  {
    hide Apply, Collect, Log, Cmds;
    var e0, e1, e2, e3 := Create(1), EnterP(1, 1, 1, 0, None), EndRoom(1, true), TickRoom(1, 5);
    RunMore([], e0);
    assert [] + [e0] == [e0];
    Created();
    RunMore([e0], e1);
    Entering(Exec([e0]), e1);
    RunMore([e0, e1], e2) by { assert [e0] + [e1] == [e0, e1]; }
    assert [e0] + [e1] == [e0, e1];
    Forcing(Exec([e0, e1]));
    RunMore([e0, e1, e2], e3) by { assert [e0, e1] + [e2] == [e0, e1, e2]; }
    assert [e0, e1] + [e2] == [e0, e1, e2];
    Ending(Exec([e0, e1, e2]), 5);
    es := [e0, e1, e2] + [e3];
    NothingLogged(Exec(es));
    FinalRecord(es);
  }

  lemma Created()
    ensures AllRoomOk(Start()) && Enabled(Start(), Create(1))
    ensures var v := Apply(Start(), Create(1));
            1 in v.rooms && v.rooms[1] == Fresh() && v.finals == [] && 1 in v.accepted && v.accepted[1] == []
  { }

  lemma Entering(w: World, e: Event)
    requires AllRoomOk(w) && e == EnterP(1, 1, 1, 0, None) && 1 in w.rooms && w.rooms[1] == Fresh() && w.finals == []
    requires 1 in w.accepted && w.accepted[1] == []
    ensures var v := Apply(w, e);
            1 in v.rooms && v.rooms[1].frameId == 0 && v.finals == [] && 1 in v.accepted && |v.accepted[1]| == 1
  {
    assert RoomOk(w, 1);
  }

  lemma Forcing(w: World)
    requires AllRoomOk(w) && 1 in w.rooms && w.rooms[1].frameId == 0 && w.finals == [] && 1 in w.accepted
             && |w.accepted[1]| == 1
    ensures var v := Apply(w, EndRoom(1, true));
            && 1 in v.rooms && v.rooms[1].frameId == 0 && v.rooms[1].gateOver
            && v.finals == [] && 1 in v.accepted && |v.accepted[1]| == 1
  {
    assert RoomOk(w, 1);
  }

  lemma Ending(w: World, ms: nat)
    requires AllRoomOk(w) && 1 in w.rooms && w.rooms[1].frameId == 0 && w.rooms[1].gateOver
    requires w.finals == [] && 1 in w.accepted && |w.accepted[1]| == 1
    ensures var v := Apply(w, TickRoom(1, ms));
            1 in v.rooms && v.rooms[1].frameId == 0 && v.finals == [1] && 1 in v.accepted && |v.accepted[1]| == 1
  {
    assert RoomOk(w, 1);
  }

  lemma NothingLogged(w: World)
    requires AllRoomOk(w) && Enabled(w, Finalize) && w.finals == [1] && w.rooms[1].frameId == 0
    ensures var records := Apply(w, Finalize).records;
            records != [] && records[|records| - 1].id == 1 && Cmds(records[|records| - 1].frames) == []
            && Apply(w, Finalize).accepted == w.accepted
  {
    assert RoomOk(w, 1);
  }

  /** One more event of a run. */
  lemma RunMore(es: seq<Event>, e: Event)
    requires IsRun(es) && Enabled(Exec(es), e)
    ensures IsRun(es + [e]) && Exec(es + [e]) == Apply(Exec(es), e)
  {
    assert (es + [e])[..|es|] == es;
  }

  // ---------------------------------------------------------------- from the end of a room to its record

  /** The room an event is for. */
  function Target(w: World, e: Event): int
    requires Enabled(w, e)
  {
    if e.Finalize? then w.finals[0] else e.id
  }

  /** Nothing about the room changed: its state, what it accepted, its pending commands. */
  ghost predicate SameRoom(w: World, v: World, id: int) {
    && id in w.rooms && id in v.rooms && v.rooms[id] == w.rooms[id]
    && id in w.accepted && id in v.accepted && v.accepted[id] == w.accepted[id]
    && Rest(v.store, v.rooms[id]) == Rest(w.store, w.rooms[id])
  }

  /** A command for one room leaves the frames of the others alone. */
  lemma CommandLeaves(w: World, id: int, r: RoomState, data: int)
    requires Inv(w) && id in w.rooms && Sane(w.store, r)
    requires r.oper == w.rooms[id].oper && r.pending == w.rooms[id].pending && r.frameId == w.rooms[id].frameId
    ensures Untouched(w.store, AddCmd(w.store, r, data).store, Others(w.rooms, id))
  {
    hide StoreOk, Apart, AddCmd, Untouched, Log;
    assert Kept(w, id);
    var others := Others(w.rooms, id);
    TimersStep(w.store, w.rooms[id], others, r);
    StepsGive(w.store, w.rooms[id], w.store, r, others, []);
    AddCmdSteps(w.store, r, others, data);
  }

  /** An event for one room leaves the frames of the others alone. */
  lemma EventLeaves(w: World, e: Event)
    requires Inv(w) && AllRoomOk(w) && Enabled(w, e)
    ensures Untouched(w.store, Apply(w, e).store, Others(w.rooms, Target(w, e)))
  {
    hide Inv, AddCmd, Update, Recycled, Collect, Sane, Untouched, Others;
    var id := Target(w, e);
    UntouchedSelf(w.store, Others(w.rooms, id));
    if !e.Create? { assert RoomOk(w, id); }
    match e
    case EnterP(_, pid, rid, camp, conn) =>
      var r := Entered(w.rooms[id], pid, rid, camp, conn);
      SaneTimers(w.store, w.rooms[id], r);
      CommandLeaves(w, id, r, SvrData(r, rid, 1));
    case LeaveP(_, rid) => CommandLeaves(w, id, w.rooms[id], SvrData(w.rooms[id], rid, 0));
    case Command(_, pid, data) => if pid in w.rooms[id].pids { CommandLeaves(w, id, w.rooms[id], data); }
    case TickRoom(_, ms) => UpdateLeaves(w, id, ms);
    case Finalize => FinalLeaves(w, id);
    case _ =>
  }

  lemma UpdateLeaves(w: World, id: int, ms: nat)
    requires Inv(w) && id in w.rooms && RoomOk(w, id)
    ensures Untouched(w.store, Update(w.store, w.rooms[id], ms).store, Others(w.rooms, id))
  {
    hide StoreOk, Apart, Update, Untouched, Log;
    assert Kept(w, id);
    UpdateSteps(w.store, w.rooms[id], Others(w.rooms, id), ms);
  }

  lemma FinalLeaves(w: World, id: int)
    requires Inv(w) && id in w.rooms && RoomOk(w, id)
    ensures Untouched(w.store, Recycled(w.store, w.rooms[id], w.rooms[id].frameId), Others(w.rooms, id))
  {
    hide StoreOk, Recycled, Untouched, Log;
    assert Kept(w, id);
    RecycledKeeps(w.store, w.rooms[id], Others(w.rooms, id), w.rooms[id].frameId);
  }

  /** An event for another room changes nothing about this one. */
  lemma BystanderSame(w: World, e: Event, id: int)
    requires Inv(w) && AllRoomOk(w) && Enabled(w, e) && id in w.rooms && Target(w, e) != id
    ensures SameRoom(w, Apply(w, e), id)
  {
    hide Inv, AddCmd, Update, Recycled, Collect, Sane, Contents;
    EventLeaves(w, e);
    HeldInOthers(w.rooms, Target(w, e), id);
    assert RoomOk(w, id);
    PendingHeld(w, id);
  }

  lemma PendingHeld(w: World, id: int)
    requires Inv(w) && id in w.rooms
    ensures var r := w.rooms[id]; r.pending.Some? ==> r.pending.value in Held(r) && r.pending.value < |w.store.frames|
  {
    assert Kept(w, id);
  }

  /** The room is in the queue of finished rooms, once. */
  ghost predicate Queued(finals: seq<int>, id: int) {
    multiset(finals)[id] == 1
  }

  /** One event while a room waits for its record: it still waits unchanged, or it is gone. */
  lemma WaitingStep(w: World, e: Event, id: int)
    requires Inv(w) && AllRoomOk(w) && Enabled(w, e) && (e.Finalize? || e.id != id)
    ensures id !in w.finals ==> id !in Apply(w, e).finals
    ensures id in w.rooms && Queued(w.finals, id) ==>
              id !in Apply(w, e).finals || (SameRoom(w, Apply(w, e), id) && Queued(Apply(w, e).finals, id))
  {
    hide Inv, AllRoomOk, Apply, SameRoom, Queued;
    FinalsAfter(w, e);
    if Queued(w.finals, id) {
      if e.Finalize? { QueuedLess(w.finals, id); } else { QueuedMore(w.finals, id, e.id); }
    }
    if id in w.rooms && Target(w, e) != id { BystanderSame(w, e, id); }
  }

  /** What an event does to the queue of finished rooms. */
  lemma FinalsAfter(w: World, e: Event)
    requires AllRoomOk(w) && Enabled(w, e)
    ensures var fs := Apply(w, e).finals;
            if e.Finalize? then fs == w.finals[1..] else fs == w.finals || fs == w.finals + [e.id]
  {
    hide AddCmd, Update, Recycled, Collect, Sane;
    if !e.Create? { assert RoomOk(w, Target(w, e)); }
  }

  lemma QueuedLess(finals: seq<int>, id: int)
    requires finals != [] && Queued(finals, id)
    ensures if finals[0] == id then id !in finals[1..] else Queued(finals[1..], id)
  {
    assert finals == [finals[0]] + finals[1..];
    assert multiset(finals[1..])[id] > 0 <==> id in finals[1..];
  }

  lemma QueuedMore(finals: seq<int>, id: int, x: int)
    requires Queued(finals, id) && x != id
    ensures Queued(finals + [x], id)
  { }

  lemma {:induction false} WaitingRun(es: seq<Event>, rest: seq<Event>, id: int)
    requires IsRun(es) && IsRun(es + rest) && id in Exec(es).rooms && id in Exec(es).accepted
    requires Queued(Exec(es).finals, id)
    requires forall e :: e in rest ==> e.Finalize? || e.id != id
    ensures id !in Exec(es + rest).finals
            || (SameRoom(Exec(es), Exec(es + rest), id) && Queued(Exec(es + rest).finals, id))
    decreases |rest|
  {
    hide Inv, AllRoomOk, Enabled, Apply, Queued, Rest;
    if rest == [] {
      assert es + rest == es;
    } else {
      var n := |rest| - 1;
      var all := es + rest;
      assert all[..|all| - 1] == es + rest[..n] && all[|all| - 1] == rest[n] && rest[n] in rest;
      WaitingRun(es, rest[..n], id);
      WaitingStep(Exec(es + rest[..n]), rest[n], id);
    }
  }

  /** When a tick ends a room: whatever happens to other rooms until its turn to be finished, its
      record is the whole log if and only if that tick commits a frame or no command was pending
      before it. */
  lemma FinalRecordAtTick(es: seq<Event>, id: int, ms: nat, rest: seq<Event>) returns (v: World, record: Record)
    requires IsRun(es) && Enabled(Exec(es), TickRoom(id, ms)) && IsRun(es + [TickRoom(id, ms)] + rest)
    requires id in Apply(Exec(es), TickRoom(id, ms)).finals && forall e :: e in rest ==> e.Finalize? || e.id != id
    requires var finals := Exec(es + [TickRoom(id, ms)] + rest).finals; finals != [] && finals[0] == id
    ensures v == Exec(es + [TickRoom(id, ms)] + rest) && Enabled(v, Finalize)
    ensures Apply(v, Finalize).records == v.records + [record] && record.id == id && id in v.accepted
    ensures Cmds(record.frames) == v.accepted[id] <==>
              Commits(Exec(es).rooms[id], ms) || Rest(Exec(es).store, Exec(es).rooms[id]) == []
  {
    hide Update, Collect, Commits, Contents, Rest;
    var w, e := Exec(es), TickRoom(id, ms);
    RunMore(es, e);
    var w1 := Apply(w, e);
    v := Exec(es + [e] + rest);
    TickEnds(w, id, ms);
    WaitingRun(es + [e], rest, id);
    FinalRecord(es + [e] + rest);
    record := Apply(v, Finalize).records[|v.records|];
  }

  /** The tick that ends a room: it joins the queue, and what is pending then. */
  lemma TickEnds(w: World, id: int, ms: nat)
    requires Inv(w) && AllRoomOk(w) && Enabled(w, TickRoom(id, ms)) && id in Apply(w, TickRoom(id, ms)).finals
    ensures var v := Apply(w, TickRoom(id, ms));
            && id in v.rooms && id in v.accepted && Queued(v.finals, id)
            && (Rest(v.store, v.rooms[id]) == [] <==> Commits(w.rooms[id], ms) || Rest(w.store, w.rooms[id]) == [])
  {
    hide Update, Collect, Commits, Contents, Rest;
    assert Kept(w, id) && RoomOk(w, id);
    var v := Apply(w, TickRoom(id, ms));
    assert v.finals == w.finals + [id] && v.finals[|w.finals|] == id;
    ApartAlone(w.store, w.rooms[id], Others(w.rooms, id));
    UpdatePending(w.store, w.rooms[id], ms);
  }

  lemma ApartAlone(s: Store, r: RoomState, others: set<nat>)
    requires Apart(s, r, others)
    ensures Apart(s, r, {})
  { }

  // ---------------------------------------------------------------- every object is somewhere

  ghost predicate HeldBySome(w: World, f: nat) {
    exists id :: id in w.rooms && f in Held(w.rooms[id])
  }

  /** Every frame object is free, held by a room or lost, and every command object is free or
      in a frame. */
  ghost predicate Accounted(w: World) {
    && NoStray(w.store)
    && (forall f: nat :: f in w.lost ==> f < |w.store.frames| && f !in w.store.pool2001 && !HeldBySome(w, f))
    && (forall f: nat :: f < |w.store.frames| ==> f in w.store.pool2001 || f in w.lost || HeldBySome(w, f))
  }

  /** For one room, what is elsewhere is lost or with another room. */
  lemma ElsewhereIs(w: World, id: int, f: nat)
    requires Inv(w) && Accounted(w) && id in w.rooms
    ensures Elsewhere(w.store, w.rooms[id], f) <==> f in w.lost || f in Others(w.rooms, id)
  {
    assert Kept(w, id);
    if f in Others(w.rooms, id) { OthersInUse(w, id); }
    if f in Held(w.rooms[id]) { assert HeldBySome(w, f); }
    if Elsewhere(w.store, w.rooms[id], f) && f !in w.lost {
      var j :| j in w.rooms && f in Held(w.rooms[j]);
    }
  }

  lemma RoomStepAccounts(w: World, id: int, s: Store, r: RoomState, more: seq<int>)
    requires Inv(w) && Accounted(w) && id in w.rooms && id in w.accepted && Accounts(w.store, w.rooms[id], s, r)
    ensures Accounted(Put(w, id, s, r, more))
  {
    hide NoStray, Inv;
    var v := Put(w, id, s, r, more);
    forall f: nat ensures HeldBySome(v, f) <==> f in Held(r) || f in Others(w.rooms, id) {
      if f in Held(r) { assert id in v.rooms && f in Held(v.rooms[id]); }
      if f in Others(w.rooms, id) {
        var j :| j in w.rooms && j != id && f in Held(w.rooms[j]);
        assert j in v.rooms && f in Held(v.rooms[j]);
      }
      if HeldBySome(v, f) {
        var j :| j in v.rooms && f in Held(v.rooms[j]);
        if j != id { assert j in w.rooms && w.rooms[j] == v.rooms[j]; }
      }
    }
    forall f: nat ensures Elsewhere(s, r, f) <==> f in w.lost || f in Others(w.rooms, id) {
      ElsewhereIs(w, id, f);
    }
  }

  lemma FinalizeAccounts(w: World)
    requires Inv(w) && AllRoomOk(w) && Accounted(w) && Enabled(w, Finalize)
    ensures Accounted(Apply(w, Finalize))
  {
    hide NoStray, StoreOk, Recycled, Collect;
    var id := w.finals[0];
    assert Kept(w, id) && RoomOk(w, id);
    var v, r := Apply(w, Finalize), w.rooms[id];
    FinalAccounts(w.store, r, Others(w.rooms, id));
    forall f: nat ensures HeldBySome(v, f) <==> f in Others(w.rooms, id) {
      if f in Others(w.rooms, id) {
        var j :| j in w.rooms && j != id && f in Held(w.rooms[j]);
        assert j in v.rooms && f in Held(v.rooms[j]);
      }
      if HeldBySome(v, f) {
        var j :| j in v.rooms && f in Held(v.rooms[j]);
        assert j in w.rooms && j != id && w.rooms[j] == v.rooms[j];
      }
    }
    forall f: nat ensures Elsewhere(w.store, r, f) <==> f in w.lost || f in Others(w.rooms, id) {
      ElsewhereIs(w, id, f);
    }
    if r.pending.Some? { assert r.pending.value in Held(r); }
  }

  lemma CreateAccounts(w: World, id: int)
    requires Accounted(w) && id !in w.rooms
    ensures Accounted(w.(rooms := w.rooms[id := Fresh()], accepted := w.accepted[id := []]))
  {
    var v := w.(rooms := w.rooms[id := Fresh()], accepted := w.accepted[id := []]);
    assert Held(Fresh()) == {};
    forall f: nat ensures HeldBySome(v, f) <==> HeldBySome(w, f) {
      if HeldBySome(w, f) {
        var j :| j in w.rooms && f in Held(w.rooms[j]);
        assert j in v.rooms && f in Held(v.rooms[j]);
      }
      if HeldBySome(v, f) {
        var j :| j in v.rooms && f in Held(v.rooms[j]);
        assert j in w.rooms && f in Held(w.rooms[j]);
      }
    }
  }

  lemma TimersAccount(w: World, id: int, r: RoomState)
    requires Inv(w) && Accounted(w) && id in w.rooms && id in w.accepted
    requires r.oper == w.rooms[id].oper && r.pending == w.rooms[id].pending
    ensures Accounted(Put(w, id, w.store, r, []))
  {
    hide Inv;
    assert Held(r) == Held(w.rooms[id]);
    RoomStepAccounts(w, id, w.store, r, []);
  }

  lemma CommandAccounts(w: World, id: int, r: RoomState, data: int)
    requires Inv(w) && Accounted(w) && id in w.rooms && id in w.accepted && Sane(w.store, w.rooms[id])
             && Sane(w.store, r)
    requires r.oper == w.rooms[id].oper && r.pending == w.rooms[id].pending && r.frameId == w.rooms[id].frameId
    ensures var o := AddCmd(w.store, r, data); Accounted(Put(w, id, o.store, o.room, [data]))
  {
    hide StoreOk, AddCmd, Steps, NoStray, Elsewhere;
    assert Kept(w, id);
    var others := Others(w.rooms, id);
    TimersStep(w.store, w.rooms[id], others, r);
    StepsGive(w.store, w.rooms[id], w.store, r, others, []);
    AddCmdAccounts(w.store, r, others, data);
    SameHeld(w.store, w.rooms[id], r);
    var o := AddCmd(w.store, r, data);
    AccountsTrans(w.store, w.rooms[id], w.store, r, o.store, o.room);
    RoomStepAccounts(w, id, o.store, o.room, [data]);
  }

  lemma SameHeld(s: Store, r: RoomState, q: RoomState)
    requires r.oper == q.oper && r.pending == q.pending && NoStray(s)
    ensures Accounts(s, r, s, q)
  {
    assert Held(q) == Held(r);
  }

  lemma TickAccounts(w: World, id: int, ms: nat)
    requires Inv(w) && Accounted(w) && id in w.rooms && RoomOk(w, id)
    ensures var u := Update(w.store, w.rooms[id], ms); Accounted(Put(w, id, u.store, u.room, []))
  {
    hide StoreOk, Apart, Update;
    assert Kept(w, id);
    var u := Update(w.store, w.rooms[id], ms);
    UpdateAccounts(w.store, w.rooms[id], Others(w.rooms, id), ms);
    RoomStepAccounts(w, id, u.store, u.room, []);
  }

  lemma ApplyAccounts(w: World, e: Event)
    requires Inv(w) && AllRoomOk(w) && Accounted(w) && Enabled(w, e)
    ensures Accounted(Apply(w, e))
  {
    hide Inv, AddCmd, Update, Recycled, Collect, Sane, NoStray;
    match e
    case Create(id) => CreateAccounts(w, id);
    case EnterP(id, pid, rid, camp, conn) =>
      assert RoomOk(w, id);
      var r := Entered(w.rooms[id], pid, rid, camp, conn);
      SaneTimers(w.store, w.rooms[id], r);
      CommandAccounts(w, id, r, SvrData(r, rid, 1));
    case LeaveP(id, rid) =>
      assert RoomOk(w, id);
      CommandAccounts(w, id, w.rooms[id], SvrData(w.rooms[id], rid, 0));
    case Command(id, pid, data) =>
      assert RoomOk(w, id);
      if pid in w.rooms[id].pids {
        CommandAccounts(w, id, w.rooms[id], data);
      } else {
        TimersAccount(w, id, w.rooms[id]);
      }
    case SetReady(id) => assert RoomOk(w, id); TimersAccount(w, id, w.rooms[id].(run := true));
    case SetTick(id, delta) => assert RoomOk(w, id); TimersAccount(w, id, w.rooms[id].(tick := TickOf(delta)));
    case EndRoom(id, force) => assert RoomOk(w, id); TimersAccount(w, id, Over(w.rooms[id], force));
    case TickRoom(id, ms) =>
      assert RoomOk(w, id);
      TickAccounts(w, id, ms);
      var u := Update(w.store, w.rooms[id], ms);
      assert forall f: nat :: HeldBySome(Apply(w, e), f) == HeldBySome(Put(w, id, u.store, u.room, []), f);
    case Finalize => FinalizeAccounts(w);
  }

  /** Object accounting: in every run, every frame object is in the pool, held by a room or was
      the pending frame of a room when it ended, never two of these, and every command object
      is in the pool or in a frame. */
  lemma {:induction false} ObjectsAccounted(es: seq<Event>)
    requires IsRun(es)
    ensures Accounted(Exec(es))
    decreases |es|
  {
    hide Inv, AllRoomOk, Enabled, Apply, Accounted;
    if es != [] {
      var n := |es| - 1;
      ObjectsAccounted(es[..n]);
      ApplyAccounts(Exec(es[..n]), es[n]);
    } else {
      NothingYet();
    }
  }

  lemma NothingYet()
    ensures Accounted(Start())
  { }

  /** What a tick broadcasts to the players of a room is exactly what it adds to the log, in
      order; a player who collects the broadcasts holds the log. */
  lemma BroadcastsAreTheLog(es: seq<Event>, id: int, ms: nat)
    requires IsRun(es) && Enabled(Exec(es), TickRoom(id, ms)) && RoomOk(Exec(es), id)
    ensures var w, v := Exec(es), Apply(Exec(es), TickRoom(id, ms));
            var r, q := w.rooms[id], v.rooms[id];
            && UpdateSent(w.store, r, ms) == Collect(v.store, q, r.frameId, q.frameId)
            && Untouched(w.store, v.store, r.oper.Values) && KeepsKeys(r, q)
  {
    hide Update, UpdateSent, Collect, StoreOk;
    var w := Exec(es);
    assert Kept(w, id);
    UpdateBroadcasts(w.store, w.rooms[id], ms);
  }

  // ---------------------------------------------------------------- the frame clock over runs

  /** Events that may happen while the clock of room `id` runs: anything in other rooms, and
      in this room commands, players coming and going, and ticks that do not go back in time. */
  ghost predicate Quiet(w: World, e: Event, id: int)
    requires id in w.rooms
  {
    match e
    case SetTick(i, delta) => i != id
    case EndRoom(i, force) => i != id
    case TickRoom(i, ms) => i == id ==> w.rooms[id].lastMs <= ms < TWO32
    case Finalize => w.finals != [] && w.finals[0] != id
    case Create(i) => i != id
    case _ => true
  }

  /** Room `id` is running and on the clock that started at `t0` with frame `start`. */
  ghost predicate Clocked(w: World, id: int, start: nat, t0: nat) {
    id in w.rooms && Running(w.rooms[id]) && OnClock(w.rooms[id], start, t0)
  }

  lemma ClockStep(w: World, e: Event, id: int, start: nat, t0: nat)
    requires AllRoomOk(w) && Enabled(w, e) && Clocked(w, id, start, t0) && Quiet(w, e, id)
    ensures Clocked(Apply(w, e), id, start, t0)
  {
    hide AddCmd, Update, Recycled, Collect, Ticks, Left;
    assert RoomOk(w, id);
    var r := w.rooms[id];
    match e
    case Create(i) =>
    case EnterP(i, pid, rid, camp, conn) =>
      assert RoomOk(w, i);
      var q := Entered(w.rooms[i], pid, rid, camp, conn);
      AddCmdTick(w.store, q, SvrData(q, rid, 1));
      assert rid in q.rids;
    case LeaveP(i, rid) =>
      assert RoomOk(w, i);
      AddCmdTick(w.store, w.rooms[i], SvrData(w.rooms[i], rid, 0));
    case Command(i, pid, data) =>
      assert RoomOk(w, i);
      if pid in w.rooms[i].pids { AddCmdTick(w.store, w.rooms[i], data); }
    case SetReady(i) => assert RoomOk(w, i);
    case SetTick(i, delta) => assert RoomOk(w, i);
    case EndRoom(i, force) => assert RoomOk(w, i);
    case TickRoom(i, ms) =>
      assert RoomOk(w, i);
      if i == id { UpdateClock(w.store, r, ms, start, t0); }
    case Finalize => assert RoomOk(w, w.finals[0]);
  }

  /** Every event after the first `n` is quiet. */
  ghost predicate QuietSince(es: seq<Event>, n: nat, id: int)
    requires IsRun(es) && n <= |es|
    decreases |es|
  {
    |es| > n ==>
      var k := |es| - 1;
      QuietSince(es[..k], n, id) && id in Exec(es[..k]).rooms && Quiet(Exec(es[..k]), es[k], id)
  }

  /** The frame clock, over any run: from any point where the room is on its clock, whatever
      happens meanwhile in the room and in others, the frame number is the number of whole ticks
      since `t0` and `m_accMs` the time left over. */
  lemma {:induction false} ClockOfRun(es: seq<Event>, n: nat, id: int, start: nat, t0: nat)
    requires IsRun(es) && n <= |es| && IsRun(es[..n]) && Clocked(Exec(es[..n]), id, start, t0) && QuietSince(es, n, id)
    ensures Clocked(Exec(es), id, start, t0)
    decreases |es|
  {
    hide Clocked, Quiet, Apply, Inv, AllRoomOk, Enabled;
    if |es| > n {
      var k := |es| - 1;
      assert es[..k][..n] == es[..n];
      ClockOfRun(es[..k], n, id, start, t0);
      ClockStep(Exec(es[..k]), es[k], id, start, t0);
    } else {
      assert es[..n] == es;
    }
  }

  /** The tick that starts the clock: the first one of a running room. */
  lemma FirstTickStartsClock(w: World, id: int, ms: nat)
    requires AllRoomOk(w) && Enabled(w, TickRoom(id, ms)) && Running(w.rooms[id]) && w.rooms[id].lastMs == 0
             && 0 < ms < TWO32
    ensures RoomOk(w, id) && Clocked(Apply(w, TickRoom(id, ms)), id, w.rooms[id].frameId, ms)
  {
    assert RoomOk(w, id);
    TicksStep(0, w.rooms[id].tick);
  }
}
