/** A game room (core/room.cpp) as functions on values: the lockstep frame clock, the
    command log, and the object pools all rooms share. An object is a handle into the
    store; classes `Pools` and `RoomObj` of module `Lockstep` are proved to compute these
    functions. */
module Room {
  import opened Options
  import opened Serial

  const FRAME_TICK_MS: nat := 66
  const NO_END: nat := 2147483648
  const ENTER_LEAVE: nat := 15

  /** A frame object: its number and the command objects it owns. */
  datatype Frame = Frame(id: nat, cmds: seq<nat>)

  /** Every command and frame object ever allocated, and the two pools of free ones. */
  datatype Store = Store(cmds: seq<int>, frames: seq<Frame>, pool: seq<nat>, pool2001: seq<nat>)

  /** `m_ridPMap` maps a role to its camp, `m_pidPMap` a player to its role, and `m_pidConn`
      a player to its connection. */
  datatype RoomState = RoomState(
    tick: nat, frameId: nat, endFrame: nat, gateOver: bool, run: bool, accMs: nat, lastMs: nat,
    pending: Option<nat>, oper: map<nat, nat>, rids: map<nat, int>, pids: map<int, nat>, conns: map<int, nat>)

  /** `roomObj::init`. */
  function Fresh(): RoomState {
    RoomState(FRAME_TICK_MS, 0, NO_END, false, false, 0, 0, None, map[], map[], map[], map[])
  }

  // ---------------------------------------------------------------- pools

  datatype Fetched = Fetched(store: Store, h: nat)

  predicate Handles(s: Store) {
    && (forall i :: 0 <= i < |s.pool| ==> s.pool[i] < |s.cmds|)
    && (forall i :: 0 <= i < |s.pool2001| ==> s.pool2001[i] < |s.frames|)
  }

  /** `roomMgr::fetchPt`: reuse the oldest free command object, or allocate one. */
  function FetchPt(s: Store): Fetched
    requires Handles(s)
  {
    if s.pool == [] then Fetched(s.(cmds := s.cmds + [0]), |s.cmds|)
    else Fetched(s.(pool := s.pool[1..], cmds := s.cmds[s.pool[0] := 0]), s.pool[0])
  }

  /** `roomMgr::fetchPt2001`. */
  function FetchFrame(s: Store): Fetched
    requires Handles(s)
  {
    if s.pool2001 == [] then Fetched(s.(frames := s.frames + [Frame(0, [])]), |s.frames|)
    else Fetched(s.(pool2001 := s.pool2001[1..], frames := s.frames[s.pool2001[0] := Frame(0, [])]), s.pool2001[0])
  }

  function Reverse(xs: seq<nat>): (r: seq<nat>) {
    if xs == [] then [] else [xs[|xs| - 1]] + Reverse(xs[..|xs| - 1])
  }

  /** `roomMgr::recyclePt2001`: the commands are released last first. */
  function RecycleFrame(s: Store, f: nat): Store
    requires f < |s.frames|
  {
    s.(pool := s.pool + Reverse(s.frames[f].cmds), frames := s.frames[f := s.frames[f].(cmds := [])],
       pool2001 := s.pool2001 + [f])
  }

  // ---------------------------------------------------------------- commands

  datatype InRoom = InRoom(store: Store, room: RoomState)

  predicate Sane(s: Store, r: RoomState) {
    && Handles(s) && (r.pending.Some? ==> r.pending.value < |s.frames|)
    && forall k :: k in r.oper ==> r.oper[k] < |s.frames|
  }

  /** The lines that fetch the pending frame when there is none. */
  function Open(s: Store, r: RoomState): (o: InRoom)
    requires Sane(s, r)
    ensures Sane(o.store, o.room) && o.room.pending.Some?
  {
    if r.pending.Some? then InRoom(s, r)
    else var f := FetchFrame(s); InRoom(f.store, r.(pending := Some(f.h)))
  }

  /** A command object with the given contents is added to the pending frame. */
  function AddCmd(s: Store, r: RoomState, data: int): (o: InRoom)
    requires Sane(s, r)
    ensures Sane(o.store, o.room)
  {
    var c := FetchPt(s);
    var o := Open(c.store.(cmds := c.store.cmds[c.h := data]), r);
    var f := o.room.pending.value;
    var frame := o.store.frames[f];
    InRoom(o.store.(frames := o.store.frames[f := frame.(cmds := frame.cmds + [c.h])]), o.room)
  }

  /** `roomObj::FrameCmd`: unknown players are ignored. */
  function FrameCmd(s: Store, r: RoomState, pid: int, data: int): (o: InRoom)
    requires Sane(s, r)
    ensures Sane(o.store, o.room)
  {
    if pid in r.pids then AddCmd(s, r, data) else InRoom(s, r)
  }

  /** `roomObj::GetPIdx`: how many playing roles are not above this one. */
  function PIdx(r: RoomState, rid: nat): nat {
    |set x | x in r.rids && r.rids[x] <= 1 && x <= rid|
  }

  /** The data of the command the server adds when a player enters or leaves. */
  function SvrData(r: RoomState, rid: nat, param: nat): int {
    ENTER_LEAVE + PIdx(r, rid) % 256 * 256 + param % 65536 * 65536
  }

  /** `roomObj::EnterP`. */
  function Entered(r: RoomState, pid: int, rid: nat, camp: int, conn: Option<nat>): RoomState {
    r.(rids := r.rids[rid := camp], pids := r.pids[pid := rid],
       conns := if conn.Some? then r.conns[pid := conn.value] else r.conns)
  }

  function Enter(s: Store, r: RoomState, pid: int, rid: nat, camp: int, conn: Option<nat>): (o: InRoom)
    requires Sane(s, r)
    ensures Sane(o.store, o.room)
  {
    var r1 := Entered(r, pid, rid, camp, conn);
    AddCmd(s, r1, SvrData(r1, rid, 1))
  }

  /** `roomObj::LeaveP`. */
  function Leave(s: Store, r: RoomState, rid: nat): (o: InRoom)
    requires Sane(s, r)
    ensures Sane(o.store, o.room)
  {
    AddCmd(s, r, SvrData(r, rid, 0))
  }

  // ---------------------------------------------------------------- frames

  /** One turn of the catch-up loop: the pending frame gets its number, enters the log and
      is replaced. */
  function Commit(s: Store, r: RoomState): (o: InRoom)
    requires Sane(s, r)
    ensures Sane(o.store, o.room) && o.room.frameId == r.frameId + 1
    ensures o.room == r.(frameId := o.room.frameId, pending := o.room.pending, oper := o.room.oper)
  {
    var o := Open(s, r);
    var f := o.room.pending.value;
    var next := FetchFrame(o.store.(frames := o.store.frames[f := o.store.frames[f].(id := r.frameId)]));
    InRoom(next.store, o.room.(oper := r.oper[r.frameId := f], pending := Some(next.h), frameId := r.frameId + 1))
  }

  function CatchUp(s: Store, r: RoomState): (o: InRoom)
    requires Sane(s, r) && r.tick > 0
    ensures Sane(o.store, o.room) && o.room.tick == r.tick
    decreases r.accMs
  {
    if r.accMs < r.tick then InRoom(s, r)
    else
      var o := Commit(s, r.(accMs := r.accMs - r.tick));
      CatchUp(o.store, o.room)
  }

  datatype Updating = Updating(store: Store, room: RoomState, over: bool)

  /** `roomObj::Update`. A tick of 0 would never leave the loop. */
  function Update(s: Store, r: RoomState, ms: nat): (u: Updating)
    requires Sane(s, r) && r.tick > 0
    ensures Sane(u.store, u.room) && u.room.tick == r.tick
  {
    if r.gateOver then Updating(s, r.(run := false), true)
    else if !r.run || r.rids == map[] then Updating(s, r, false)
    else if r.lastMs == 0 then Updating(s, r.(lastMs := ms, accMs := 0), false)
    else
      var o := CatchUp(s, r.(accMs := U32(r.accMs + U32(ms - r.lastMs)), lastMs := ms));
      if o.room.frameId >= o.room.endFrame && o.room.endFrame != NO_END
      then Updating(o.store, o.room.(run := false), true)
      else Updating(o.store, o.room, false)
  }

  /** `roomObj::Over`. */
  function Over(r: RoomState, force: bool): RoomState {
    r.(endFrame := r.frameId, gateOver := r.gateOver || force)
  }

  // ---------------------------------------------------------------- what is read back

  function Read(s: Store, c: nat): int { if c < |s.cmds| then s.cmds[c] else 0 }

  /** The contents of the commands of a frame object. */
  function Contents(s: Store, f: nat): seq<int> {
    if f < |s.frames| then
      seq(|s.frames[f].cmds|, i requires 0 <= i < |s.frames[f].cmds| => Read(s, s.frames[f].cmds[i]))
    else []
  }

  /** A frame as it is sent: number and command contents. */
  datatype Sent = Sent(id: nat, cmds: seq<int>)

  /** The frames from `from` to below `to`, as `GetCacheFrames` and `Finnal` collect them:
      the log is walked in key order and keys that are not there are skipped. */
  function Collect(s: Store, r: RoomState, from: nat, to: nat): seq<Sent>
    decreases to - from
  {
    if from >= to then []
    else
      (if from in r.oper && r.oper[from] < |s.frames|
       then [Sent(s.frames[r.oper[from]].id, Contents(s, r.oper[from]))] else [])
      + Collect(s, r, from + 1, to)
  }

  /** All commands of a series of frames. */
  function Cmds(fs: seq<Sent>): seq<int> {
    if fs == [] then [] else fs[0].cmds + Cmds(fs[1..])
  }

  /** What `Finnal` gives back: the frames below `n`, in key order. */
  function Recycled(s: Store, r: RoomState, n: nat): (t: Store)
    requires forall k :: k in r.oper ==> r.oper[k] < |s.frames|
    ensures |t.frames| == |s.frames|
  {
    if n == 0 then s
    else
      var t := Recycled(s, r, n - 1);
      if n - 1 in r.oper then RecycleFrame(t, r.oper[n - 1]) else t
  }

  // ---------------------------------------------------------------- what is broadcast

  /** The frame a turn of the catch-up loop broadcasts. */
  function NextSent(s: Store, r: RoomState): Sent
    requires Sane(s, r)
  {
    var o := Open(s, r);
    Sent(r.frameId, Contents(o.store, o.room.pending.value))
  }

  function CatchUpSent(s: Store, r: RoomState): seq<Sent>
    requires Sane(s, r) && r.tick > 0
    decreases r.accMs
  {
    if r.accMs < r.tick then []
    else
      var q := r.(accMs := r.accMs - r.tick);
      var c := Commit(s, q);
      [NextSent(s, q)] + CatchUpSent(c.store, c.room)
  }

  function UpdateSent(s: Store, r: RoomState, ms: nat): seq<Sent>
    requires Sane(s, r) && r.tick > 0
  {
    if r.gateOver || !r.run || r.rids == map[] || r.lastMs == 0 then []
    else CatchUpSent(s, r.(accMs := U32(r.accMs + U32(ms - r.lastMs)), lastMs := ms))
  }
}
