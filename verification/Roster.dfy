/** Who is in a room and how fast it ticks, over any run of the server: both follow from the events
    since the room was opened, and a command enters the log exactly when its player has entered. */
module Roster {
  import opened Room
  import opened Rooms
  import opened Lobby
  import Ending
  import Serial

  /** The players that have entered the room since it was opened; leaving removes nobody. */
  function Players(es: seq<Event>, id: int): set<int>
    decreases |es|
  {
    if es == [] then {}
    else
      var e, before := es[|es| - 1], Players(es[..|es| - 1], id);
      if e == Create(id) then {} else if e.EnterP? && e.id == id then before + {e.pid} else before
  }

  /** The roles that have entered, with the camp each last entered for. */
  function Roles(es: seq<Event>, id: int): map<nat, int>
    decreases |es|
  {
    if es == [] then map[]
    else
      var e, before := es[|es| - 1], Roles(es[..|es| - 1], id);
      if e == Create(id) then map[] else if e.EnterP? && e.id == id then before[e.rid := e.camp] else before
  }

  /** The length of a tick: the upper half of the last setting, 66 ms without one. */
  function TickLength(es: seq<Event>, id: int): nat
    decreases |es|
  {
    if es == [] then 66
    else
      var e, before := es[|es| - 1], TickLength(es[..|es| - 1], id);
      if e == Create(id) then 66
      else if e.SetTick? && e.id == id then (e.delta - e.delta % 65536) / 65536 % 65536
      else before
  }

  /** The connection each player last entered with, if it ever had one. */
  function Connections(es: seq<Event>, id: int): map<int, nat>
    decreases |es|
  {
    if es == [] then map[]
    else
      var e, before := es[|es| - 1], Connections(es[..|es| - 1], id);
      if e == Create(id) then map[]
      else if e.EnterP? && e.id == id && e.conn.Some? then before[e.pid := e.conn.value]
      else before
  }

  ghost predicate Enrolled(r: RoomState, players: set<int>, roles: map<nat, int>, conns: map<int, nat>, tick: nat) {
    r.pids.Keys == players && r.rids == roles && r.conns == conns && r.tick == tick
  }

  /** One event for the room itself. */
  lemma EventEnrolls(w: World, e: Event, id: int, players: set<int>, roles: map<nat, int>, conns: map<int, nat>,
                     tick: nat)
    requires AllRoomOk(w) && Enabled(w, e) && !e.Finalize? && e.id == id
    requires id in w.rooms ==> Enrolled(w.rooms[id], players, roles, conns, tick)
    ensures var v := Apply(w, e);
            && id in v.rooms
            && Enrolled(v.rooms[id],
                        if e.Create? then {} else if e.EnterP? then players + {e.pid} else players,
                        if e.Create? then map[] else if e.EnterP? then roles[e.rid := e.camp] else roles,
                        if e.Create? then map[]
                        else if e.EnterP? && e.conn.Some? then conns[e.pid := e.conn.value] else conns,
                        if e.Create? then 66
                        else if e.SetTick? then (e.delta - e.delta % 65536) / 65536 % 65536 else tick)
  {
    hide AddCmd, Sane, Update;
    if !e.Create? { assert RoomOk(w, id); }
    match e
    case EnterP(_, pid, rid, camp, conn) =>
      var q := Entered(w.rooms[id], pid, rid, camp, conn);
      SaneTimers(w.store, w.rooms[id], q);
      AddCmdTick(w.store, q, SvrData(q, rid, 1));
    case LeaveP(_, rid) => AddCmdTick(w.store, w.rooms[id], SvrData(w.rooms[id], rid, 0));
    case Command(_, pid, data) => if pid in w.rooms[id].pids { AddCmdTick(w.store, w.rooms[id], data); }
    case TickRoom(_, ms) => UpdateEnrolls(w.store, w.rooms[id], ms);
    case _ =>
  }

  lemma UpdateEnrolls(s: Store, r: RoomState, ms: nat)
    requires Sane(s, r) && r.tick > 0
    ensures var q := Update(s, r, ms).room;
            q.pids == r.pids && q.rids == r.rids && q.conns == r.conns && q.tick == r.tick
  {
    hide CatchUp, Ticks, Left;
    if !r.gateOver && r.run && r.rids != map[] && r.lastMs != 0 {
      CatchUpClock(s, r.(accMs := Serial.U32(r.accMs + Serial.U32(ms - r.lastMs)), lastMs := ms));
    }
  }

  /** In every run, the players, the roles, the connections and the tick of an open room are those of
      its events. */
  lemma {:induction false} RunEnrolls(es: seq<Event>, id: int)
    requires IsRun(es)
    ensures var w := Exec(es);
            id in w.rooms ==>
              Enrolled(w.rooms[id], Players(es, id), Roles(es, id), Connections(es, id), TickLength(es, id))
    decreases |es|
  {
    hide Inv, AllRoomOk, Enabled, Apply, Enrolled;
    if es == [] {
      assert Exec(es) == Start();
    } else {
      var n := |es| - 1;
      RunEnrolls(es[..n], id);
      var w, e := Exec(es[..n]), es[n];
      if !e.Finalize? && e.id == id {
        var before := es[..n];
        EventEnrolls(w, e, id, Players(before, id), Roles(before, id), Connections(before, id), TickLength(before, id));
      } else {
        Ending.OthersLeave(w, e, id);
      }
    }
  }

  /** A command enters the log of its room exactly when its player has entered the room since it was
      opened; with it, the room is populated. */
  lemma CommandsOfPlayers(es: seq<Event>, id: int, pid: int, data: int)
    requires IsRun(es) && Enabled(Exec(es), Command(id, pid, data)) && id in Exec(es).accepted
    ensures var w, v := Exec(es), Apply(Exec(es), Command(id, pid, data));
            && id in v.accepted
            && v.accepted[id] == w.accepted[id] + (if pid in Players(es, id) then [data] else [])
            && (w.rooms[id].rids != map[] <==> Players(es, id) != {})
  {
    hide AddCmd, Sane, Inv;
    assert RoomOk(Exec(es), id);
    RunEnrolls(es, id);
    PlayersHaveRoles(es, id);
  }

  lemma {:induction false} PlayersHaveRoles(es: seq<Event>, id: int)
    ensures Players(es, id) != {} <==> Roles(es, id) != map[]
    decreases |es|
  {
    if es != [] {
      var e := es[|es| - 1];
      PlayersHaveRoles(es[..|es| - 1], id);
      if e.EnterP? && e.id == id { assert e.pid in Players(es, id) && e.rid in Roles(es, id); }
    }
  }
}
