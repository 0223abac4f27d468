/** How rooms end, over any run of the server: a tick finishes a room exactly when it was told to
    end, and what the room has seen since it was opened says when. */
module Ending {
  import opened Serial
  import opened Room
  import opened Rooms
  import opened Lobby

  // ---------------------------------------------------------------- what a room was told

  /** Since it was last opened, the room has been told to end. */
  predicate Told(es: seq<Event>, id: int)
    decreases |es|
  {
    es != [] &&
      var e := es[|es| - 1];
      (e.EndRoom? && e.id == id) || (e != Create(id) && Told(es[..|es| - 1], id))
  }

  /** Since it was last opened, the room has been told to end at once. */
  predicate Forced(es: seq<Event>, id: int)
    decreases |es|
  {
    es != [] &&
      var e := es[|es| - 1];
      e == EndRoom(id, true) || (e != Create(id) && Forced(es[..|es| - 1], id))
  }

  /** The number of the next frame when the room was last told to end. */
  ghost function EndedAt(es: seq<Event>, id: int): nat
    requires IsRun(es)
    decreases |es|
  {
    if es == [] then 0
    else
      var n := |es| - 1;
      if es[n].EndRoom? && es[n].id == id then Exec(es[..n]).rooms[id].frameId else EndedAt(es[..n], id)
  }

  lemma {:induction false} ForcedIsTold(es: seq<Event>, id: int)
    ensures Forced(es, id) ==> Told(es, id)
    decreases |es|
  {
    if es != [] { ForcedIsTold(es[..|es| - 1], id); }
  }

  /** What the room has to say for what it was told. */
  ghost predicate Marked(r: RoomState, told: bool, forced: bool, endedAt: nat) {
    r.gateOver == forced && if told then r.endFrame == endedAt <= r.frameId else r.endFrame == NO_END
  }

  // ---------------------------------------------------------------- one event

  /** The clock of the room runs. */
  predicate Ticking(r: RoomState) { r.run && r.rids != map[] && r.lastMs != 0 }

  /** One tick. */
  lemma UpdateEnds(s: Store, r: RoomState, ms: nat, told: bool, forced: bool, endedAt: nat)
    requires Sane(s, r) && r.tick > 0 && Marked(r, told, forced, endedAt) && (forced ==> told)
    ensures var u := Update(s, r, ms);
            && Marked(u.room, told, forced, endedAt)
            && (u.over <==> forced || (told && Ticking(r) && endedAt != NO_END))
            && (u.over ==> !u.room.run)
            && (!u.over ==> u.room.run == r.run)
  {
    hide CatchUp, Ticks, Left;
    if !r.gateOver && Ticking(r) {
      CatchUpClock(s, r.(accMs := U32(r.accMs + U32(ms - r.lastMs)), lastMs := ms));
    }
  }

  /** One event for the room itself, ticks apart. */
  lemma EventMarks(w: World, e: Event, id: int, told: bool, forced: bool, endedAt: nat)
    requires AllRoomOk(w) && Enabled(w, e) && !e.Finalize? && !e.TickRoom? && e.id == id
    requires id in w.rooms ==> Marked(w.rooms[id], told, forced, endedAt)
    ensures var v := Apply(w, e);
            && id in v.rooms
            && Marked(v.rooms[id], e.EndRoom? || (!e.Create? && told), e == EndRoom(id, true) || (!e.Create? && forced),
                      if e.EndRoom? then w.rooms[id].frameId else endedAt)
  {
    hide AddCmd, Sane;
    if !e.Create? { assert RoomOk(w, id); }
    match e
    case EnterP(_, pid, rid, camp, conn) =>
      var q := Entered(w.rooms[id], pid, rid, camp, conn);
      SaneTimers(w.store, w.rooms[id], q);
      AddCmdTick(w.store, q, SvrData(q, rid, 1));
    case LeaveP(_, rid) => AddCmdTick(w.store, w.rooms[id], SvrData(w.rooms[id], rid, 0));
    case Command(_, pid, data) => if pid in w.rooms[id].pids { AddCmdTick(w.store, w.rooms[id], data); }
    case _ =>
  }

  /** What holds of a room after what it was told. */
  ghost predicate Follows(w: World, id: int, told: bool, forced: bool, endedAt: nat) {
    && (id in w.rooms ==> Marked(w.rooms[id], told, forced, endedAt))
    && (id in w.finals ==> id in w.rooms && told && Queued(w.finals, id))
  }

  lemma TickFollows(w: World, id: int, ms: nat, told: bool, forced: bool, endedAt: nat)
    requires AllRoomOk(w) && Enabled(w, TickRoom(id, ms)) && Follows(w, id, told, forced, endedAt)
    requires forced ==> told
    ensures var v := Apply(w, TickRoom(id, ms));
            && Follows(v, id, told, forced, endedAt) && id in v.rooms
            && (id in v.finals <==> forced || (told && Ticking(w.rooms[id]) && endedAt != NO_END))
            && v.finals == (if id in v.finals then w.finals + [id] else w.finals)
            && v.rooms[id].run == (w.rooms[id].run && id !in v.finals)
  {
    hide Update, Sane, Marked, Ticking;
    assert RoomOk(w, id);
    UpdateEnds(w.store, w.rooms[id], ms, told, forced, endedAt);
    assert multiset(w.finals)[id] == 0;
  }

  /** One event of a run. */
  lemma EventFollows(w: World, e: Event, id: int, told: bool, forced: bool, endedAt: nat)
    requires Inv(w) && AllRoomOk(w) && Enabled(w, e) && Follows(w, id, told, forced, endedAt)
    requires forced ==> told
    ensures var mine := !e.Finalize? && e.id == id;
            Follows(Apply(w, e), id,
                    (e.EndRoom? && mine) || (e != Create(id) && told),
                    e == EndRoom(id, true) || (e != Create(id) && forced),
                    if e.EndRoom? && mine then w.rooms[id].frameId else endedAt)
  {
    hide Inv, AllRoomOk, Apply, Marked, Queued, SameRoom;
    var mine := !e.Finalize? && e.id == id;
    if mine && e.TickRoom? {
      TickFollows(w, id, e.ms, told, forced, endedAt);
    } else {
      FinalsKept(w, e);
      FinalsAfter(w, e);
      if mine {
        EventMarks(w, e, id, told, forced, endedAt);
      } else {
        OthersLeave(w, e, id);
      }
      if id in w.finals {
        if e.Finalize? { QueuedLess(w.finals, id); } else if e.id != id { QueuedMore(w.finals, id, e.id); }
      }
    }
  }

  /** Only a tick or a final record changes the queue of finished rooms. */
  lemma FinalsKept(w: World, e: Event)
    requires AllRoomOk(w) && Enabled(w, e)
    ensures !e.TickRoom? && !e.Finalize? ==> Apply(w, e).finals == w.finals
  {
    hide AddCmd, Sane;
    if !e.Create? { assert RoomOk(w, Target(w, e)); }
  }

  /** An event for another room does not touch this one; a final record takes its room away. */
  lemma OthersLeave(w: World, e: Event, id: int)
    requires Inv(w) && AllRoomOk(w) && Enabled(w, e) && (e.Finalize? || e.id != id)
    ensures id in Apply(w, e).rooms ==> id in w.rooms && Apply(w, e).rooms[id] == w.rooms[id]
    ensures id in w.rooms && id !in Apply(w, e).rooms ==> e.Finalize? && w.finals[0] == id
  {
    hide AddCmd, Update, Recycled, Collect, Sane, Inv;
    if !e.Create? { assert RoomOk(w, Target(w, e)); }
  }

  // ---------------------------------------------------------------- runs

  lemma {:induction false} RunFollows(es: seq<Event>, id: int)
    requires IsRun(es)
    ensures Follows(Exec(es), id, Told(es, id), Forced(es, id), EndedAt(es, id))
    decreases |es|
  {
    hide Inv, AllRoomOk, Enabled, Apply, Follows;
    if es == [] {
      NothingTold(id);
    } else {
      var n := |es| - 1;
      RunFollows(es[..n], id);
      ForcedIsTold(es[..n], id);
      EventFollows(Exec(es[..n]), es[n], id, Told(es[..n], id), Forced(es[..n], id), EndedAt(es[..n], id));
    }
  }

  lemma NothingTold(id: int)
    ensures Follows(Start(), id, false, false, 0)
  { }

  /** After any run, the next tick of a room finishes it exactly when, since it was opened, it was
      told to end at once, or it was told to end and is running and populated with its clock
      started. The one exception is a room told to end at frame 2^31, the mark for "never". A
      finished room stops running, the others run on. */
  lemma EndsExactly(es: seq<Event>, id: int, ms: nat)
    requires IsRun(es) && Enabled(Exec(es), TickRoom(id, ms))
    ensures var w, v := Exec(es), Apply(Exec(es), TickRoom(id, ms));
            && id in v.rooms
            && (id in v.finals <==>
                  Forced(es, id) || (Told(es, id) && Ticking(w.rooms[id]) && EndedAt(es, id) != NO_END))
            && v.finals == (if id in v.finals then w.finals + [id] else w.finals)
            && v.rooms[id].run == (w.rooms[id].run && id !in v.finals)
  {
    hide Inv, AllRoomOk, Enabled, Apply, Follows, Ticking;
    RunFollows(es, id);
    ForcedIsTold(es, id);
    TickFollows(Exec(es), id, ms, Told(es, id), Forced(es, id), EndedAt(es, id));
  }

  /** A room that was never told to end since it was opened is not among the finished ones, and a
      finished room is there once. */
  lemma OnlyToldEnd(es: seq<Event>, id: int)
    requires IsRun(es) && id in Exec(es).finals
    ensures Told(es, id) && id in Exec(es).rooms && Queued(Exec(es).finals, id)
  {
    RunFollows(es, id);
  }

  /** From the call that ends a room on, whatever else happens short of opening it again: the next
      tick after that, if it finds the room running, populated, its clock started and its frame
      number below 2^31, or if the end was forced, finishes the room. */
  lemma ToldRoomEnds(es: seq<Event>, id: int, force: bool, rest: seq<Event>, ms: nat)
    requires IsRun(es + [EndRoom(id, force)] + rest) && Create(id) !in rest
    requires Enabled(Exec(es + [EndRoom(id, force)] + rest), TickRoom(id, ms))
    requires var r := Exec(es + [EndRoom(id, force)] + rest).rooms[id]; force || (Ticking(r) && r.frameId < NO_END)
    ensures id in Apply(Exec(es + [EndRoom(id, force)] + rest), TickRoom(id, ms)).finals
  {
    hide Inv, AllRoomOk, Apply, Ticking, Follows;
    var all := es + [EndRoom(id, force)] + rest;
    StillTold(es, id, force, rest);
    RunFollows(all, id);
    EndedBefore(Exec(all), id, Told(all, id), Forced(all, id), EndedAt(all, id));
    EndsExactly(all, id, ms);
  }

  lemma EndedBefore(w: World, id: int, told: bool, forced: bool, endedAt: nat)
    requires Follows(w, id, told, forced, endedAt)
    ensures told && id in w.rooms ==> endedAt <= w.rooms[id].frameId
  { }

  lemma {:induction false} StillTold(es: seq<Event>, id: int, force: bool, rest: seq<Event>)
    requires Create(id) !in rest
    ensures var all := es + [EndRoom(id, force)] + rest; Told(all, id) && (force ==> Forced(all, id))
    decreases |rest|
  {
    var all := es + [EndRoom(id, force)] + rest;
    if rest == [] {
      assert all[|all| - 1] == EndRoom(id, force);
    } else {
      var n := |rest| - 1;
      assert all[..|all| - 1] == es + [EndRoom(id, force)] + rest[..n] && all[|all| - 1] == rest[n] && rest[n] in rest;
      StillTold(es, id, force, rest[..n]);
    }
  }

  /** A room that is not running or has no players is left as it is. */
  lemma IdleTick(w: World, id: int, ms: nat)
    requires AllRoomOk(w) && Enabled(w, TickRoom(id, ms)) && id in w.accepted
    requires !w.rooms[id].gateOver && (!w.rooms[id].run || w.rooms[id].rids == map[])
    ensures Apply(w, TickRoom(id, ms)) == w
  {
    assert RoomOk(w, id);
    assert w.accepted[id] + [] == w.accepted[id];
    assert w.rooms[id := w.rooms[id]] == w.rooms && w.accepted[id := w.accepted[id]] == w.accepted;
  }

  // ---------------------------------------------------------------- which rooms run

  /** Since it was opened, the room was set ready, and no tick has finished it since. */
  ghost predicate Going(es: seq<Event>, id: int)
    requires IsRun(es)
    decreases |es|
  {
    es != [] &&
      var n := |es| - 1;
      es[n] == SetReady(id)
      || (es[n] != Create(id) && Going(es[..n], id)
          && !(es[n].TickRoom? && es[n].id == id && id in Exec(es).finals))
  }

  /** One event for the room itself, ticks apart. */
  lemma EventRuns(w: World, e: Event, id: int)
    requires AllRoomOk(w) && Enabled(w, e) && !e.Finalize? && !e.TickRoom? && e.id == id
    ensures var v := Apply(w, e);
            id in v.rooms && v.rooms[id].run == (e.SetReady? || (!e.Create? && w.rooms[id].run))
  {
    hide AddCmd, Sane;
    if !e.Create? { assert RoomOk(w, id); }
    match e
    case EnterP(_, pid, rid, camp, conn) =>
      var q := Entered(w.rooms[id], pid, rid, camp, conn);
      SaneTimers(w.store, w.rooms[id], q);
      AddCmdTick(w.store, q, SvrData(q, rid, 1));
    case LeaveP(_, rid) => AddCmdTick(w.store, w.rooms[id], SvrData(w.rooms[id], rid, 0));
    case Command(_, pid, data) => if pid in w.rooms[id].pids { AddCmdTick(w.store, w.rooms[id], data); }
    case _ =>
  }

  /** In every run, a room runs from the time it is set ready until a tick finishes it. */
  lemma {:induction false} RunsWhileGoing(es: seq<Event>, id: int)
    requires IsRun(es) && id in Exec(es).rooms
    ensures Exec(es).rooms[id].run == Going(es, id)
    decreases |es|
  {
    hide Inv, AllRoomOk, Enabled, Apply;
    if es != [] {
      var n := |es| - 1;
      var w, e := Exec(es[..n]), es[n];
      if !e.Finalize? && e.id == id {
        if !e.Create? {
          EnabledRoom(w, e);
          RunsWhileGoing(es[..n], id);
        }
        if e.TickRoom? {
          EndsExactly(es[..n], id, e.ms);
        } else {
          EventRuns(w, e, id);
        }
      } else {
        OthersLeave(w, e, id);
        RunsWhileGoing(es[..n], id);
      }
    }
  }

  lemma EnabledRoom(w: World, e: Event)
    requires Enabled(w, e) && !e.Create? && !e.Finalize?
    ensures e.id in w.rooms
  { }
}
