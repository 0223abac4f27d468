/** The room objects as the C++ code keeps them: fields updated in place, and the pools of
    the room manager as queues shared by all rooms. Every method is proved to compute the
    function of `Room` that specifies it. */
module Lockstep {
  import opened Options
  import opened Serial
  import opened Room

  /** `m_pool` and `m_pool2001`, with the objects the handles stand for. */
  class Pools {
    var cmds: seq<int>
    var frames: seq<Frame>
    var pool: seq<nat>
    var pool2001: seq<nat>

    ghost function Value(): Store
      reads this
    {
      Store(cmds, frames, pool, pool2001)
    }

    constructor ()
      ensures Value() == Store([], [], [], [])
    {
      cmds, frames, pool, pool2001 := [], [], [], [];
    }

    method FetchPt() returns (h: nat)
      requires Handles(Value())
      modifies this
      ensures Fetched(Value(), h) == Room.FetchPt(old(Value()))
    {
      if |pool| == 0 {
        h := |cmds|;
        cmds := cmds + [0];
      } else {
        h := pool[0];
        pool := pool[1..];
        cmds := cmds[h := 0];
      }
    }

    method FetchPt2001() returns (h: nat)
      requires Handles(Value())
      modifies this
      ensures Fetched(Value(), h) == FetchFrame(old(Value()))
    {
      if |pool2001| == 0 {
        h := |frames|;
        frames := frames + [Frame(0, [])];
      } else {
        h := pool2001[0];
        pool2001 := pool2001[1..];
        frames := frames[h := Frame(0, [])];
      }
    }

    /** `CopyFrom`: a frame as it is sent. */
    method CopyOf(f: nat) returns (copy: Sent)
      requires f < |frames|
      ensures copy == Sent(frames[f].id, Contents(Value(), f))
    {
      var cs := [];
      for i := 0 to |frames[f].cmds|
        invariant |cs| == i && forall k :: 0 <= k < i ==> cs[k] == Read(Value(), frames[f].cmds[k])
      {
        var c := frames[f].cmds[i];
        cs := cs + [if c < |cmds| then cmds[c] else 0];
      }
      return Sent(frames[f].id, cs);
    }

    /** `recyclePt2001`: `ReleaseCleared` hands the commands out last first. */
    method RecyclePt2001(f: nat)
      requires f < |frames|
      modifies this
      ensures Value() == RecycleFrame(old(Value()), f)
    {
      var left := frames[f].cmds;
      while |left| > 0
        invariant unchanged(`cmds) && unchanged(`frames) && unchanged(`pool2001)
        invariant pool + Reverse(left) == old(pool) + Reverse(frames[f].cmds)
        decreases |left|
      {
        var c := left[|left| - 1];
        assert pool + ([c] + Reverse(left[..|left| - 1])) == pool + [c] + Reverse(left[..|left| - 1]);
        left := left[..|left| - 1];
        pool := pool + [c];
      }
      assert pool + [] == pool;
      frames := frames[f := frames[f].(cmds := [])];
      pool2001 := pool2001 + [f];
    }
  }

  class RoomObj {
    const mgr: Pools
    var frameTick: nat
    var frameId: nat
    var endFrameId: nat
    var gateOver: bool
    var brun: bool
    var accMs: nat
    var lastMs: nat
    var pt2001: Option<nat>
    var allOperMap: map<nat, nat>
    var ridPMap: map<nat, int>
    var pidPMap: map<int, nat>
    var pidConn: map<int, nat>

    ghost function Value(): RoomState
      reads this
    {
      RoomState(frameTick, frameId, endFrameId, gateOver, brun, accMs, lastMs, pt2001, allOperMap,
                ridPMap, pidPMap, pidConn)
    }

    ghost predicate Valid()
      reads this, mgr
    {
      Sane(mgr.Value(), Value())
    }

    constructor (mgr: Pools)
      ensures this.mgr == mgr && Value() == Fresh()
    {
      this.mgr := mgr;
      frameTick, frameId, endFrameId := FRAME_TICK_MS, 0, NO_END;
      gateOver, brun, accMs, lastMs := false, false, 0, 0;
      pt2001, allOperMap, ridPMap, pidPMap, pidConn := None, map[], map[], map[], map[];
    }

    method UpdateDelta(delta: nat)
      modifies this`frameTick
      ensures frameTick == delta / 65536 % 65536
    {
      frameTick := delta / 65536 % 65536;
    }

    method EnsureFrame()
      requires Valid()
      modifies this`pt2001, mgr
      ensures Valid() && InRoom(mgr.Value(), Value()) == Open(old(mgr.Value()), old(Value()))
    {
      if pt2001.None? {
        var h := mgr.FetchPt2001();
        pt2001 := Some(h);
      }
    }

    /** Fetching a command object, filling it and adding it to the pending frame. */
    method AddAllocated(data: int)
      requires Valid()
      modifies this`pt2001, mgr
      ensures Valid() && InRoom(mgr.Value(), Value()) == AddCmd(old(mgr.Value()), old(Value()), data)
    {
      var c := mgr.FetchPt();
      mgr.cmds := mgr.cmds[c := data];
      EnsureFrame();
      var f := pt2001.value;
      mgr.frames := mgr.frames[f := mgr.frames[f].(cmds := mgr.frames[f].cmds + [c])];
    }

    /** How many playing roles are not above this one. */
    method GetPIdx(rid: nat) returns (idx: nat)
      ensures idx == PIdx(Value(), rid)
    {
      hide PlayingBelow;
      idx := 0;
      ghost var seen: set<nat> := {};
      var left := ridPMap;
      NobodyBelow(ridPMap, rid);
      while left != map[]
        invariant left.Keys + seen == ridPMap.Keys && left.Keys !! seen
        invariant forall k :: k in left ==> left[k] == ridPMap[k]
        invariant idx == |PlayingBelow(ridPMap, seen, rid)|
        decreases |left|
      {
        var k: nat :| k in left;
        CountOne(ridPMap, seen, k, rid);
        if left[k] <= 1 && k <= rid { idx := idx + 1; }
        left := left - {k};
        seen := seen + {k};
      }
      AllCounted(Value(), seen, rid);
    }

    method SvrFrameCmd(rid: nat, param: nat)
      requires Valid()
      modifies this`pt2001, mgr
      ensures Valid()
      ensures InRoom(mgr.Value(), Value()) == AddCmd(old(mgr.Value()), old(Value()), SvrData(old(Value()), rid, param))
    {
      var pidx := GetPIdx(rid);
      AddAllocated(ENTER_LEAVE + pidx % 256 * 256 + param % 65536 * 65536);
    }

    /** `conn` is the player's connection, or none for a null one. */
    method EnterP(pid: int, rid: nat, camp: int, conn: Option<nat>)
      requires Valid()
      modifies this`ridPMap, this`pidPMap, this`pidConn, this`pt2001, mgr
      ensures Valid() && InRoom(mgr.Value(), Value()) == Enter(old(mgr.Value()), old(Value()), pid, rid, camp, conn)
    {
      ridPMap := ridPMap[rid := camp];
      pidPMap := pidPMap[pid := rid];
      if conn.Some? { pidConn := pidConn[pid := conn.value]; }
      SvrFrameCmd(rid, 1);
    }

    method LeaveP(rid: nat)
      requires Valid()
      modifies this`pt2001, mgr
      ensures Valid() && InRoom(mgr.Value(), Value()) == Leave(old(mgr.Value()), old(Value()), rid)
    {
      SvrFrameCmd(rid, 0);
    }

    method FrameCmd(pid: int, data: int)
      requires Valid()
      modifies this`pt2001, mgr
      ensures Valid() && InRoom(mgr.Value(), Value()) == Room.FrameCmd(old(mgr.Value()), old(Value()), pid, data)
    {
      if pid !in pidPMap { return; }
      AddAllocated(data);
    }

    /** One turn of the catch-up loop; `sent` is the frame as it is broadcast. */
    method CommitFrame() returns (sent: Sent)
      requires Valid()
      modifies this`pt2001, this`allOperMap, this`frameId, mgr
      ensures Valid() && InRoom(mgr.Value(), Value()) == Commit(old(mgr.Value()), old(Value()))
      ensures sent == NextSent(old(mgr.Value()), old(Value()))
    {
      hide Open, Contents;
      EnsureFrame();
      var f := pt2001.value;
      NumberingKeeps(mgr.Value(), f, frameId);
      mgr.frames := mgr.frames[f := mgr.frames[f].(id := frameId)];
      allOperMap := allOperMap[frameId := f];
      sent := mgr.CopyOf(f);
      var h := mgr.FetchPt2001();
      pt2001 := Some(h);
      frameId := frameId + 1;
    }

    /** `roomObj::Update`; `over` is the return code 1, `sent` the frames broadcast. */
    method Update(ms: nat) returns (over: bool, sent: seq<Sent>)
      requires Valid() && frameTick > 0
      modifies this, mgr
      ensures Valid() && Updating(mgr.Value(), Value(), over) == Room.Update(old(mgr.Value()), old(Value()), ms)
      ensures sent == UpdateSent(old(mgr.Value()), old(Value()), ms)
    {
      hide CatchUp, CatchUpSent;
      sent := [];
      if gateOver {
        brun := false;
        return true, [];
      }
      if !brun || ridPMap == map[] { return false, []; }
      if lastMs == 0 {
        lastMs, accMs := ms, 0;
        return false, [];
      }
      accMs := U32(accMs + U32(ms - lastMs));
      lastMs := ms;
      sent := Advance();
      over := frameId >= endFrameId && endFrameId != NO_END;
      if over { brun := false; }
    }

    /** The catch-up loop. */
    method Advance() returns (sent: seq<Sent>)
      requires Valid() && frameTick > 0
      modifies this`accMs, this`pt2001, this`allOperMap, this`frameId, mgr
      ensures Valid() && InRoom(mgr.Value(), Value()) == CatchUp(old(mgr.Value()), old(Value()))
      ensures sent == CatchUpSent(old(mgr.Value()), old(Value()))
    {
      hide Commit, NextSent;
      sent := [];
      while accMs >= frameTick
        invariant Valid() && frameTick > 0
        invariant CatchUp(mgr.Value(), Value()) == CatchUp(old(mgr.Value()), old(Value()))
        invariant sent + CatchUpSent(mgr.Value(), Value()) == CatchUpSent(old(mgr.Value()), old(Value()))
        decreases accMs
      {
        accMs := accMs - frameTick;
        ghost var rest := CatchUpSent(Commit(mgr.Value(), Value()).store, Commit(mgr.Value(), Value()).room);
        var one := CommitFrame();
        assert sent + ([one] + rest) == sent + [one] + rest;
        sent := sent + [one];
      }
      assert sent + [] == sent;
    }

    method Over(force: bool)
      modifies this`endFrameId, this`gateOver
      ensures Value() == Room.Over(old(Value()), force)
    {
      endFrameId := frameId;
      if force { gateOver := true; }
    }

    /** `roomObj::GetCacheFrames`, in key order. */
    method GetCacheFrames(beginId: nat) returns (frames: seq<Sent>)
      requires Valid() && forall k :: k in allOperMap ==> k < frameId
      ensures frames == Collect(mgr.Value(), Value(), beginId, frameId)
    {
      hide Contents;
      frames := [];
      var k := beginId;
      while k < frameId
        invariant frames + Collect(mgr.Value(), Value(), k, frameId) == Collect(mgr.Value(), Value(), beginId, frameId)
      {
        ghost var rest := Collect(mgr.Value(), Value(), k + 1, frameId);
        if k in allOperMap {
          var f := allOperMap[k];
          var one := mgr.CopyOf(f);
          assert frames + ([one] + rest) == frames + [one] + rest;
          frames := frames + [one];
        } else {
          assert frames + ([] + rest) == frames + rest;
        }
        k := k + 1;
      }
      assert frames + [] == frames;
    }

    /** `roomObj::Finnal`: the record sent to the gate, after which every frame is given back. */
    method Finnal() returns (record: seq<Sent>)
      requires Valid() && forall k :: k in allOperMap ==> k < frameId
      modifies this`allOperMap, mgr
      ensures record == Collect(old(mgr.Value()), old(Value()), 0, frameId)
      ensures mgr.Value() == Recycled(old(mgr.Value()), old(Value()), frameId) && allOperMap == map[]
    {
      record := GetCacheFrames(0);
      ghost var r := Value();
      for k := 0 to frameId
        invariant mgr.Value() == Recycled(old(mgr.Value()), r, k) && Value() == r
      {
        if k in allOperMap { mgr.RecyclePt2001(allOperMap[k]); }
      }
      allOperMap := map[];
    }
  }

  /** Numbering a frame leaves its commands alone. */
  lemma NumberingKeeps(s: Store, f: nat, id: nat)
    requires f < |s.frames|
    ensures Contents(s.(frames := s.frames[f := s.frames[f].(id := id)]), f) == Contents(s, f)
  { }

  /** The playing roles not above this one, among those of a set. */
  ghost function PlayingBelow(rids: map<nat, int>, seen: set<nat>, rid: nat): set<nat> {
    set x | x in seen && x in rids && rids[x] <= 1 && x <= rid
  }

  lemma NobodyBelow(rids: map<nat, int>, rid: nat)
    ensures PlayingBelow(rids, {}, rid) == {}
  { }

  lemma CountOne(rids: map<nat, int>, seen: set<nat>, k: nat, rid: nat)
    requires k in rids && k !in seen
    ensures |PlayingBelow(rids, seen + {k}, rid)|
         == |PlayingBelow(rids, seen, rid)| + if rids[k] <= 1 && k <= rid then 1 else 0
  {
    var before, after := PlayingBelow(rids, seen, rid), PlayingBelow(rids, seen + {k}, rid);
    assert after == before + if rids[k] <= 1 && k <= rid then {k} else {};
  }

  lemma AllCounted(r: RoomState, seen: set<nat>, rid: nat)
    requires seen == r.rids.Keys
    ensures |PlayingBelow(r.rids, seen, rid)| == PIdx(r, rid)
  {
    assert PlayingBelow(r.rids, seen, rid) == set x | x in r.rids && r.rids[x] <= 1 && x <= rid;
  }
}
