/** The signalling relay: the socket handlers `join-room`, `leave-room`,
    `offer`, `answer`, `ice-candidate` and `disconnect`, over the room table
    and the set of live connections. What the server sends is recorded in an
    outbox, one entry per `emit`, with the set of connections it reaches. */
module Signaling {
  import opened OrderedSets
  import opened Rooms

  /** An offer, answer or ICE candidate: relayed, never inspected. */
  type Payload = string

  datatype SignalKind = Offer | Answer | IceCandidate

  /** What a client receives. */
  datatype Event =
    | UserJoined(id: ConnId)
    | UserLeft(id: ConnId)
    | RoomParticipants(ids: seq<ConnId>)
    | Signal(kind: SignalKind, payload: Payload, from: ConnId)

  /** One `emit` call and the connections it reaches. */
  datatype Emit = Emit(to: set<ConnId>, event: Event)

  /** socket.io's room named x: the connections the table lists for x, and the
      live connection whose own id is x. */
  function Audience(t: RoomTable, live: set<ConnId>, x: string): set<ConnId>
  {
    (if x in t.members then Elements(t.members[x]) else {}) + (if x in live then {x} else {})
  }

  /** `socket.to(x)` for the sending connection s: everyone in room x except
      s itself and except everyone in s's own id-room, since socket.io leaves
      the sender's id-room out of every broadcast the sender makes. */
  function Recipients(t: RoomTable, live: set<ConnId>, x: string, s: ConnId): set<ConnId>
  {
    Audience(t, live, x) - Audience(t, live, s) - {s}
  }

  /** s leaving a room does not change who else shares s's own id-room. */
  lemma LeaveOwnRoom(t: RoomTable, live: set<ConnId>, r: RoomId, s: ConnId)
    ensures Audience(t.Leave(r, s), live, s) - {s} == Audience(t, live, s) - {s}
  {
    if r in t.members && r == s {
      var rest := Without(t.members[r], s);
      if rest == [] {
        assert Elements(rest) == {};
      }
      assert Elements(rest) == Elements(t.members[r]) - {s};
    }
  }

  /** Nor does the `disconnect` walk, at any point. */
  lemma {:induction false} WalkOwnRoom(t: RoomTable, live: set<ConnId>, i: nat, s: ConnId)
    requires t.Valid() && i <= |t.keys|
    ensures Audience(t.LeaveAll(t.keys[..i], s), live, s) - {s} == Audience(t, live, s) - {s}
  {
    if i == 0 {
      assert t.keys[..0] == [];
    } else {
      WalkOwnRoom(t, live, i - 1, s);
      LeaveAllStep(t, i - 1, s);
      LeaveOwnRoom(t.LeaveAll(t.keys[..i - 1], s), live, t.keys[i - 1], s);
    }
  }

  /** The `user-left` notices of a disconnect of s, one for each room of rs,
      each sent to the room as it is once s has left it. */
  function Departures(t: RoomTable, live: set<ConnId>, rs: seq<RoomId>, s: ConnId): (d: seq<Emit>)
    ensures |d| == |rs|
    decreases |rs|
  {
    if rs == [] then []
    else
      var r := rs[|rs| - 1];
      Departures(t, live, rs[..|rs| - 1], s) + [Emit(Recipients(t.Leave(r, s), live, r, s), UserLeft(s))]
  }

  /** A relay reaches at most its target and the members of a room of that
      name, never the sender nor anyone sharing the sender's id-room; when the
      target names no room it reaches the target alone, exactly when the
      target is live, is not the sender and does not share its id-room. */
  lemma RelayDelivery(t: RoomTable, live: set<ConnId>, target: string, s: ConnId)
    ensures s !in Recipients(t, live, target, s)
    ensures Recipients(t, live, target, s) !! Audience(t, live, s)
    ensures Recipients(t, live, target, s)
            <= {target} + (if target in t.members then Elements(t.members[target]) else {})
    ensures target !in t.members ==>
              Recipients(t, live, target, s)
              == if target in live && target != s && target !in Audience(t, live, s) then {target} else {}
    ensures target !in t.members && s !in t.members ==>
              Recipients(t, live, target, s) == if target in live && target != s then {target} else {}
  {
  }

  /** `user-joined` reaches the room's other members, whatever it held
      before the join, and never the joiner; the only other connection it
      can reach is one whose own id is the room's name. Those who share the
      joiner's id-room are left out; when no room is named like the joiner,
      that is nobody. */
  lemma JoinNotification(t: RoomTable, live: set<ConnId>, r: RoomId, s: ConnId)
    requires t.Valid()
    ensures forall c :: c in Recipients(t.Join(r, s), live, r, s) <==>
              && c != s
              && ((r in t.members && c in t.members[r]) || (c == r && r in live))
              && c !in Audience(t, live, s)
    ensures s !in t.members ==>
              forall c :: c in Recipients(t.Join(r, s), live, r, s) <==>
                c != s && ((r in t.members && c in t.members[r]) || (c == r && r in live))
  {
    JoinEffect(t, r, s);
    assert Audience(t.Join(r, s), live, s) - {s} == Audience(t, live, s) - {s};
  }

  /** The i-th departure notice is the one for the i-th room. */
  lemma {:induction false} DepartureAt(t: RoomTable, live: set<ConnId>, rs: seq<RoomId>, s: ConnId, i: nat)
    requires i < |rs|
    ensures Departures(t, live, rs, s)[i] == Emit(Recipients(t.Leave(rs[i], s), live, rs[i], s), UserLeft(s))
    decreases |rs|
  {
    var front := rs[..|rs| - 1];
    if i < |front| {
      DepartureAt(t, live, front, s, i);
    } else if front != [] {
      DepartureAt(t, live, front, s, 0);
    }
  }

  /** Once s has left room r, `socket.to(r)` reaches the members r had
      other than s, and a live connection whose own id is r, leaving out
      those who share s's id-room (nobody, when no room is named like s). */
  lemma LeftRoomRecipients(t: RoomTable, live: set<ConnId>, r: RoomId, s: ConnId)
    requires t.Valid() && r in t.members
    ensures forall c :: c in Recipients(t.Leave(r, s), live, r, s) <==>
              c != s && (c in t.members[r] || (c == r && c in live)) && c !in Audience(t, live, s)
    ensures s !in t.members ==>
              forall c :: c in Recipients(t.Leave(r, s), live, r, s) <==>
                c != s && (c in t.members[r] || (c == r && c in live))
  {
    LeaveOwnRoom(t, live, r, s);
    var rest := Without(t.members[r], s);
    var rooms := if r in t.Leave(r, s).members then Elements(t.Leave(r, s).members[r]) else {};
    assert rooms == Elements(rest) by {
      if rest == [] {
        assert Elements(rest) == {};
      }
    }
    assert Recipients(t.Leave(r, s), live, r, s)
           == (rooms + (if r in live then {r} else {})) - (Audience(t, live, s) - {s}) - {s};
  }

  /** In `disconnect` the notice for a room is emitted after s is deleted
      from it but before an emptied room is deleted from the Map; it reaches
      the same connections as it would after the deletion. */
  lemma EmitBeforeDelete(t: RoomTable, live: set<ConnId>, r: RoomId, s: ConnId)
    requires r in t.members
    ensures Recipients(RoomTable(t.keys, t.members[r := Without(t.members[r], s)]), live, r, s)
            == Recipients(t.Leave(r, s), live, r, s)
  {
    if Without(t.members[r], s) == [] {
      assert Elements(Without(t.members[r], s)) == {};
    }
  }

  /** One room of the `disconnect` walk over the table's own keys: the room
      visited is still as it was when the walk began; if it holds s, the walk
      moves on by s leaving it and by one notice to the room as it is
      afterwards, and otherwise nothing changes. */
  lemma WalkStep(t: RoomTable, live: set<ConnId>, i: nat, s: ConnId, u: RoomTable, r: RoomId)
    requires t.Valid() && i < |t.keys| && r == t.keys[i] && u == t.LeaveAll(t.keys[..i], s)
    ensures r in u.members && u.members[r] == t.members[r]
    ensures t.LeaveAll(t.keys[..i + 1], s) == if s in u.members[r] then u.Leave(r, s) else u
    ensures Departures(t, live, t.Containing(t.keys[..i + 1], s), s)
            == Departures(t, live, t.Containing(t.keys[..i], s), s)
               + if s in u.members[r] then [Emit(Recipients(u.Leave(r, s), live, r, s), UserLeft(s))] else []
  {
    LeaveAllStep(t, i, s);
    WalkOwnRoom(t, live, i, s);
    NoticeStep(t, live, t.Containing(t.keys[..i], s), s, u, r);
  }

  /** The notices grow by one for a room holding s, sent to that room as it
      is after s left it in whatever table the walk has reached, provided
      the room is still as it was. */
  lemma NoticeStep(t: RoomTable, live: set<ConnId>, rc: seq<RoomId>, s: ConnId, u: RoomTable, r: RoomId)
    requires r in t.members && r in u.members && u.members[r] == t.members[r]
    requires Audience(u, live, s) - {s} == Audience(t, live, s) - {s}
    ensures Departures(t, live, rc + if s in u.members[r] then [r] else [], s)
            == Departures(t, live, rc, s)
               + if s in u.members[r] then [Emit(Recipients(u.Leave(r, s), live, r, s), UserLeft(s))] else []
  {
    if s in u.members[r] {
      assert (rc + [r])[..|rc|] == rc;
      SameRoomLeft(t, u, live, r, s);
    } else {
      assert rc + [] == rc;
    }
  }

  /** Who hears that s left room r depends on room r and on who else shares
      s's id-room alone. */
  lemma SameRoomLeft(t: RoomTable, u: RoomTable, live: set<ConnId>, r: RoomId, s: ConnId)
    requires r in t.members && r in u.members && u.members[r] == t.members[r]
    requires Audience(u, live, s) - {s} == Audience(t, live, s) - {s}
    ensures Recipients(u.Leave(r, s), live, r, s) == Recipients(t.Leave(r, s), live, r, s)
  {
    LeaveOwnRoom(t, live, r, s);
    LeaveOwnRoom(u, live, r, s);
    var room := Audience(t.Leave(r, s), live, r);
    assert Audience(u.Leave(r, s), live, r) == room;
    assert Recipients(u.Leave(r, s), live, r, s) == room - (Audience(u.Leave(r, s), live, s) - {s}) - {s};
    assert Recipients(t.Leave(r, s), live, r, s) == room - (Audience(t.Leave(r, s), live, s) - {s}) - {s};
  }

  /** The `disconnect` loop's invariant on the table survives one room:
      after the steps `WalkStep` describes, the table is the walk's next
      state. */
  lemma WalkAdvanceTable(t: RoomTable, i: nat, s: ConnId, u: RoomTable, u': RoomTable)
    requires t.Valid() && i < |t.keys| && u == t.LeaveAll(t.keys[..i], s)
    requires t.keys[i] in u.members
    requires u' == if s in u.members[t.keys[i]] then u.Leave(t.keys[i], s) else u
    ensures u' == t.LeaveAll(t.keys[..i + 1], s)
  {
    WalkStep(t, {}, i, s, u, t.keys[i]);
  }

  /** The `disconnect` loop's invariant on the outbox survives one room: after
      the steps `WalkStep` describes, the outbox holds the walk's notices so
      far. */
  lemma WalkAdvanceNotices(t: RoomTable, live: set<ConnId>, i: nat, s: ConnId, u: RoomTable,
                           out0: seq<Emit>, sent: seq<Emit>, sent': seq<Emit>)
    requires t.Valid() && i < |t.keys| && u == t.LeaveAll(t.keys[..i], s)
    requires sent == out0 + Departures(t, live, t.Containing(t.keys[..i], s), s)
    requires t.keys[i] in u.members
    requires sent' == sent +
               if s in u.members[t.keys[i]] then [Emit(Recipients(u.Leave(t.keys[i], s), live, t.keys[i], s), UserLeft(s))] else []
    ensures sent' == out0 + Departures(t, live, t.Containing(t.keys[..i + 1], s), s)
  {
    var r := t.keys[i];
    var notes := if s in u.members[r] then [Emit(Recipients(u.Leave(r, s), live, r, s), UserLeft(s))] else [];
    WalkStep(t, live, i, s, u, r);
    AppendAssoc(out0, Departures(t, live, t.Containing(t.keys[..i], s), s), notes);
  }

  /** Appending to the outbox in two steps is appending once. */
  lemma AppendAssoc<T>(a: seq<T>, b: seq<T>, c: seq<T>)
    ensures (a + b) + c == a + (b + c)
  {
  }

  /** A disconnect of s sends exactly one `user-left(s)` for each room that
      held s, in the order `Containing` lists them, each to `Recipients` of
      that room once s has left it. */
  lemma DisconnectNotices(t: RoomTable, live: set<ConnId>, s: ConnId)
    requires t.Valid()
    ensures |Departures(t, live, t.Containing(t.keys, s), s)| == |t.Containing(t.keys, s)|
            == |set k | k in t.members && s in t.members[k]|
    ensures forall i :: 0 <= i < |t.Containing(t.keys, s)| ==>
              t.Containing(t.keys, s)[i] in t.members && s in t.members[t.Containing(t.keys, s)[i]]
    ensures forall i :: 0 <= i < |t.Containing(t.keys, s)| ==>
              Departures(t, live, t.Containing(t.keys, s), s)[i]
              == Emit(Recipients(t.Leave(t.Containing(t.keys, s)[i], s), live, t.Containing(t.keys, s)[i], s), UserLeft(s))
  {
    var rc := t.Containing(t.keys, s);
    ContainingCount(t, s);
    if rc != [] {
      DepartureAt(t, live, rc, s, 0);
    }
    forall i | 0 <= i < |rc|
      ensures rc[i] in t.members && s in t.members[rc[i]]
      ensures Departures(t, live, rc, s)[i] == Emit(Recipients(t.Leave(rc[i], s), live, rc[i], s), UserLeft(s))
    {
      assert rc[i] in rc;
      DepartureAt(t, live, rc, s, i);
    }
  }

  class SignalingServer {
    /** The `rooms` Map: its keys in insertion order, and each room's Set. */
    var keys: seq<RoomId>
    var rooms: map<RoomId, seq<ConnId>>
    /** The connected sockets. */
    var live: set<ConnId>
    /** Everything emitted so far. */
    var outbox: seq<Emit>

    function Table(): RoomTable
      reads this`keys, this`rooms
    {
      RoomTable(keys, rooms)
    }

    /** The table keeps no empty room, and only live connections are members. */
    ghost predicate Valid()
      reads this`keys, this`rooms, this`live
    {
      && Table().Valid()
      && forall r, c :: r in rooms && c in rooms[r] ==> c in live
    }

    /** Server start: an empty `rooms` Map and no connections. */
    constructor ()
      ensures Valid()
      ensures keys == [] && rooms == map[] && live == {} && outbox == []
    {
      keys, rooms, live, outbox := [], map[], {}, [];
    }

    /** A socket connects with a fresh id. */
    method Connect(c: ConnId)
      requires Valid() && c !in live
      modifies this
      ensures Valid()
      ensures live == old(live) + {c}
      ensures keys == old(keys) && rooms == old(rooms) && outbox == old(outbox)
    {
      live := live + {c};
    }

    /** `socket.to(x).emit(e)` on the socket s. */
    method EmitTo(x: string, s: ConnId, e: Event)
      modifies this`outbox
      ensures outbox == old(outbox) + [Emit(Recipients(Table(), live, x, s), e)]
    {
      outbox := outbox + [Emit(Recipients(Table(), live, x, s), e)];
    }

    /** The table half of `join-room`: create the room when it is unknown,
        then add s to its member set. */
    method AddMember(s: ConnId, r: RoomId)
      requires Valid() && s in live
      modifies this`keys, this`rooms
      ensures Valid()
      ensures Table() == old(Table()).Join(r, s)
    {
      ghost var t := Table();
      if r !in rooms {
        keys := keys + [r];
        rooms := rooms[r := []];
      }
      rooms := rooms[r := Insert(rooms[r], s)];
      assert Table() == t.Join(r, s);
      assert Table().Valid() by {
        JoinEffect(t, r, s);
      }
      forall k, c | k in rooms && c in rooms[k] ensures c in live {
        if k == r {
          assert c in Elements(rooms[r]);
        } else {
          assert rooms[k] == t.members[k];
        }
      }
    }

    /** `join-room` from s: s joins the room, the room's other members hear
        `user-joined`, and s receives the room's other members. */
    method JoinRoom(s: ConnId, r: RoomId)
      requires Valid() && s in live
      modifies this`keys, this`rooms, this`outbox
      ensures Valid()
      ensures Table() == old(Table()).Join(r, s)
      ensures r in rooms && s in rooms[r]
      ensures outbox == old(outbox) + [
                Emit(Recipients(Table(), live, r, s), UserJoined(s)),
                Emit({s}, RoomParticipants(Without(rooms[r], s)))]
    {
      ghost var sent := outbox;
      AddMember(s, r);
      assert r in rooms && s in rooms[r] by {
        JoinEffect(old(Table()), r, s);
      }
      EmitTo(r, s, UserJoined(s));
      ghost var joined := outbox[|sent|];
      var participants := Without(rooms[r], s);
      outbox := outbox + [Emit({s}, RoomParticipants(participants))];
      assert outbox == sent + [joined, Emit({s}, RoomParticipants(participants))] by {
        AppendAssoc(sent, [joined], [Emit({s}, RoomParticipants(participants))]);
      }
    }

    /** `leave-room` from s. */
    method LeaveRoom(s: ConnId, r: RoomId)
      requires Valid() && s in live
      modifies this
      ensures Valid()
      ensures Table() == old(Table()).Leave(r, s) && live == old(live)
      ensures outbox == old(outbox) +
                if r in old(rooms) then [Emit(Recipients(Table(), live, r, s), UserLeft(s))] else []
    {
      ghost var t := Table();
      if r in rooms {
        var room := Without(rooms[r], s);
        rooms := rooms[r := room];
        if |room| == 0 {
          rooms := rooms - {r};
          keys := Without(keys, r);
          assert rooms == t.members - {r};
        }
        EmitTo(r, s, UserLeft(s));
      }
      assert Table() == t.Leave(r, s);
      assert Valid() by {
        LeaveEffect(t, r, s);
      }
    }

    /** `offer`, `answer` and `ice-candidate` from s: the payload goes on,
        unchanged and marked as coming from s, to `socket.to(target)`. */
    method Relay(s: ConnId, kind: SignalKind, target: string, payload: Payload)
      requires Valid() && s in live
      modifies this`outbox
      ensures Valid()
      ensures keys == old(keys) && rooms == old(rooms) && live == old(live)
      ensures outbox == old(outbox) + [Emit(Recipients(Table(), live, target, s), Signal(kind, payload, s))]
    {
      EmitTo(target, s, Signal(kind, payload, s));
    }

    /** The body of the `disconnect` loop for room r: if r holds s, delete s
        from it, emit `user-left` to the room, and delete the room if that
        emptied it; otherwise do nothing. The notice reaches the room as it is
        once s has left, whether or not the room is then deleted. */
    method DepartRoom(s: ConnId, r: RoomId)
      requires r in rooms
      modifies this`keys, this`rooms, this`outbox
      ensures Table() == if s in old(rooms[r]) then old(Table()).Leave(r, s) else old(Table())
      ensures outbox == old(outbox) +
                if s in old(rooms[r]) then [Emit(Recipients(old(Table()).Leave(r, s), live, r, s), UserLeft(s))] else []
    {
      ghost var t := Table();
      var room := rooms[r];
      if s in room {
        room := Without(room, s);
        rooms := rooms[r := room];
        EmitTo(r, s, UserLeft(s));
        assert outbox == old(outbox) + [Emit(Recipients(t.Leave(r, s), live, r, s), UserLeft(s))] by {
          EmitBeforeDelete(t, live, r, s);
        }
        if |room| == 0 {
          rooms := rooms - {r};
          keys := Without(keys, r);
          assert rooms == t.members - {r};
        }
      }
    }

    /** `disconnect` of s: the socket is gone, and each room is visited in the
        Map's order as `DepartRoom` describes. */
    method Disconnect(s: ConnId)
      requires Valid() && s in live
      modifies this
      ensures Valid()
      ensures live == old(live) - {s}
      ensures Table() == old(Table()).LeaveAll(old(keys), s)
      ensures outbox == old(outbox) + Departures(old(Table()), live, old(Table()).Containing(old(keys), s), s)
    {
      live := live - {s};
      ghost var t0, out0 := Table(), outbox;
      var ks := keys;
      var i := 0;
      assert ks[..0] == [];
      while i < |ks|
        invariant 0 <= i <= |ks| && ks == t0.keys
        invariant live == old(live) - {s}
        invariant Table() == t0.LeaveAll(ks[..i], s)
        invariant outbox == out0 + Departures(t0, live, t0.Containing(ks[..i], s), s)
      {
        ghost var u, sent := Table(), outbox;
        assert ks[i] in rooms by {
          WalkStep(t0, live, i, s, u, ks[i]);
        }
        DepartRoom(s, ks[i]);
        WalkAdvanceTable(t0, i, s, u, Table());
        WalkAdvanceNotices(t0, live, i, s, u, out0, sent, outbox);
        i := i + 1;
      }
      assert ks[..i] == ks;
      assert Valid() by {
        DisconnectEffect(t0, s);
      }
    }
  }
}
