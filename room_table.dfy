/** The relay's room table: the `rooms` Map from room id to the Set of
    connection ids that joined it. The Map's key order and each Set's
    insertion order are kept, because they decide the order of the
    `room-participants` list, of the `/rooms` listing and of the
    notifications a disconnect sends. */
module Rooms {
  import opened OrderedSets

  /** Room ids and connection ids share one namespace: socket.io gives every
      connection a room named by its own id. */
  type RoomId = string
  type ConnId = string

  datatype RoomTable = RoomTable(keys: seq<RoomId>, members: map<RoomId, seq<ConnId>>) {

    /** The Map's keys are listed once each, and no room is kept once its
        member set is empty. */
    ghost predicate Valid()
    {
      && Distinct(keys)
      && (forall r :: r in members <==> r in keys)
      && (forall r :: r in members ==> members[r] != [] && Distinct(members[r]))
    }

    /** `join-room`: create the room (as the Map's last key) when it is
        unknown, then add s to its member set. */
    function Join(r: RoomId, s: ConnId): RoomTable
    {
      var t := if r in members then this else RoomTable(keys + [r], members[r := []]);
      RoomTable(t.keys, t.members[r := Insert(t.members[r], s)])
    }

    /** `leave-room`: when the room is known, delete s from it and delete the
        room if that left it empty; an unknown room changes nothing. */
    function Leave(r: RoomId, s: ConnId): RoomTable
    {
      if r !in members then this
      else
        var rest := Without(members[r], s);
        if rest == [] then RoomTable(Without(keys, r), members - {r})
        else RoomTable(keys, members[r := rest])
    }

    /** The rooms of ks, in the order of ks, whose member set holds s. */
    function Containing(ks: seq<RoomId>, s: ConnId): (rc: seq<RoomId>)
      ensures forall k :: k in rc <==> k in ks && k in members && s in members[k]
      ensures Distinct(ks) ==> Distinct(rc)
      decreases |ks|
    {
      if ks == [] then []
      else
        var front, k := ks[..|ks| - 1], ks[|ks| - 1];
        assert ks == front + [k];
        DistinctSnoc(front, k);
        var rc := Containing(front, s);
        DistinctSnoc(rc, k);
        if k in members && s in members[k] then rc + [k] else rc
    }

    /** The `disconnect` walk over the rooms ks, in order: every room whose
        member set holds s is left as by `leave-room`. */
    function LeaveAll(ks: seq<RoomId>, s: ConnId): RoomTable
      decreases |ks|
    {
      if ks == [] then this
      else
        var t, k := LeaveAll(ks[..|ks| - 1], s), ks[|ks| - 1];
        if k in t.members && s in t.members[k] then t.Leave(k, s) else t
    }
  }

  /** Joining puts s into room r, creating r at the end of the key order when
      it was unknown; no other room changes, and joining a room one already
      belongs to changes nothing. */
  lemma JoinEffect(t: RoomTable, r: RoomId, s: ConnId)
    requires t.Valid()
    ensures t.Join(r, s).Valid()
    ensures r in t.Join(r, s).members && s in t.Join(r, s).members[r]
    ensures Elements(t.Join(r, s).members[r])
            == (if r in t.members then Elements(t.members[r]) else {}) + {s}
    ensures t.Join(r, s).keys == if r in t.members then t.keys else t.keys + [r]
    ensures forall k :: k != r ==> (k in t.Join(r, s).members <==> k in t.members)
    ensures forall k :: k != r && k in t.members ==> t.Join(r, s).members[k] == t.members[k]
    ensures r in t.members && s in t.members[r] ==> t.Join(r, s) == t
  {
    DistinctSnoc(t.keys, r);
  }

  /** The `room-participants` reply lists the room after the join minus the
      joiner: never the joiner, each member once, and, when the joiner was
      not yet a member, exactly the members who were already there, in the
      order they joined. */
  lemma {:induction false} JoinReply(t: RoomTable, r: RoomId, s: ConnId)
    requires t.Valid()
    ensures s !in Without(t.Join(r, s).members[r], s)
    ensures Distinct(Without(t.Join(r, s).members[r], s))
    ensures Elements(Without(t.Join(r, s).members[r], s)) == Elements(t.Join(r, s).members[r]) - {s}
    ensures r !in t.members ==> Without(t.Join(r, s).members[r], s) == []
    ensures r in t.members ==> Without(t.Join(r, s).members[r], s) == Without(t.members[r], s)
    ensures r in t.members && s !in t.members[r] ==> Without(t.Join(r, s).members[r], s) == t.members[r]
  {
    JoinEffect(t, r, s);
    if r in t.members && s !in t.members[r] {
      WithoutAppend(t.members[r], [s], s);
    }
  }

  /** Leaving deletes s from room r, and deletes r itself when s was its only
      member; an unknown room leaves the table as it was; no other room
      changes. */
  lemma LeaveEffect(t: RoomTable, r: RoomId, s: ConnId)
    requires t.Valid()
    ensures t.Leave(r, s).Valid()
    ensures r !in t.members ==> t.Leave(r, s) == t
    ensures r in t.members ==> (r in t.Leave(r, s).members <==> Elements(t.members[r]) != {s})
    ensures r in t.Leave(r, s).members ==> Elements(t.Leave(r, s).members[r]) == Elements(t.members[r]) - {s}
    ensures r in t.members && r in t.Leave(r, s).members ==> t.Leave(r, s).members[r] == Without(t.members[r], s)
    ensures forall k :: k != r ==> (k in t.Leave(r, s).members <==> k in t.members)
    ensures forall k :: k != r && k in t.members ==> t.Leave(r, s).members[k] == t.members[k]
    ensures forall k, c :: k in t.Leave(r, s).members && c in t.Leave(r, s).members[k] ==>
              k in t.members && c in t.members[k]
  {
    if r in t.members {
      WithoutEmpty(t.members[r], s);
      var rest := Without(t.members[r], s);
      if rest == [] {
        var ks := Without(t.keys, r);
        assert forall k :: k in ks <==> k in Elements(ks);
        assert forall k :: k in t.keys <==> k in Elements(t.keys);
      }
      var u := t.Leave(r, s);
      forall k, c | k in u.members && c in u.members[k] ensures k in t.members && c in t.members[k] {
        if k == r {
          assert c in Elements(u.members[r]);
        }
      }
    }
  }

  /** The walk over distinct rooms ks removes s from each of them, deleting
      those it empties, and leaves every other room as it was. */
  lemma {:induction false} LeaveAllEffect(t: RoomTable, ks: seq<RoomId>, s: ConnId)
    requires t.Valid()
    requires Distinct(ks) && forall k :: k in ks ==> k in t.members
    ensures t.LeaveAll(ks, s).Valid()
    ensures forall k :: k in t.LeaveAll(ks, s).members ==> k in t.members
    ensures forall k :: k in t.members && k !in ks ==>
              k in t.LeaveAll(ks, s).members && t.LeaveAll(ks, s).members[k] == t.members[k]
    ensures forall k :: k in ks ==> (k in t.LeaveAll(ks, s).members <==> Without(t.members[k], s) != [])
    ensures forall k :: k in ks && k in t.LeaveAll(ks, s).members ==>
              t.LeaveAll(ks, s).members[k] == Without(t.members[k], s)
  {
    if ks != [] {
      var front, k := ks[..|ks| - 1], ks[|ks| - 1];
      assert ks == front + [k];
      DistinctSnoc(front, k);
      LeaveAllEffect(t, front, s);
      var u := t.LeaveAll(front, s);
      assert k in u.members && u.members[k] == t.members[k];
      if s in t.members[k] {
        var v, rest := t.LeaveAll(ks, s), Without(t.members[k], s);
        assert v == u.Leave(k, s);
        assert v.Valid() by {
          LeaveEffect(u, k, s);
        }
        assert v.members == if rest == [] then u.members - {k} else u.members[k := rest];
      } else {
        assert t.LeaveAll(ks, s) == u;
      }
    }
  }

  /** One step of the walk over the table's own keys: the room visited next is
      still as it was, and the walk and its list of rooms holding s each grow
      by that room alone. */
  lemma LeaveAllStep(t: RoomTable, i: nat, s: ConnId)
    requires t.Valid() && i < |t.keys|
    ensures t.keys[i] in t.LeaveAll(t.keys[..i], s).members
    ensures t.LeaveAll(t.keys[..i], s).members[t.keys[i]] == t.members[t.keys[i]]
    ensures t.LeaveAll(t.keys[..i + 1], s) ==
              if s in t.members[t.keys[i]] then t.LeaveAll(t.keys[..i], s).Leave(t.keys[i], s)
              else t.LeaveAll(t.keys[..i], s)
    ensures t.Containing(t.keys[..i + 1], s) ==
              t.Containing(t.keys[..i], s) + if s in t.members[t.keys[i]] then [t.keys[i]] else []
  {
    var ks, r := t.keys, t.keys[i];
    assert ks[..i + 1][..i] == ks[..i];
    assert ks == ks[..i] + [r] + ks[i + 1..];
    assert Distinct(ks[..i] + [r]) by {
      forall a, b | 0 <= a < b < i + 1 ensures (ks[..i] + [r])[a] != (ks[..i] + [r])[b] {
        assert (ks[..i] + [r])[a] == ks[a] && (ks[..i] + [r])[b] == ks[b];
      }
    }
    DistinctSnoc(ks[..i], r);
    LeaveAllEffect(t, ks[..i], s);
  }

  /** `disconnect`: afterwards s belongs to no room; rooms that did not hold
      s are untouched; a room that held s loses s and is deleted exactly
      when s was its only member. */
  lemma DisconnectEffect(t: RoomTable, s: ConnId)
    requires t.Valid()
    ensures t.LeaveAll(t.keys, s).Valid()
    ensures forall k :: k in t.LeaveAll(t.keys, s).members ==>
              k in t.members && s !in t.LeaveAll(t.keys, s).members[k]
    ensures forall k :: k in t.members && s !in t.members[k] ==>
              k in t.LeaveAll(t.keys, s).members && t.LeaveAll(t.keys, s).members[k] == t.members[k]
    ensures forall k :: k in t.members && s in t.members[k] ==>
              (k in t.LeaveAll(t.keys, s).members <==> Elements(t.members[k]) != {s})
    ensures forall k :: k in t.LeaveAll(t.keys, s).members ==>
              Elements(t.LeaveAll(t.keys, s).members[k]) == Elements(t.members[k]) - {s}
    ensures forall k, c :: k in t.LeaveAll(t.keys, s).members && c in t.LeaveAll(t.keys, s).members[k] ==>
              c != s && c in t.members[k]
  {
    var d := t.LeaveAll(t.keys, s);
    LeaveAllEffect(t, t.keys, s);
    forall k | k in d.members
      ensures k in t.members && Elements(d.members[k]) == Elements(t.members[k]) - {s}
    {
    }
    forall k | k in t.members && s in t.members[k]
      ensures k in d.members <==> Elements(t.members[k]) != {s}
    {
      WithoutEmpty(t.members[k], s);
    }
    forall k, c | k in d.members && c in d.members[k]
      ensures c != s && c in t.members[k]
    {
      assert c in Elements(d.members[k]);
    }
  }

  /** The rooms a disconnect notifies: each room holding s once, so there are
      as many as there are such rooms. */
  lemma ContainingCount(t: RoomTable, s: ConnId)
    requires t.Valid()
    ensures |t.Containing(t.keys, s)| == |set k | k in t.members && s in t.members[k]|
  {
    var rc := t.Containing(t.keys, s);
    assert Elements(rc) == set k | k in t.members && s in t.members[k];
    DistinctSize(rc);
  }

  /** The rooms holding s are listed in the order of ks. */
  lemma {:induction false} ContainingOrder(t: RoomTable, ks: seq<RoomId>, s: ConnId)
    ensures forall i, j :: 0 <= i < j < |t.Containing(ks, s)| ==>
              Before(ks, t.Containing(ks, s)[i], t.Containing(ks, s)[j])
    decreases |ks|
  {
    if ks != [] {
      var front, k := ks[..|ks| - 1], ks[|ks| - 1];
      var rc, rf := t.Containing(ks, s), t.Containing(front, s);
      ContainingOrder(t, front, s);
      forall i, j | 0 <= i < j < |rc| ensures Before(ks, rc[i], rc[j]) {
        if j < |rf| {
          assert rc[i] == rf[i] && rc[j] == rf[j];
          var a, b :| 0 <= a < b < |front| && front[a] == rf[i] && front[b] == rf[j];
          assert ks[a] == rc[i] && ks[b] == rc[j];
        } else {
          assert rc[i] == rf[i] && rf[i] in rf && rc[j] == k;
          var a :| 0 <= a < |front| && front[a] == rf[i];
          assert ks[a] == rc[i] && ks[|ks| - 1] == rc[j];
        }
      }
    }
  }

  /** A run of `join-room` events for room r from the connections cs, in order. */
  function JoinEach(t: RoomTable, r: RoomId, cs: seq<ConnId>): RoomTable
    decreases |cs|
  {
    if cs == [] then t else JoinEach(t, r, cs[..|cs| - 1]).Join(r, cs[|cs| - 1])
  }

  /** Distinct connections joining a room that did not exist make a room with
      exactly those members, in the order they joined. */
  lemma {:induction false} JoinEachOrder(t: RoomTable, r: RoomId, cs: seq<ConnId>)
    requires t.Valid() && r !in t.members
    requires Distinct(cs) && cs != []
    ensures JoinEach(t, r, cs).Valid()
    ensures r in JoinEach(t, r, cs).members && JoinEach(t, r, cs).members[r] == cs
  {
    var front, c := cs[..|cs| - 1], cs[|cs| - 1];
    assert cs == front + [c];
    DistinctSnoc(front, c);
    if front == [] {
      JoinEffect(t, r, c);
    } else {
      JoinEachOrder(t, r, front);
      JoinEffect(JoinEach(t, r, front), r, c);
    }
  }

  /** In such a run, the i-th joiner is told exactly the connections that
      joined before it, in order. */
  lemma JoinEachReplies(t: RoomTable, r: RoomId, cs: seq<ConnId>, i: nat)
    requires t.Valid() && r !in t.members
    requires Distinct(cs) && i < |cs|
    ensures r in JoinEach(t, r, cs[..i + 1]).members
    ensures Without(JoinEach(t, r, cs[..i + 1]).members[r], cs[i]) == cs[..i]
  {
    var joined := cs[..i + 1];
    assert joined == cs[..i] + [cs[i]];
    assert Distinct(joined) by {
      forall a, b | 0 <= a < b < |joined| ensures joined[a] != joined[b] {
        assert joined[a] == cs[a] && joined[b] == cs[b];
      }
    }
    DistinctSnoc(cs[..i], cs[i]);
    JoinEachOrder(t, r, joined);
    WithoutAppend(cs[..i], [cs[i]], cs[i]);
  }
}
