/** The two read-only HTTP endpoints: `/health` and `/rooms`. */
module Status {
  import opened OrderedSets
  import opened Rooms

  datatype HealthReport = HealthReport(status: string, activeRooms: nat, totalConnections: nat)

  datatype RoomInfo = RoomInfo(roomId: RoomId, participantCount: nat)

  /** Every room's member list has as many entries as the room's Set has
      elements, and the Map has as many entries as it lists keys. */
  lemma TableSizes(t: RoomTable)
    requires t.Valid()
    ensures |t.members| == |t.keys|
    ensures forall r :: r in t.members ==> |Elements(t.members[r])| == |t.members[r]|
  {
    DistinctSize(t.keys);
    assert t.members.Keys == Elements(t.keys);
    forall r | r in t.members {
      DistinctSize(t.members[r]);
    }
  }

  /** `/rooms`: one entry per room, in the Map's order, with the size of the
      room's member set. */
  function Listing(t: RoomTable): (l: seq<RoomInfo>)
    requires t.Valid()
    ensures |l| == |t.keys| == |t.members|
    ensures forall i :: 0 <= i < |l| ==> l[i].roomId == t.keys[i]
    ensures forall i :: 0 <= i < |l| ==> l[i].roomId in t.members
    ensures forall r :: r in t.members ==> exists i :: 0 <= i < |l| && l[i].roomId == r
    ensures forall i, j :: 0 <= i < j < |l| ==> l[i].roomId != l[j].roomId
    ensures forall i :: 0 <= i < |l| ==>
              l[i].participantCount == |Elements(t.members[l[i].roomId])| && l[i].participantCount > 0
  {
    TableSizes(t);
    var l := seq(|t.keys|, i requires 0 <= i < |t.keys| => RoomInfo(t.keys[i], |t.members[t.keys[i]]|));
    ListingEntries(t, l);
    l
  }

  /** The entries of the listing are the table's keys, in order. */
  lemma ListingEntries(t: RoomTable, l: seq<RoomInfo>)
    requires t.Valid() && |l| == |t.keys|
    requires forall i :: 0 <= i < |l| ==> l[i] == RoomInfo(t.keys[i], |t.members[t.keys[i]]|)
    ensures forall r :: r in t.members ==> exists i :: 0 <= i < |l| && l[i].roomId == r
    ensures forall i, j :: 0 <= i < j < |l| ==> l[i].roomId != l[j].roomId
  {
    forall r | r in t.members ensures exists i :: 0 <= i < |l| && l[i].roomId == r {
      var i :| 0 <= i < |t.keys| && t.keys[i] == r;
      assert l[i].roomId == r;
    }
  }

  /** `/health`: the number of rooms in the table, which is also the number
      of entries `/rooms` lists, and the transport's connection count. */
  function Health(t: RoomTable, clientsCount: nat): (h: HealthReport)
    requires t.Valid()
    ensures h.status == "OK" && h.totalConnections == clientsCount
    ensures h.activeRooms == |t.keys| == |Listing(t)|
    ensures h.activeRooms == 0 <==> t.members == map[]
  {
    TableSizes(t);
    HealthReport("OK", |t.members|, clientsCount)
  }
}
