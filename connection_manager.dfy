/** The connection registry of src/managers/connection_manager.cpp: the
    connections in the order they were created, their ids pairwise
    distinct. */
module ConnectionRegistry {
  import opened Bytes
  import opened Vectors
  import opened Connections

  /** The ids of a list of connections, in order. */
  function Ids(cs: seq<Connection>): (ids: seq<Bytes>)
    ensures |ids| == |cs|
    ensures forall i :: 0 <= i < |cs| ==> ids[i] == cs[i].connectionID
  {
    seq(|cs|, i requires 0 <= i < |cs| => cs[i].connectionID)
  }

  predicate DistinctIds(cs: seq<Connection>) {
    forall i, j :: 0 <= i < j < |cs| ==> cs[i].connectionID != cs[j].connectionID
  }

  /** The connection `getConnection` finds: the first whose id matches,
      null when none does. */
  function Lookup(cs: seq<Connection>, id: Bytes): (c: Connection?)
    ensures c == null <==> id !in Ids(cs)
    ensures c != null ==> c in cs && c.connectionID == id
  {
    var i := FirstIndex(Ids(cs), id);
    if i < |cs| then cs[i] else null
  }

  /** Appending a connection with a new id keeps the ids distinct, makes
      the new one findable and leaves every other lookup as it was. */
  lemma LookupAfterAppend(cs: seq<Connection>, c: Connection, id: Bytes)
    requires DistinctIds(cs) && c.connectionID !in Ids(cs)
    ensures DistinctIds(cs + [c])
    ensures Lookup(cs + [c], id) == if id == c.connectionID then c else Lookup(cs, id)
  {
    var ids := Ids(cs);
    assert Ids(cs + [c]) == ids + [c.connectionID];
    var i := FirstIndex(ids, id);
    if i < |cs| {
      assert FirstIndex(ids + [c.connectionID], id) == i;
    }
    forall k | 0 <= k < |cs| ensures cs[k].connectionID != c.connectionID {
      assert ids[k] == cs[k].connectionID;
    }
  }

  /** With distinct ids, taking out the entry found for `id` leaves the
      other ids distinct and `id` no longer found. */
  lemma LookupAfterRemoval(cs: seq<Connection>, id: Bytes)
    requires DistinctIds(cs) && id in Ids(cs)
    ensures var i := FirstIndex(Ids(cs), id);
      && DistinctIds(cs[..i] + cs[i + 1..])
      && Lookup(cs[..i] + cs[i + 1..], id) == null
  {
    var i := FirstIndex(Ids(cs), id);
    var rest := cs[..i] + cs[i + 1..];
    forall k | 0 <= k < |rest| ensures rest[k].connectionID != id {
      if k < i {
        assert rest[k] == cs[k];
      } else {
        assert rest[k] == cs[k + 1];
      }
    }
  }

  class ConnectionManager {
    var connections: seq<Connection>

    /** Connection ids are pairwise distinct. */
    ghost predicate Valid()
      reads this
    {
      DistinctIds(connections)
    }

    /** `getConnections`: the connections in creation order, no two with
        the same id. */
    function GetConnections(): (cs: seq<Connection>)
      reads this
      ensures Valid() ==> DistinctIds(cs)
    {
      connections
    }

    constructor()
      ensures Valid() && connections == []
    {
      connections := [];
    }

    /** `getConnection`: a linear search that returns at the first match. */
    method GetConnection(id: Bytes) returns (c: Connection?)
      ensures c == Lookup(connections, id)
    {
      var i := 0;
      while i < |connections|
        invariant 0 <= i <= |connections|
        invariant forall j :: 0 <= j < i ==> connections[j].connectionID != id
      {
        if connections[i].connectionID == id {
          assert Ids(connections)[i] == id;
          return connections[i];
        }
        i := i + 1;
      }
      c := null;
    }

    /** `createConnection`: refuse an id already present, otherwise append
        a new connection with that id, key and recipient list. */
    method CreateConnection(id: Bytes, key: Bytes, recipients: seq<u16>) returns (ok: bool)
      requires Valid()
      modifies this
      ensures Valid()
      ensures ok <==> id !in Ids(old(connections))
      ensures !ok ==> connections == old(connections)
      ensures ok ==> && |connections| == |old(connections)| + 1
                     && connections[..|old(connections)|] == old(connections)
                     && fresh(connections[|old(connections)|])
                     && connections[|old(connections)|].GetID() == id
                     && connections[|old(connections)|].GetKey() == key
                     && connections[|old(connections)|].GetRecipients() == recipients
    {
      var existing := GetConnection(id);
      if existing != null {
        return false;
      }
      var conn := new Connection(id, key, recipients);
      LookupAfterAppend(connections, conn, id);
      connections := connections + [conn];
      ok := true;
    }

    /** `deleteConnection`: find the first connection with the id, erase it
        from the list and free it; false when there is none. */
    method DeleteConnection(id: Bytes) returns (ok: bool)
      requires Valid()
      modifies this
      ensures Valid()
      ensures ok <==> id in Ids(old(connections))
      ensures !ok ==> connections == old(connections)
      ensures ok ==> var i := FirstIndex(Ids(old(connections)), id);
        connections == old(connections)[..i] + old(connections)[i + 1..]
      ensures Lookup(connections, id) == null
    {
      var i := 0;
      while i < |connections|
        invariant 0 <= i <= |connections|
        invariant forall j :: 0 <= j < i ==> connections[j].connectionID != id
      {
        var conn := connections[i];
        if conn.connectionID == id {
          assert FirstIndex(Ids(connections), id) == i by {
            assert Ids(connections)[i] == id;
          }
          LookupAfterRemoval(connections, id);
          // connections.erase(std::remove(..., conn), ...): the objects
          // are distinct because their ids are
          EraseDistinctAt(connections, i);
          connections := Erase(connections, conn);
          return true;
        }
        i := i + 1;
      }
      ok := false;
    }
  }
}
