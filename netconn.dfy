/**
 * The connection registry of netconn (pkg/netconn/manager.go).
 *
 * A connection is an opaque id; what its Close and Write calls do on the
 * network is not modelled, only whether they report an error, which the
 * caller passes in.
 */
module ConnManager {
  import opened Wrappers

  /** An opaque network connection. */
  type Conn = nat

  datatype ConnectionType = Server | Client

  datatype ConnError = ConnectionNotFound | CloseFailed | WriteFailed

  class ConnectionManager {
    var connMap: map<int, Conn>
    var connTypeMap: map<int, ConnectionType>
    var nextFd: int

    /** Both maps have the same fds, and every registered fd was handed out already. */
    ghost predicate Valid()
      reads this
    {
      && connMap.Keys == connTypeMap.Keys
      && nextFd >= 1000
      && forall fd :: fd in connMap ==> 1000 < fd <= nextFd
    }

    /** NewConnectionManager: empty maps, counter at 1000. */
    constructor ()
      ensures Valid()
      ensures connMap == map[] && connTypeMap == map[] && nextFd == 1000
    {
      connMap := map[];
      connTypeMap := map[];
      nextFd := 1000;
    }

    /** AllocateFd: the counter is incremented and its new value returned, so fds strictly increase from 1001. */
    method AllocateFd(connType: ConnectionType) returns (fd: int)
      requires Valid()
      modifies this
      ensures Valid()
      ensures fd == old(nextFd) + 1 && nextFd == fd && fd > 1000
      ensures fd !in connMap
      ensures connMap == old(connMap) && connTypeMap == old(connTypeMap)
    {
      nextFd := nextFd + 1;
      fd := nextFd;
    }

    /** RegisterConn: a fresh fd is mapped to the connection and its type in both maps. */
    method RegisterConn(conn: Conn, connType: ConnectionType) returns (fd: int)
      requires Valid()
      modifies this
      ensures Valid()
      ensures fd !in old(connMap) && fd == old(nextFd) + 1
      ensures connMap == old(connMap)[fd := conn]
      ensures connTypeMap == old(connTypeMap)[fd := connType]
      ensures GetConnCount() == old(GetConnCount()) + 1
    {
      fd := AllocateFd(connType);
      RegisterGrowsCount(connMap, fd, conn);
      connMap := connMap[fd := conn];
      connTypeMap := connTypeMap[fd := connType];
    }

    /** UnregisterConn: a registered fd is closed and removed from both maps; an unknown fd changes nothing. */
    method UnregisterConn(fd: int) returns (closed: Option<Conn>)
      requires Valid()
      modifies this
      ensures Valid()
      ensures fd in old(connMap) ==> closed == Some(old(connMap)[fd])
      ensures fd !in old(connMap) ==> closed == None
      ensures connMap == old(connMap) - {fd} && connTypeMap == old(connTypeMap) - {fd}
      ensures GetConnCount() == old(GetConnCount()) - (if fd in old(connMap) then 1 else 0)
      ensures nextFd == old(nextFd)
    {
      RemoveShrinksCount(connMap, fd);
      if fd in connMap {
        closed := Some(connMap[fd]);
        connMap := connMap - {fd};
        connTypeMap := connTypeMap - {fd};
      } else {
        closed := None;
      }
    }

    /** GetConn. */
    function GetConn(fd: int): (r: Option<Conn>)
      reads this
      ensures r.Some? <==> fd in connMap
      ensures r.Some? ==> r.value == connMap[fd]
    {
      if fd in connMap then Some(connMap[fd]) else None
    }

    /** GetConnType. */
    function GetConnType(fd: int): (r: Option<ConnectionType>)
      reads this
      ensures r.Some? <==> fd in connTypeMap
      ensures r.Some? ==> r.value == connTypeMap[fd]
    {
      if fd in connTypeMap then Some(connTypeMap[fd]) else None
    }

    /** CloseConn: an unknown fd is an error; otherwise the fd is removed from both maps
        whatever the connection's Close reports, and that report is returned. */
    method CloseConn(fd: int, closeFails: bool) returns (r: Option<ConnError>)
      requires Valid()
      modifies this
      ensures Valid()
      ensures fd !in old(connMap) ==> r == Some(ConnectionNotFound) && connMap == old(connMap) && connTypeMap == old(connTypeMap)
      ensures fd in old(connMap) ==> r == (if closeFails then Some(CloseFailed) else None)
      ensures connMap == old(connMap) - {fd} && connTypeMap == old(connTypeMap) - {fd}
      ensures nextFd == old(nextFd)
    {
      if fd !in connMap {
        return Some(ConnectionNotFound);
      }
      r := if closeFails then Some(CloseFailed) else None;
      connMap := connMap - {fd};
      connTypeMap := connTypeMap - {fd};
    }

    /** CloseAll: every registered connection is closed exactly once, in the order
        GetAllFds lists them (ascending, so no fd repeats), then both maps are empty. */
    method CloseAll() returns (fds: seq<int>, closed: seq<Conn>)
      requires Valid()
      modifies this
      ensures Valid()
      ensures forall fd :: fd in fds <==> fd in old(connMap)
      ensures forall k :: 0 <= k < |fds| ==> fds[k] in old(connMap)
      ensures forall j, k :: 0 <= j < k < |fds| ==> fds[j] < fds[k]
      ensures |closed| == |fds|
      ensures forall k :: 0 <= k < |fds| ==> closed[k] == old(connMap)[fds[k]]
      ensures connMap == map[] && connTypeMap == map[] && nextFd == old(nextFd)
    {
      fds := GetAllFds();
      closed := [];
      var i := 0;
      while i < |fds|
        invariant 0 <= i <= |fds|
        invariant |closed| == i
        invariant forall k :: 0 <= k < |fds| ==> fds[k] in connMap
        invariant forall k :: 0 <= k < i ==> closed[k] == connMap[fds[k]]
      {
        closed := closed + [connMap[fds[i]]];
        i := i + 1;
      }
      connMap := map[];
      connTypeMap := map[];
    }

    /** SendBytes: an unknown fd is an error; otherwise the connection's Write report. */
    method SendBytes(fd: int, data: seq<bv8>, writeFails: bool) returns (r: Option<ConnError>)
      requires Valid()
      ensures fd !in connMap ==> r == Some(ConnectionNotFound)
      ensures fd in connMap ==> r == (if writeFails then Some(WriteFailed) else None)
    {
      var conn := GetConn(fd);
      if conn.None? {
        return Some(ConnectionNotFound);
      }
      r := if writeFails then Some(WriteFailed) else None;
    }

    /** GetAllFds: every registered fd exactly once. Go visits a map in an unspecified
        order; the model visits the fds in ascending order, which is one of those orders,
        by scanning the range (1000, nextFd] that Valid confines them to. */
    method GetAllFds() returns (fds: seq<int>)
      requires Valid()
      ensures forall fd :: fd in fds <==> fd in connMap
      ensures forall k :: 0 <= k < |fds| ==> fds[k] in connMap
      ensures forall j, k :: 0 <= j < k < |fds| ==> fds[j] < fds[k]
    {
      fds := [];
      var next := 1001;
      while next <= nextFd
        invariant 1001 <= next <= nextFd + 1
        invariant forall fd :: fd in fds <==> fd in connMap && fd < next
        invariant forall j, k :: 0 <= j < k < |fds| ==> fds[j] < fds[k]
        invariant forall k :: 0 <= k < |fds| ==> fds[k] < next
      {
        if next in connMap {
          fds := fds + [next];
        }
        next := next + 1;
      }
    }

    /** GetConnCount. */
    function GetConnCount(): (n: nat)
      reads this
      ensures n == |connMap.Keys|
    {
      |connMap|
    }
  }

  /** Registering a fresh fd adds exactly one connection to the count. */
  lemma RegisterGrowsCount(m: map<int, Conn>, fd: int, c: Conn)
    requires fd !in m
    ensures |m[fd := c]| == |m| + 1
  {
    assert m[fd := c].Keys == m.Keys + {fd};
  }

  /** Removing an fd takes one connection off the count if it was registered, and none otherwise. */
  lemma RemoveShrinksCount(m: map<int, Conn>, fd: int)
    ensures fd in m ==> |m - {fd}| == |m| - 1
    ensures fd !in m ==> m - {fd} == m
  {
    assert (m - {fd}).Keys == m.Keys - {fd};
  }
}
