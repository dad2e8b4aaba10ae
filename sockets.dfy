/** The real-time channel registry of socket.ts: a `Map` from user id to the
    id of that user's current socket, filled by `register_user`, emptied by
    `disconnect`, and read by `sendNotification`. */
module Sockets {
  import opened Schemas

  /** One entry of the JavaScript `Map`, which iterates in insertion order. */
  datatype Entry = Entry(userId: string, socketId: string)

  /** One `io.to(socketId).emit(eventName, data)`. */
  datatype Emission<T> = Emission(socketId: string, eventName: string, data: T)

  const ReceiveNotification := "receive_notification"

  /** A `Map` holds each key once. */
  predicate UniqueKeys(entries: seq<Entry>)
  {
    forall i, j :: 0 <= i < j < |entries| ==> entries[i].userId != entries[j].userId
  }

  /** `map.get(key)`. */
  function Get(entries: seq<Entry>, key: string): (r: Option<string>)
    ensures r.Some? <==> exists i :: 0 <= i < |entries| && entries[i].userId == key
  {
    if entries == [] then None
    else if entries[0].userId == key then Some(entries[0].socketId)
    else
      var r := Get(entries[1..], key);
      assert forall i :: 1 <= i < |entries| ==> entries[i] == entries[1..][i - 1];
      r
  }

  /** `map.set(key, value)`: an existing key keeps its place and takes the new
      value; a new key goes to the end. */
  function Set(entries: seq<Entry>, key: string, value: string): seq<Entry>
  {
    if entries == [] then [Entry(key, value)]
    else if entries[0].userId == key then [Entry(key, value)] + entries[1..]
    else [entries[0]] + Set(entries[1..], key, value)
  }

  /** `map.delete(key)`. */
  function Delete(entries: seq<Entry>, key: string): seq<Entry>
  {
    if entries == [] then []
    else if entries[0].userId == key then Delete(entries[1..], key)
    else [entries[0]] + Delete(entries[1..], key)
  }

  /** Position of the first entry, in iteration order, whose value is `socketId`. */
  function FirstOwner(entries: seq<Entry>, socketId: string): (r: Option<nat>)
    ensures r.Some? ==> r.value < |entries| && entries[r.value].socketId == socketId
    ensures r.Some? ==> forall k :: 0 <= k < r.value ==> entries[k].socketId != socketId
    ensures r.None? ==> forall k :: 0 <= k < |entries| ==> entries[k].socketId != socketId
  {
    if entries == [] then None
    else if entries[0].socketId == socketId then Some(0)
    else
      match FirstOwner(entries[1..], socketId)
      case None => None
      case Some(k) => Some(k + 1)
  }

  /** The map after `disconnect` of `socketId`: the key of the first entry
      holding that socket is deleted, and nothing else. */
  function AfterDisconnect(entries: seq<Entry>, socketId: string): seq<Entry>
  {
    match FirstOwner(entries, socketId)
    case None => entries
    case Some(k) => Delete(entries, entries[k].userId)
  }

  /** Registering stores the new socket for the user (last registration wins)
      and leaves every other user's mapping as it was. */
  lemma {:induction false} SetThenGet(entries: seq<Entry>, key: string, value: string, other: string)
    ensures Get(Set(entries, key, value), key) == Some(value)
    ensures other != key ==> Get(Set(entries, key, value), other) == Get(entries, other)
  {
    if entries != [] && entries[0].userId != key {
      SetThenGet(entries[1..], key, value, other);
    }
  }

  lemma {:induction false} SetKeepsKeysUnique(entries: seq<Entry>, key: string, value: string)
    requires UniqueKeys(entries)
    ensures UniqueKeys(Set(entries, key, value))
    ensures forall i :: 0 <= i < |Set(entries, key, value)| ==>
      Set(entries, key, value)[i].userId == key || exists j :: 0 <= j < |entries| && entries[j].userId == Set(entries, key, value)[i].userId
  {
    if entries != [] && entries[0].userId != key {
      SetKeepsKeysUnique(entries[1..], key, value);
      var tail := Set(entries[1..], key, value);
      forall i | 0 <= i < |tail| && tail[i].userId != key
        ensures tail[i].userId != entries[0].userId
      {
        var j :| 0 <= j < |entries[1..]| && entries[1..][j].userId == tail[i].userId;
        assert entries[j + 1] == entries[1..][j];
      }
    }
  }

  /** Deleting a key removes exactly that key. */
  lemma {:induction false} DeleteThenGet(entries: seq<Entry>, key: string, other: string)
    ensures Get(Delete(entries, key), key) == None
    ensures other != key ==> Get(Delete(entries, key), other) == Get(entries, other)
  {
    if entries != [] {
      DeleteThenGet(entries[1..], key, other);
    }
  }

  lemma {:induction false} DeleteKeepsKeysUnique(entries: seq<Entry>, key: string)
    requires UniqueKeys(entries)
    ensures UniqueKeys(Delete(entries, key))
    ensures |Delete(entries, key)| <= |entries|
    ensures forall i :: 0 <= i < |Delete(entries, key)| ==> Delete(entries, key)[i] in entries
  {
    if entries != [] {
      DeleteKeepsKeysUnique(entries[1..], key);
    }
  }

  /** `disconnect` drops at most one user: the first whose socket is the one
      that closed; every other user's mapping is unchanged. */
  lemma DisconnectRemovesFirstOwner(entries: seq<Entry>, socketId: string, user: string)
    ensures var after := AfterDisconnect(entries, socketId);
      match FirstOwner(entries, socketId)
      case None => after == entries
      case Some(k) =>
        && Get(after, entries[k].userId) == None
        && (user != entries[k].userId ==> Get(after, user) == Get(entries, user))
  {
    match FirstOwner(entries, socketId)
    case None =>
    case Some(k) => DeleteThenGet(entries, entries[k].userId, user);
  }

  /** A user who registered again on a new socket keeps that mapping when the
      old socket disconnects. */
  lemma ReconnectSurvivesOldDisconnect(entries: seq<Entry>, user: string, oldSocket: string, newSocket: string)
    requires UniqueKeys(entries) && oldSocket != newSocket
    ensures Get(AfterDisconnect(Set(entries, user, newSocket), oldSocket), user) == Some(newSocket)
  {
    var e := Set(entries, user, newSocket);
    SetThenGet(entries, user, newSocket, user);
    SetKeepsKeysUnique(entries, user, newSocket);
    match FirstOwner(e, oldSocket)
    case None =>
    case Some(k) =>
      if e[k].userId == user {
        GetFindsKey(e, user, k);
        assert false;
      }
      DeleteThenGet(e, e[k].userId, user);
  }

  /** With unique keys, `Get` reads the one entry holding the key. */
  lemma {:induction false} GetFindsKey(entries: seq<Entry>, key: string, j: nat)
    requires UniqueKeys(entries) && j < |entries| && entries[j].userId == key
    ensures Get(entries, key) == Some(entries[j].socketId)
  {
    if j > 0 {
      assert entries[1..][j - 1] == entries[j];
      GetFindsKey(entries[1..], key, j - 1);
    }
  }

  /** The emission `sendNotification` makes: one, to the receiver's socket, when
      the server is up and the receiver has a (non-empty) socket id; else none. */
  function PushFor<T>(ioReady: bool, entries: seq<Entry>, receiverId: string, eventName: string, data: T): (r: seq<Emission<T>>)
    ensures |r| <= 1
    ensures |r| == 1 <==> ioReady && Get(entries, receiverId).Some? && Get(entries, receiverId).value != ""
    ensures |r| == 1 ==> r[0] == Emission(Get(entries, receiverId).value, eventName, data)
  {
    if !ioReady then []
    else
      match Get(entries, receiverId)
      case Some(socketId) => if socketId != "" then [Emission(socketId, eventName, data)] else []
      case None => []
  }

  class SocketRegistry<T> {
    /** Whether `initSocket` has created the server (`io` is set). */
    var ioReady: bool
    /** `userSocketMap`, in insertion order. */
    var entries: seq<Entry>
    /** Every emission made so far, oldest first. */
    var emitted: seq<Emission<T>>

    ghost predicate Valid()
      reads this
    {
      UniqueKeys(entries)
    }

    /** Before `initSocket`: no server, empty map. */
    constructor ()
      ensures Valid() && !ioReady && entries == [] && emitted == []
    {
      ioReady := false;
      entries := [];
      emitted := [];
    }

    /** `initSocket`: the server exists from now on. */
    method InitSocket()
      modifies this`ioReady
      ensures ioReady
    {
      ioReady := true;
    }

    /** The socket currently registered for a user, if any. */
    function Lookup(userId: string): Option<string>
      reads this
    {
      Get(entries, userId)
    }

    /** `register_user`: an empty user id is ignored; otherwise the user's
        mapping becomes this socket, replacing any earlier one. */
    method RegisterUser(userId: string, socketId: string)
      requires Valid()
      modifies this`entries
      ensures Valid()
      ensures entries == if userId != "" then Set(old(entries), userId, socketId) else old(entries)
      ensures userId != "" ==> Lookup(userId) == Some(socketId)
      ensures forall u :: u != userId ==> Lookup(u) == old(Lookup(u))
    {
      if userId != "" {
        SetKeepsKeysUnique(entries, userId, socketId);
        forall u | u != userId
          ensures Get(Set(entries, userId, socketId), u) == Get(entries, u)
        {
          SetThenGet(entries, userId, socketId, u);
        }
        SetThenGet(entries, userId, socketId, userId);
        entries := Set(entries, userId, socketId);
      }
    }

    /** `disconnect`: scan the entries in order and delete the first user whose
        socket is the closing one, then stop. */
    method Disconnect(socketId: string)
      requires Valid()
      modifies this`entries
      ensures Valid()
      ensures entries == AfterDisconnect(old(entries), socketId)
    {
      var i := 0;
      while i < |entries|
        invariant 0 <= i <= |entries|
        invariant entries == old(entries)
        invariant forall k :: 0 <= k < i ==> entries[k].socketId != socketId
      {
        if entries[i].socketId == socketId {
          DeleteKeepsKeysUnique(entries, entries[i].userId);
          entries := Delete(entries, entries[i].userId);
          break;
        }
        i := i + 1;
      }
    }

    /** `sendNotification`: look the receiver up and emit to that socket only
        when the server is up and a socket is registered. */
    method SendNotification(receiverId: string, eventName: string, data: T)
      modifies this`emitted
      ensures emitted == old(emitted) + PushFor(ioReady, entries, receiverId, eventName, data)
    {
      if !ioReady {
        return;
      }
      var socketId := Get(entries, receiverId);
      if socketId.Some? && socketId.value != "" {
        emitted := emitted + [Emission(socketId.value, eventName, data)];
      }
    }
  }
}
