/** The registry as the code keeps it: arrays and lists edited in place. */
module WsRegistryTables {
  import opened Bytes
  import opened Options
  import opened WsRegistry

  lemma {:induction false} WithoutAt(list: seq<Id>, id: Id, i: nat)
    requires i < |list| && list[i] == id && forall k :: 0 <= k < i ==> list[k] != id
    ensures Without(list, id) == list[..i] + list[i + 1..]
  {
    if i == 0 {
      assert list[..0] + list[1..] == list[1..];
    } else {
      WithoutAt(list[1..], id, i - 1);
      assert [list[0]] + (list[1..][..i - 1] + list[1..][i..]) == list[..i] + list[i + 1..];
    }
  }

  lemma {:induction false} WithoutNone(list: seq<Id>, id: Id)
    requires forall k :: 0 <= k < |list| ==> list[k] != id
    ensures Without(list, id) == list
  {
    if list != [] {
      WithoutNone(list[1..], id);
    }
  }

  class Registry {
    var clients: map<Id, Client>
    const slots: array<Option<Id>>
    var fds: map<nat, Id>
    var count: int
    const users: array<seq<Id>>
    const topics: array<seq<Id>>
    var next: Id
    var clock: nat

    ghost predicate Valid() {
      && slots.Length == SLOTS && users.Length == BUCKETS && topics.Length == BUCKETS && users != topics
    }

    ghost function Now(): (s: State)
      reads this, slots, users, topics
      requires Valid()
      ensures Sized(s)
    {
      State(clients, slots[..], fds, count, users[..], topics[..], next, clock)
    }

    constructor ()
      ensures Valid() && Now() == EMPTY && fresh(slots) && fresh(users) && fresh(topics)
    {
      clients, fds, count, next, clock := map[], map[], 0, 0, 0;
      slots := new Option<Id>[SLOTS](_ => None);
      users := new seq<Id>[BUCKETS](_ => []);
      topics := new seq<Id>[BUCKETS](_ => []);
      new;
      assert slots[..] == NoSlots(SLOTS) && users[..] == Lists(BUCKETS) && topics[..] == Lists(BUCKETS);
    }

    /** ws_registry_add and ws_registry_add_h2: the slot, or -1. */
    method AddClient(fd: int) returns (slot: int)
      requires Valid()
      modifies this, slots
      ensures (Now(), slot) == Add(old(Now()), fd)
    {
      if !ValidFd(fd) {
        return -1;
      }
      ghost var s := Now();
      for i := 0 to SLOTS
        invariant Now() == s
        invariant FreeSlot(s.slots, 0) == FreeSlot(s.slots, i)
      {
        if slots[i].None? {
          clients := clients[next := Client(fd, [], 0, [])];
          slots[i] := Some(next);
          fds := fds[fd := next];
          count := count + 1;
          next := next + 1;
          return i;
        }
      }
      return -1;
    }

    method Locate(fd: int) returns (id: Option<Id>)
      requires Valid()
      ensures id == Find(Now(), fd)
    {
      if !ValidFd(fd) || fd !in fds {
        return None;
      }
      return Some(fds[fd]);
    }

    /** Unlinks the first node of a client, through the link that points at it. */
    method Unlink(lists: array<seq<Id>>, b: nat, id: Id)
      requires b < lists.Length
      modifies lists
      ensures lists[..] == old(lists[..])[b := Without(old(lists[b]), id)]
    {
      var list := lists[b];
      var i := 0;
      while i < |list|
        invariant 0 <= i <= |list| && lists[..] == old(lists[..])
        invariant forall k :: 0 <= k < i ==> list[k] != id
      {
        if list[i] == id {
          WithoutAt(list, id, i);
          lists[b] := list[..i] + list[i + 1..];
          return;
        }
        i := i + 1;
      }
      WithoutNone(list, id);
    }

    /** ws_registry_set_user_id. */
    method SetUserId(fd: int, userId: bytes)
      requires Valid()
      modifies this, users
      ensures Now() == SetUser(old(Now()), fd, userId)
    {
      if |userId| == 0 {
        return;
      }
      var found := Locate(fd);
      if found.None? || found.value !in clients {
        return;
      }
      var id := found.value;
      var c := clients[id];
      if c.userId != [] {
        Unlink(users, Hash(c.userId), id);
      }
      clients := clients[id := c.(userId := Stored(userId), since := clock)];
      clock := clock + 1;
      var b := Hash(userId);
      users[b] := [id] + users[b];
    }

    /** ws_registry_add_to_topic, from the key made of the application and the topic. */
    method AddToTopic(fd: int, key: bytes)
      requires Valid()
      modifies this, topics
      ensures Now() == Subscribe(old(Now()), fd, key)
    {
      var found := Locate(fd);
      if found.None? || found.value !in clients {
        return;
      }
      var id, b := found.value, Hash(key);
      var list := topics[b];
      for i := 0 to |list|
        invariant id !in list[..i]
      {
        if list[i] == id {
          return;
        }
      }
      assert list[..|list|] == list;
      topics[b] := [id] + list;
      var c := clients[id];
      if |c.topics| < MAX_TOPICS {
        clients := clients[id := c.(topics := c.topics + [key])];
      }
      assert clients == old(clients)[id := clients[id]];
    }

    method LeaveTopics(keys: seq<bytes>, id: Id)
      requires Valid()
      modifies topics
      ensures topics[..] == Unsubscribed(old(topics[..]), keys, id)
    {
      assert keys[0..] == keys;
      for i := 0 to |keys|
        invariant Unsubscribed(topics[..], keys[i..], id) == Unsubscribed(old(topics[..]), keys, id)
      {
        assert keys[i..][0] == keys[i] && keys[i..][1..] == keys[i + 1..];
        Unlink(topics, Hash(keys[i]), id);
      }
      assert keys[|keys|..] == [];
    }

    method FreeSlotOf(id: Id)
      requires Valid()
      modifies slots
      ensures slots[..] == Cleared(old(slots[..]), id)
    {
      ghost var s := slots[..];
      for i := 0 to SLOTS
        invariant slots[..] == s && SlotOf(s, id, 0) == SlotOf(s, id, i)
      {
        if slots[i] == Some(id) {
          slots[i] := None;
          return;
        }
      }
    }

    /** ws_registry_remove. */
    method RemoveClient(fd: int)
      requires Valid()
      modifies this, slots, users, topics
      ensures Now() == Remove(old(Now()), fd)
    {
      var found := Locate(fd);
      if found.None? || found.value !in clients {
        return;
      }
      var id := found.value;
      var c := clients[id];
      if c.userId != [] {
        Unlink(users, Hash(c.userId), id);
      }
      LeaveTopics(c.topics, id);
      FreeSlotOf(id);
      fds := fds - {fd};
      count := count - 1;
      clients := clients - {id};
    }

    /** ws_registry_get_session_info: the client that answers to the name. */
    method GetSessionInfo(name: bytes) returns (id: Option<Id>)
      requires Valid()
      ensures id == Lookup(Now(), name)
    {
      var list := users[Hash(name)];
      assert list[0..] == list;
      for i := 0 to |list|
        invariant Holder(clients, list, name) == Holder(clients, list[i..], name)
      {
        assert list[i..][0] == list[i] && list[i..][1..] == list[i + 1..];
        if list[i] in clients && clients[list[i]].userId == name {
          return Some(list[i]);
        }
      }
      return None;
    }
  }
}
