/** The WebSocket registry: slots, descriptor map, user map and topic buckets, and what
    keeps the four of them in agreement. Clients are known by the order of their creation. */
module WsRegistry {
  import opened Bytes
  import Djb2
  import opened Options

  const SLOTS := 1024
  const MAX_FDS := 65536
  const BUCKETS := 256
  const MAX_TOPICS := 16
  const USER_MAX := 63

  type Id = nat

  /** `since` is when the name was set; the code does not store it, it orders the user map. */
  datatype Client = Client(fd: nat, userId: bytes, since: nat, topics: seq<bytes>)

  datatype State = State(
    clients: map<Id, Client>,       // the live clients
    slots: seq<Option<Id>>,
    fds: map<nat, Id>,
    count: int,
    users: seq<seq<Id>>,
    topics: seq<seq<Id>>,
    next: Id,                       // the next client created
    clock: nat)                     // the next time a name is set

  function Hash(key: bytes): (b: nat)
    ensures b < BUCKETS
  {
    Djb2.Slot(key, BUCKETS)
  }

  // ----- Lists of clients

  /** The list after the first node of `id` is unlinked. */
  function Without(list: seq<Id>, id: Id): seq<Id> {
    if list == [] then [] else if list[0] == id then list[1..] else [list[0]] + Without(list[1..], id)
  }

  ghost predicate Distinct(list: seq<Id>) {
    forall i, j :: 0 <= i < j < |list| ==> list[i] != list[j]
  }

  lemma {:induction false} WithoutRemoves(list: seq<Id>, id: Id)
    ensures forall x: Id :: x != id ==> (x in Without(list, id) <==> x in list)
    ensures forall x: Id :: x in Without(list, id) ==> x in list
  {
    if list != [] {
      WithoutRemoves(list[1..], id);
      assert list == [list[0]] + list[1..];
    }
  }

  lemma {:induction false} ConsIsDistinct(first: Id, rest: seq<Id>)
    requires Distinct(rest) && forall j :: 0 <= j < |rest| ==> rest[j] != first
    ensures Distinct([first] + rest)
  {
  }

  lemma {:induction false} WithoutIsDistinct(list: seq<Id>, id: Id)
    requires Distinct(list)
    ensures Distinct(Without(list, id)) && id !in Without(list, id)
  {
    if list != [] && list[0] != id {
      var rest := Without(list[1..], id);
      WithoutIsDistinct(list[1..], id);
      WithoutRemoves(list[1..], id);
      forall j | 0 <= j < |rest| ensures rest[j] != list[0] {
        assert rest[j] in rest;
        var k :| 1 <= k < |list| && list[k] == rest[j];
      }
      ConsIsDistinct(list[0], rest);
    }
  }

  /** Newest name first. */
  ghost predicate NewestFirst(clients: map<Id, Client>, list: seq<Id>) {
    && (forall i :: 0 <= i < |list| ==> list[i] in clients)
    && (forall i, j :: 0 <= i < j < |list| ==> clients[list[i]].since > clients[list[j]].since)
  }

  lemma {:induction false} NewestFirstIsDistinct(clients: map<Id, Client>, list: seq<Id>)
    requires NewestFirst(clients, list)
    ensures Distinct(list)
  {
  }

  lemma {:induction false} ConsNewest(clients: map<Id, Client>, first: Id, rest: seq<Id>)
    requires NewestFirst(clients, rest) && first in clients
    requires forall j :: 0 <= j < |rest| ==> clients[first].since > clients[rest[j]].since
    ensures NewestFirst(clients, [first] + rest)
  {
  }

  lemma {:induction false} WithoutKeepsOrder(clients: map<Id, Client>, list: seq<Id>, id: Id)
    requires NewestFirst(clients, list)
    ensures NewestFirst(clients, Without(list, id))
  {
    if list != [] && list[0] != id {
      var rest := Without(list[1..], id);
      WithoutKeepsOrder(clients, list[1..], id);
      WithoutRemoves(list[1..], id);
      forall j | 0 <= j < |rest| ensures clients[list[0]].since > clients[rest[j]].since {
        assert rest[j] in rest;
        var k :| 1 <= k < |list| && list[k] == rest[j];
      }
      ConsNewest(clients, list[0], rest);
    } else if list != [] {
      assert Without(list, id) == list[1..];
    }
  }

  // ----- The operations

  predicate ValidFd(fd: int) {
    0 <= fd < MAX_FDS
  }

  /** The first free slot; SLOTS if there is none. */
  function FreeSlot(slots: seq<Option<Id>>, i: nat): (j: nat)
    requires i <= |slots|
    ensures i <= j <= |slots| && (j < |slots| ==> slots[j].None?)
    ensures forall k :: i <= k < j ==> slots[k].Some?
    decreases |slots| - i
  {
    if i == |slots| || slots[i].None? then i else FreeSlot(slots, i + 1)
  }

  /** The slot of a client; SLOTS if it has none. */
  function SlotOf(slots: seq<Option<Id>>, id: Id, i: nat): (j: nat)
    requires i <= |slots|
    ensures i <= j <= |slots| && (j < |slots| ==> slots[j] == Some(id))
    ensures forall k :: i <= k < j ==> slots[k] != Some(id)
    decreases |slots| - i
  {
    if i == |slots| || slots[i] == Some(id) then i else SlotOf(slots, id, i + 1)
  }

  function Add(s: State, fd: int): (State, int) {
    var i := FreeSlot(s.slots, 0);
    if !ValidFd(fd) || i == |s.slots| then (s, -1)
    else
      (s.(clients := s.clients[s.next := Client(fd, [], 0, [])], slots := s.slots[i := Some(s.next)],
          fds := s.fds[fd := s.next], count := s.count + 1, next := s.next + 1), i as int)
  }

  function Find(s: State, fd: int): Option<Id> {
    if !ValidFd(fd) then None
    else
      var key: nat := fd;
      if key in s.fds then Some(s.fds[key]) else None
  }

  /** The user map without the node of a client, if the client has a name. */
  function Unnamed(users: seq<seq<Id>>, userId: bytes, id: Id): (u: seq<seq<Id>>)
    requires |users| == BUCKETS
    ensures |u| == BUCKETS
  {
    if userId == [] then users else users[Hash(userId) := Without(users[Hash(userId)], id)]
  }

  function Stored(userId: bytes): bytes {
    if |userId| > USER_MAX then userId[..USER_MAX] else userId
  }

  predicate Sized(s: State) {
    |s.slots| == SLOTS && |s.users| == BUCKETS && |s.topics| == BUCKETS
  }

  function SetUser(s: State, fd: int, userId: bytes): State
    requires Sized(s)
  {
    match Find(s, fd)
    case None => s
    case Some(id) =>
      if userId == [] || id !in s.clients then s
      else
        var c := s.clients[id];
        var users := Unnamed(s.users, c.userId, id);
        s.(clients := s.clients[id := c.(userId := Stored(userId), since := s.clock)],
           users := users[Hash(userId) := [id] + users[Hash(userId)]],
           clock := s.clock + 1)
  }

  function Subscribe(s: State, fd: int, key: bytes): State
    requires Sized(s)
  {
    match Find(s, fd)
    case None => s
    case Some(id) =>
      if id !in s.clients || id in s.topics[Hash(key)] then s
      else
        var c := s.clients[id];
        s.(clients := s.clients[id := if |c.topics| < MAX_TOPICS then c.(topics := c.topics + [key]) else c],
           topics := s.topics[Hash(key) := [id] + s.topics[Hash(key)]])
  }

  /** The buckets after a client has been taken out of those of the topics it recorded. */
  function Unsubscribed(topics: seq<seq<Id>>, keys: seq<bytes>, id: Id): (t: seq<seq<Id>>)
    requires |topics| == BUCKETS
    ensures |t| == BUCKETS
    decreases |keys|
  {
    if keys == [] then topics
    else Unsubscribed(topics[Hash(keys[0]) := Without(topics[Hash(keys[0])], id)], keys[1..], id)
  }

  function Cleared(slots: seq<Option<Id>>, id: Id): (r: seq<Option<Id>>)
    ensures |r| == |slots|
  {
    var i := SlotOf(slots, id, 0);
    if i < |slots| then slots[i := None] else slots
  }

  function Remove(s: State, fd: int): State
    requires Sized(s)
  {
    match Find(s, fd)
    case None => s
    case Some(id) =>
      if id !in s.clients then s
      else
        var c := s.clients[id];
        s.(clients := s.clients - {id}, slots := Cleared(s.slots, id), fds := s.fds - {fd},
           count := s.count - 1, users := Unnamed(s.users, c.userId, id),
           topics := Unsubscribed(s.topics, c.topics, id))
  }

  /** The first client in a list that holds the name. */
  function Holder(clients: map<Id, Client>, list: seq<Id>, name: bytes): Option<Id> {
    if list == [] then None
    else if list[0] in clients && clients[list[0]].userId == name then Some(list[0])
    else Holder(clients, list[1..], name)
  }

  /** ws_registry_get_session_info. */
  function Lookup(s: State, name: bytes): Option<Id>
    requires Sized(s)
  {
    Holder(s.clients, s.users[Hash(name)], name)
  }

  // ----- Coherence

  ghost predicate SlotsAgree(clients: map<Id, Client>, slots: seq<Option<Id>>) {
    && (forall i :: 0 <= i < |slots| && slots[i].Some? ==> slots[i].value in clients)
    && (forall i, j :: 0 <= i < j < |slots| && slots[i].Some? ==> slots[i] != slots[j])
    && (forall id :: id in clients ==> Some(id) in slots)
  }

  ghost predicate FdsAgree(clients: map<Id, Client>, fds: map<nat, Id>) {
    && (forall fd :: fd in fds ==> ValidFd(fd) && fds[fd] in clients && clients[fds[fd]].fd == fd)
    && (forall id :: id in clients ==> clients[id].fd in fds && fds[clients[id].fd] == id)
  }

  ghost predicate InBucketOf(clients: map<Id, Client>, id: Id, b: nat) {
    id in clients && clients[id].userId != [] && Hash(clients[id].userId) == b
  }

  ghost predicate UsersAgree(clients: map<Id, Client>, users: seq<seq<Id>>, clock: nat) {
    && |users| == BUCKETS
    && (forall b :: 0 <= b < BUCKETS ==> NewestFirst(clients, users[b]))
    && (forall b, id :: 0 <= b < BUCKETS && id in users[b] ==> InBucketOf(clients, id, b))
    && (forall id :: id in clients && clients[id].userId != [] ==> id in users[Hash(clients[id].userId)])
    && (forall id :: id in clients ==> clients[id].userId == [] || clients[id].since < clock)
  }

  ghost predicate Covers(keys: seq<bytes>, b: nat) {
    exists i :: 0 <= i < |keys| && Hash(keys[i]) == b
  }

  ghost predicate Recorded(keys: seq<bytes>, topics: seq<seq<Id>>, id: Id)
    requires |topics| == BUCKETS
  {
    && |keys| <= MAX_TOPICS
    && (forall i, j :: 0 <= i < j < |keys| ==> Hash(keys[i]) != Hash(keys[j]))
    && (forall i :: 0 <= i < |keys| ==> id in topics[Hash(keys[i])])
    && (|keys| < MAX_TOPICS ==> forall b :: 0 <= b < BUCKETS && id in topics[b] ==> Covers(keys, b))
  }

  /** Recorded topics are in different buckets, the client is in those buckets, and in no
      others unless the record is full. */
  ghost predicate TopicsAgree(clients: map<Id, Client>, topics: seq<seq<Id>>, next: Id) {
    && |topics| == BUCKETS
    && (forall b :: 0 <= b < BUCKETS ==> Distinct(topics[b]))
    && (forall b, id :: 0 <= b < BUCKETS && id in topics[b] ==> id < next)
    && (forall id :: id in clients ==> id < next && Recorded(clients[id].topics, topics, id))
  }

  ghost predicate Coherent(s: State) {
    && Sized(s) && s.count == |s.clients|
    && SlotsAgree(s.clients, s.slots) && FdsAgree(s.clients, s.fds)
    && UsersAgree(s.clients, s.users, s.clock) && TopicsAgree(s.clients, s.topics, s.next)
  }

  function Lists(n: nat): (l: seq<seq<Id>>)
    ensures |l| == n && forall i :: 0 <= i < n ==> l[i] == []
  {
    if n == 0 then [] else Lists(n - 1) + [[]]
  }

  function NoSlots(n: nat): (l: seq<Option<Id>>)
    ensures |l| == n && forall i :: 0 <= i < n ==> l[i] == None
  {
    if n == 0 then [] else NoSlots(n - 1) + [None]
  }

  const EMPTY: State := State(map[], NoSlots(SLOTS), map[], 0, Lists(BUCKETS), Lists(BUCKETS), 0, 0)

  lemma {:induction false} EmptyIsCoherent()
    ensures Coherent(EMPTY)
  {
  }

  // ----- Adding

  lemma {:induction false} NewInSlots(clients: map<Id, Client>, slots: seq<Option<Id>>, id: Id, c: Client, i: nat)
    requires SlotsAgree(clients, slots) && id !in clients && i < |slots| && slots[i].None?
    ensures SlotsAgree(clients[id := c], slots[i := Some(id)])
  {
    var r := slots[i := Some(id)];
    assert r[i] == Some(id);
    forall x | x in clients ensures Some(x) in r {
      var k :| 0 <= k < |slots| && slots[k] == Some(x);
      assert r[k] == Some(x);
    }
  }

  lemma {:induction false} NewInUsers(clients: map<Id, Client>, users: seq<seq<Id>>, clock: nat, id: Id, c: Client)
    requires UsersAgree(clients, users, clock) && id !in clients && c.userId == []
    ensures UsersAgree(clients[id := c], users, clock)
  {
    var r := clients[id := c];
    forall b, x | 0 <= b < BUCKETS && x in users[b] ensures InBucketOf(r, x, b) {
      assert InBucketOf(clients, x, b);
    }
    forall b | 0 <= b < BUCKETS ensures NewestFirst(r, users[b]) {
      assert NewestFirst(clients, users[b]);
    }
  }

  lemma {:induction false} NewInTopics(clients: map<Id, Client>, topics: seq<seq<Id>>, next: Id, c: Client)
    requires TopicsAgree(clients, topics, next) && c.topics == []
    ensures TopicsAgree(clients[next := c], topics, next + 1)
  {
    assert forall b, x :: 0 <= b < BUCKETS && x in topics[b] ==> x < next;
    assert Recorded([], topics, next);
  }

  lemma {:induction false} NewInFds(clients: map<Id, Client>, fds: map<nat, Id>, id: Id, c: Client)
    requires FdsAgree(clients, fds) && id !in clients && ValidFd(c.fd) && c.fd !in fds
    ensures FdsAgree(clients[id := c], fds[c.fd := id])
    ensures |clients[id := c]| == |clients| + 1
  {
  }

  lemma {:induction false} LostDescriptor(clients: map<Id, Client>, fds: map<nat, Id>, id: Id, other: Id)
    requires id in clients && clients[id].fd in fds && fds[clients[id].fd] == other != id
    ensures !FdsAgree(clients, fds)
  {
  }

  lemma {:induction false} NextIsNew(s: State, fd: nat)
    requires Coherent(s)
    ensures s.next !in s.clients
    ensures fd in s.fds ==> s.fds[fd] in s.clients && s.clients[s.fds[fd]].fd == fd
  {
    hide SlotsAgree, UsersAgree, Recorded;
  }

  /** A client added on a free descriptor leaves the registry coherent; on a busy one it
      does not, since the older client loses its descriptor. */
  lemma {:induction false} AddKeepsCoherence(s: State, fd: int)
    requires Coherent(s) && Add(s, fd).1 >= 0
    ensures Coherent(Add(s, fd).0) <==> fd !in s.fds
  {
    hide SlotsAgree, FdsAgree, UsersAgree, TopicsAgree;
    var t, c := Add(s, fd).0, Client(fd, [], 0, []);
    NextIsNew(s, fd);
    if fd in s.fds {
      LostDescriptor(t.clients, t.fds, s.fds[fd], s.next);
    } else {
      NewInSlots(s.clients, s.slots, s.next, c, Add(s, fd).1);
      NewInFds(s.clients, s.fds, s.next, c);
      NewInUsers(s.clients, s.users, s.clock, s.next, c);
      NewInTopics(s.clients, s.topics, s.next, c);
    }
  }

  // ----- Naming

  lemma {:induction false} RenamedInOthers(clients: map<Id, Client>, list: seq<Id>, id: Id, c: Client)
    requires NewestFirst(clients, list) && id !in list
    ensures NewestFirst(clients[id := c], list)
  {
    assert forall i :: 0 <= i < |list| ==> list[i] in list;
  }

  /** Without its old name a client is in no list, and the lists are as they were. */
  lemma {:induction false} UnnamedIsNowhere(clients: map<Id, Client>, users: seq<seq<Id>>, clock: nat, id: Id)
    requires UsersAgree(clients, users, clock) && id in clients
    ensures var u := Unnamed(users, clients[id].userId, id);
      && (forall b :: 0 <= b < BUCKETS ==> id !in u[b] && NewestFirst(clients, u[b]))
      && (forall b, x :: 0 <= b < BUCKETS && x != id ==> (x in u[b] <==> x in users[b]))
  {
    var name := clients[id].userId;
    var u := Unnamed(users, name, id);
    forall b | 0 <= b < BUCKETS
      ensures id !in u[b] && NewestFirst(clients, u[b])
      ensures forall x :: x != id ==> (x in u[b] <==> x in users[b])
    {
      assert NewestFirst(clients, users[b]);
      assert id in users[b] ==> InBucketOf(clients, id, b);
      if name != [] && b == Hash(name) {
        NewestFirstIsDistinct(clients, users[b]);
        WithoutIsDistinct(users[b], id);
        WithoutRemoves(users[b], id);
        WithoutKeepsOrder(clients, users[b], id);
      }
    }
  }

  lemma {:induction false} FrontIsNewest(clients: map<Id, Client>, list: seq<Id>, id: Id, clock: nat)
    requires NewestFirst(clients, list) && id in clients && clients[id].since == clock
    requires forall x :: x in list ==> clients[x].since < clock
    ensures NewestFirst(clients, [id] + list)
  {
    assert forall i :: 0 <= i < |list| ==> list[i] in list;
  }

  /** The user map when `id` takes the name: its node goes in front of its bucket. */
  lemma {:induction false} NamedAgree(clients: map<Id, Client>, users: seq<seq<Id>>, clock: nat, id: Id, c: Client)
    requires UsersAgree(clients, users, clock) && id in clients
    requires c.userId != [] && c.since == clock
    ensures var u := Unnamed(users, clients[id].userId, id);
      var b := Hash(c.userId);
      UsersAgree(clients[id := c], u[b := [id] + u[b]], clock + 1)
  {
    var u := Unnamed(users, clients[id].userId, id);
    var b := Hash(c.userId);
    var r, v := clients[id := c], u[b := [id] + u[b]];
    UnnamedIsNowhere(clients, users, clock, id);
    forall k | 0 <= k < BUCKETS ensures NewestFirst(r, v[k]) {
      RenamedInOthers(clients, u[k], id, c);
      if k == b {
        FrontIsNewest(r, u[k], id, clock);
      }
    }
    forall k, x | 0 <= k < BUCKETS && x in v[k] ensures InBucketOf(r, x, k) {
      if x != id {
        assert x in users[k] && InBucketOf(clients, x, k);
      }
    }
    forall x | x in r && r[x].userId != [] ensures x in v[Hash(r[x].userId)] {
      if x != id {
        assert x in users[Hash(r[x].userId)];
      }
    }
  }

  /** The other tables do not look at names. */
  lemma {:induction false} RenameKeepsTables(clients: map<Id, Client>, slots: seq<Option<Id>>, fds: map<nat, Id>,
      topics: seq<seq<Id>>, next: Id, id: Id, c: Client)
    requires SlotsAgree(clients, slots) && FdsAgree(clients, fds) && TopicsAgree(clients, topics, next)
    requires id in clients && c.fd == clients[id].fd && c.topics == clients[id].topics
    ensures SlotsAgree(clients[id := c], slots) && FdsAgree(clients[id := c], fds)
    ensures TopicsAgree(clients[id := c], topics, next) && |clients[id := c]| == |clients|
  {
    assert clients[id := c].Keys == clients.Keys;
  }

  lemma {:induction false} WrongBucket(clients: map<Id, Client>, users: seq<seq<Id>>, clock: nat, id: Id, b: nat)
    requires |users| == BUCKETS && b < BUCKETS && id in users[b] && !InBucketOf(clients, id, b)
    ensures !UsersAgree(clients, users, clock)
  {
    hide InBucketOf;
  }

  /** Setting a name keeps the registry coherent exactly when the stored name has the hash
      of the given one, which every name of at most 63 bytes has. */
  lemma {:induction false} SetUserKeepsCoherence(s: State, fd: int, userId: bytes)
    requires Coherent(s) && Find(s, fd).Some? && userId != []
    ensures Coherent(SetUser(s, fd, userId)) <==> Hash(Stored(userId)) == Hash(userId)
    ensures |userId| <= USER_MAX ==> Hash(Stored(userId)) == Hash(userId)
  {
    var id := Find(s, fd).value;
    var c := s.clients[id].(userId := Stored(userId), since := s.clock);
    var t := SetUser(s, fd, userId);
    assert id in s.clients;
    hide SlotsAgree, FdsAgree, UsersAgree, TopicsAgree;
    RenameKeepsTables(s.clients, s.slots, s.fds, s.topics, s.next, id, c);
    if Hash(Stored(userId)) == Hash(userId) {
      NamedAgree(s.clients, s.users, s.clock, id, c);
    } else {
      assert t.users[Hash(userId)][0] == id;
      WrongBucket(t.clients, t.users, t.clock, id, Hash(userId));
    }
  }

  /** The latest live client to have taken a name. */
  ghost predicate Latest(s: State, name: bytes, id: Id) {
    && id in s.clients && s.clients[id].userId == name
    && forall x :: x in s.clients && s.clients[x].userId == name ==> s.clients[x].since <= s.clients[id].since
  }

  ghost predicate Newest(clients: map<Id, Client>, list: seq<Id>, name: bytes, id: Id)
    requires forall x :: x in list ==> x in clients
  {
    && id in clients && clients[id].userId == name
    && forall x :: x in list && clients[x].userId == name ==> clients[x].since <= clients[id].since
  }

  lemma {:induction false} HolderIsFirst(clients: map<Id, Client>, list: seq<Id>, name: bytes)
    requires NewestFirst(clients, list)
    ensures match Holder(clients, list, name)
      case None => forall x :: x in list ==> clients[x].userId != name
      case Some(id) => id in list && Newest(clients, list, name, id)
  {
    if list != [] && clients[list[0]].userId != name {
      HolderIsFirst(clients, list[1..], name);
      assert list == [list[0]] + list[1..];
    }
  }

  /** A lookup by name finds the latest live client to have taken it, and nobody if no live
      client holds it. */
  lemma {:induction false} LookupFindsLatest(s: State, name: bytes)
    requires Coherent(s) && name != []
    ensures match Lookup(s, name)
      case None => forall id :: id in s.clients ==> s.clients[id].userId != name
      case Some(id) => Latest(s, name, id)
  {
    assert NewestFirst(s.clients, s.users[Hash(name)]);
    HolderIsFirst(s.clients, s.users[Hash(name)], name);
  }

  // ----- Subscribing

  lemma {:induction false} PutInBucket(topics: seq<seq<Id>>, next: Id, id: Id, b: nat)
    requires |topics| == BUCKETS && b < BUCKETS && id !in topics[b] && id < next
    requires forall k :: 0 <= k < BUCKETS ==> Distinct(topics[k])
    requires forall k, x :: 0 <= k < BUCKETS && x in topics[k] ==> x < next
    ensures var t := topics[b := [id] + topics[b]];
      && (forall k :: 0 <= k < BUCKETS ==> Distinct(t[k]))
      && (forall k, x :: 0 <= k < BUCKETS && x in t[k] ==> x < next)
  {
    assert Distinct(topics[b]);
  }

  lemma {:induction false} NewTopicIsRecorded(keys: seq<bytes>, topics: seq<seq<Id>>, id: Id, key: bytes)
    requires |topics| == BUCKETS && Recorded(keys, topics, id) && id !in topics[Hash(key)]
    ensures var keys' := if |keys| < MAX_TOPICS then keys + [key] else keys;
      Recorded(keys', topics[Hash(key) := [id] + topics[Hash(key)]], id)
  {
    if |keys| < MAX_TOPICS {
      var keys', t := keys + [key], topics[Hash(key) := [id] + topics[Hash(key)]];
      forall b | 0 <= b < BUCKETS && id in t[b] ensures Covers(keys', b) {
        if b == Hash(key) {
          assert keys'[|keys|] == key;
        } else {
          assert Covers(keys, b);
          var i :| 0 <= i < |keys| && Hash(keys[i]) == b;
          assert keys'[i] == keys[i];
        }
      }
    }
  }

  lemma {:induction false} OthersStayRecorded(keys: seq<bytes>, topics: seq<seq<Id>>, x: Id, id: Id, b: nat)
    requires |topics| == BUCKETS && Recorded(keys, topics, x) && x != id && b < BUCKETS
    ensures Recorded(keys, topics[b := [id] + topics[b]], x)
  {
    var t := topics[b := [id] + topics[b]];
    forall k | 0 <= k < BUCKETS ensures x in t[k] <==> x in topics[k] {
      if k == b {
        assert t[k] == [id] + topics[b];
      }
    }
  }

  lemma {:induction false} SubscribedAgree(clients: map<Id, Client>, topics: seq<seq<Id>>, next: Id, id: Id, key: bytes, c: Client)
    requires TopicsAgree(clients, topics, next) && id in clients && id !in topics[Hash(key)]
    requires c.topics == if |clients[id].topics| < MAX_TOPICS then clients[id].topics + [key] else clients[id].topics
    ensures TopicsAgree(clients[id := c], topics[Hash(key) := [id] + topics[Hash(key)]], next)
  {
    hide Recorded, Hash, Covers;
    var r, t := clients[id := c], topics[Hash(key) := [id] + topics[Hash(key)]];
    PutInBucket(topics, next, id, Hash(key));
    forall x | x in r ensures x < next && Recorded(r[x].topics, t, x) {
      if x == id {
        NewTopicIsRecorded(clients[id].topics, topics, id, key);
      } else {
        OthersStayRecorded(clients[x].topics, topics, x, id, Hash(key));
      }
    }
  }

  lemma {:induction false} SubscriberKeepsOthers(clients: map<Id, Client>, slots: seq<Option<Id>>, fds: map<nat, Id>,
      users: seq<seq<Id>>, clock: nat, id: Id, c: Client)
    requires SlotsAgree(clients, slots) && FdsAgree(clients, fds) && UsersAgree(clients, users, clock)
    requires id in clients && c.fd == clients[id].fd && c.userId == clients[id].userId && c.since == clients[id].since
    ensures SlotsAgree(clients[id := c], slots) && FdsAgree(clients[id := c], fds)
    ensures UsersAgree(clients[id := c], users, clock) && |clients[id := c]| == |clients|
  {
    var r := clients[id := c];
    assert r.Keys == clients.Keys;
    forall b | 0 <= b < BUCKETS ensures NewestFirst(r, users[b]) {
      assert NewestFirst(clients, users[b]);
    }
    forall b, x | 0 <= b < BUCKETS && x in users[b] ensures InBucketOf(r, x, b) {
      assert InBucketOf(clients, x, b);
    }
  }

  lemma {:induction false} SubscribeKeepsCoherence(s: State, fd: int, key: bytes)
    requires Coherent(s)
    ensures Coherent(Subscribe(s, fd, key))
  {
    var found := Find(s, fd);
    if found.Some? && found.value !in s.topics[Hash(key)] {
      var id := found.value;
      assert id in s.clients;
      hide SlotsAgree, FdsAgree, UsersAgree, TopicsAgree;
      var c := s.clients[id];
      var c' := if |c.topics| < MAX_TOPICS then c.(topics := c.topics + [key]) else c;
      SubscriberKeepsOthers(s.clients, s.slots, s.fds, s.users, s.clock, id, c');
      SubscribedAgree(s.clients, s.topics, s.next, id, key, c');
    }
  }

  // ----- Removing

  lemma {:induction false} CoversStep(keys: seq<bytes>, b: nat)
    requires keys != []
    ensures Covers(keys, b) <==> b == Hash(keys[0]) || Covers(keys[1..], b)
  {
    if Covers(keys, b) {
      var i :| 0 <= i < |keys| && Hash(keys[i]) == b;
      assert i > 0 ==> keys[1..][i - 1] == keys[i];
    }
    if Covers(keys[1..], b) {
      var i :| 0 <= i < |keys| - 1 && Hash(keys[1..][i]) == b;
      assert keys[i + 1] == keys[1..][i];
    }
  }

  /** What unsubscribing does to each bucket. */
  lemma {:induction false} UnsubscribedBuckets(topics: seq<seq<Id>>, keys: seq<bytes>, id: Id)
    requires |topics| == BUCKETS && forall b :: 0 <= b < BUCKETS ==> Distinct(topics[b])
    ensures var t := Unsubscribed(topics, keys, id);
      forall b :: 0 <= b < BUCKETS ==> (
        && Distinct(t[b]) && (id in t[b] <==> id in topics[b] && !Covers(keys, b))
        && (forall x :: x != id ==> (x in t[b] <==> x in topics[b])))
    decreases |keys|
  {
    if keys != [] {
      var h := Hash(keys[0]);
      var u := topics[h := Without(topics[h], id)];
      WithoutIsDistinct(topics[h], id);
      WithoutRemoves(topics[h], id);
      UnsubscribedBuckets(u, keys[1..], id);
      forall b | 0 <= b < BUCKETS ensures Covers(keys, b) <==> b == h || Covers(keys[1..], b) {
        CoversStep(keys, b);
      }
    }
  }

  lemma {:induction false} RemovedFromTopics(clients: map<Id, Client>, topics: seq<seq<Id>>, next: Id, id: Id)
    requires TopicsAgree(clients, topics, next) && id in clients
    ensures TopicsAgree(clients - {id}, Unsubscribed(topics, clients[id].topics, id), next)
  {
    var r, t := clients - {id}, Unsubscribed(topics, clients[id].topics, id);
    UnsubscribedBuckets(topics, clients[id].topics, id);
    forall x | x in r ensures Recorded(r[x].topics, t, x) {
      assert Recorded(clients[x].topics, topics, x);
    }
  }

  lemma {:induction false} RemovedFromSlots(clients: map<Id, Client>, slots: seq<Option<Id>>, id: Id)
    requires SlotsAgree(clients, slots) && id in clients
    ensures SlotsAgree(clients - {id}, Cleared(slots, id)) && Some(id) !in Cleared(slots, id)
  {
    var r, i := Cleared(slots, id), SlotOf(slots, id, 0);
    forall x | x in clients && x != id ensures Some(x) in r {
      var k :| 0 <= k < |slots| && slots[k] == Some(x);
      assert r[k] == Some(x);
    }
  }

  lemma {:induction false} RemovedFromFds(clients: map<Id, Client>, fds: map<nat, Id>, id: Id)
    requires FdsAgree(clients, fds) && id in clients
    ensures FdsAgree(clients - {id}, fds - {clients[id].fd}) && |clients - {id}| == |clients| - 1
    ensures id !in (fds - {clients[id].fd}).Values
  {
    assert (clients - {id}).Keys == clients.Keys - {id};
  }

  lemma {:induction false} RemovedFromUsers(clients: map<Id, Client>, users: seq<seq<Id>>, clock: nat, id: Id)
    requires UsersAgree(clients, users, clock) && id in clients
    ensures UsersAgree(clients - {id}, Unnamed(users, clients[id].userId, id), clock)
    ensures forall b :: 0 <= b < BUCKETS ==> id !in Unnamed(users, clients[id].userId, id)[b]
  {
    var r, u := clients - {id}, Unnamed(users, clients[id].userId, id);
    UnnamedIsNowhere(clients, users, clock, id);
    forall b | 0 <= b < BUCKETS ensures NewestFirst(r, u[b]) {
      assert NewestFirst(clients, u[b]);
      assert forall i :: 0 <= i < |u[b]| ==> u[b][i] in u[b];
    }
    forall b, x | 0 <= b < BUCKETS && x in u[b] ensures InBucketOf(r, x, b) {
      assert x in users[b] && InBucketOf(clients, x, b);
    }
  }

  lemma {:induction false} RemoveKeepsCoherence(s: State, fd: int)
    requires Coherent(s)
    ensures Coherent(Remove(s, fd))
  {
    if Find(s, fd).Some? {
      var id := Find(s, fd).value;
      var c := s.clients[id];
      RemovedFromSlots(s.clients, s.slots, id);
      RemovedFromFds(s.clients, s.fds, id);
      RemovedFromUsers(s.clients, s.users, s.clock, id);
      RemovedFromTopics(s.clients, s.topics, s.next, id);
    }
  }

  // ----- What a removed client leaves behind

  ghost predicate Mentioned(s: State, id: Id)
    requires Sized(s)
  {
    || id in s.clients || Some(id) in s.slots || id in s.fds.Values
    || (exists b :: 0 <= b < BUCKETS && id in s.users[b])
    || (exists b :: 0 <= b < BUCKETS && id in s.topics[b])
  }

  /** The buckets a client has joined. */
  function Joined(topics: seq<seq<Id>>, id: Id): set<nat>
    requires |topics| == BUCKETS
  {
    set b: nat | b < BUCKETS && id in topics[b]
  }

  function Hashes(keys: seq<bytes>): (h: set<nat>)
    ensures forall b :: b in h ==> b < BUCKETS
  {
    set i | 0 <= i < |keys| :: Hash(keys[i])
  }

  lemma {:induction false} HashesCount(keys: seq<bytes>)
    requires forall i, j :: 0 <= i < j < |keys| ==> Hash(keys[i]) != Hash(keys[j])
    ensures |Hashes(keys)| == |keys|
  {
    if keys != [] {
      var init, last := keys[..|keys| - 1], keys[|keys| - 1];
      HashesCount(init);
      assert forall i :: 0 <= i < |init| ==> init[i] == keys[i];
      assert Hash(last) !in Hashes(init);
      assert Hashes(keys) == Hashes(init) + {Hash(last)};
    }
  }

  lemma {:induction false} SubsetCount(a: set<nat>, b: set<nat>)
    requires a <= b
    ensures |a| <= |b| && (|a| == |b| ==> a == b)
    ensures a == b || exists x :: x in b && x !in a
  {
    assert b == a + (b - a);
    if a != b {
      var x :| x in b - a;
      assert |b - a| > 0;
    }
  }

  /** Every bucket a client is in is one it has recorded, exactly while it has joined no
      more than there is room to record. */
  lemma {:induction false} RecordIsComplete(keys: seq<bytes>, topics: seq<seq<Id>>, id: Id)
    requires |topics| == BUCKETS && Recorded(keys, topics, id)
    ensures (forall b :: 0 <= b < BUCKETS && id in topics[b] ==> Covers(keys, b)) <==> |Joined(topics, id)| <= MAX_TOPICS
  {
    var joined, hashes := Joined(topics, id), Hashes(keys);
    HashesCount(keys);
    assert hashes <= joined;
    SubsetCount(hashes, joined);
    assert forall b :: b in hashes <==> Covers(keys, b);
    if |keys| < MAX_TOPICS || |joined| <= MAX_TOPICS {
      if |keys| < MAX_TOPICS {
        assert joined <= hashes;
      }
      assert joined == hashes;
    } else {
      assert joined != hashes;
      var b :| b in joined && b !in hashes;
      assert id in topics[b] && !Covers(keys, b);
    }
  }

  /** After a client is removed nothing in the registry mentions it, exactly if it had
      joined at most sixteen buckets. */
  lemma {:induction false} RemoveLeavesNoMention(s: State, fd: int)
    requires Coherent(s) && Find(s, fd).Some?
    ensures var id := Find(s, fd).value;
      !Mentioned(Remove(s, fd), id) <==> |Joined(s.topics, id)| <= MAX_TOPICS
  {
    var id := Find(s, fd).value;
    var t, keys := Remove(s, fd), s.clients[id].topics;
    RemovedFromSlots(s.clients, s.slots, id);
    RemovedFromFds(s.clients, s.fds, id);
    RemovedFromUsers(s.clients, s.users, s.clock, id);
    UnsubscribedBuckets(s.topics, keys, id);
    RecordIsComplete(keys, s.topics, id);
    assert forall b :: 0 <= b < BUCKETS ==> (id in t.topics[b] <==> id in s.topics[b] && !Covers(keys, b));
  }

  // ----- Any sequence of calls

  datatype Call = Adding(fd: int) | Naming(fd: int, userId: bytes) | Subscribing(fd: int, key: bytes) | Removing(fd: int)

  function Perform(s: State, call: Call): State
    requires Sized(s)
  {
    match call
    case Adding(fd) => Add(s, fd).0
    case Naming(fd, userId) => SetUser(s, fd, userId)
    case Subscribing(fd, key) => Subscribe(s, fd, key)
    case Removing(fd) => Remove(s, fd)
  }

  /** Descriptors are free when added, and names are short. */
  predicate Orderly(s: State, call: Call) {
    match call
    case Adding(fd) => !ValidFd(fd) || Find(s, fd).None?
    case Naming(_, userId) => |userId| <= USER_MAX
    case _ => true
  }

  lemma {:induction false} PerformIsSized(s: State, call: Call)
    requires Sized(s)
    ensures Sized(Perform(s, call))
  {
  }

  lemma {:induction false} CallKeepsCoherence(s: State, call: Call)
    requires Coherent(s) && Orderly(s, call)
    ensures Coherent(Perform(s, call))
  {
    match call
    case Adding(fd) =>
      if Add(s, fd).1 >= 0 {
        AddKeepsCoherence(s, fd);
      }
    case Naming(fd, userId) =>
      if Find(s, fd).Some? && userId != [] {
        SetUserKeepsCoherence(s, fd, userId);
      }
    case Subscribing(fd, key) => SubscribeKeepsCoherence(s, fd, key);
    case Removing(fd) => RemoveKeepsCoherence(s, fd);
  }

  function After(calls: seq<Call>): (s: State)
    ensures Sized(s)
  {
    if calls == [] then EMPTY
    else
      var before := After(calls[..|calls| - 1]);
      PerformIsSized(before, calls[|calls| - 1]);
      Perform(before, calls[|calls| - 1])
  }

  lemma {:induction false} EarlierCallsAreOrderly(calls: seq<Call>)
    requires calls != [] && forall i :: 0 <= i < |calls| ==> Orderly(After(calls[..i]), calls[i])
    ensures var n := |calls| - 1;
      forall i :: 0 <= i < n ==> Orderly(After(calls[..n][..i]), calls[..n][i])
  {
    hide Orderly, After;
    var n := |calls| - 1;
    forall i | 0 <= i < n ensures Orderly(After(calls[..n][..i]), calls[..n][i]) {
      assert calls[..n][..i] == calls[..i];
    }
  }

  /** Over any orderly sequence of calls the four indexes agree. */
  lemma {:induction false} RunIsCoherent(calls: seq<Call>)
    requires forall i :: 0 <= i < |calls| ==> Orderly(After(calls[..i]), calls[i])
    ensures Coherent(After(calls))
  {
    if calls == [] {
      EmptyIsCoherent();
    } else {
      var n := |calls| - 1;
      EarlierCallsAreOrderly(calls);
      RunIsCoherent(calls[..n]);
      assert Orderly(After(calls[..n]), calls[n]);
      CallKeepsCoherence(After(calls[..n]), calls[n]);
    }
  }

  /** Every client a topic bucket lists is a live one. */
  ghost predicate TopicsLive(s: State)
    requires Sized(s)
  {
    forall b, id :: 0 <= b < BUCKETS && id in s.topics[b] ==> id in s.clients
  }

  /** A removal that can forget no bucket. */
  predicate Tidy(s: State, call: Call)
    requires Sized(s)
  {
    call.Removing? && Find(s, call.fd).Some? ==> |Joined(s.topics, Find(s, call.fd).value)| <= MAX_TOPICS
  }

  /** Taking `id` out of the buckets it recorded and out of the clients leaves live clients
      alone exactly if there were such before and it recorded every bucket it was in. */
  lemma {:induction false} LiveWithout(clients: map<Id, Client>, topics: seq<seq<Id>>, t: seq<seq<Id>>, keys: seq<bytes>, id: Id)
    requires |topics| == |t| == BUCKETS && id in clients
    requires forall b :: 0 <= b < BUCKETS ==> (
      && (id in t[b] <==> id in topics[b] && !Covers(keys, b))
      && (forall x :: x != id ==> (x in t[b] <==> x in topics[b])))
    ensures (forall b, x :: 0 <= b < BUCKETS && x in t[b] ==> x in clients - {id}) <==>
      && (forall b, x :: 0 <= b < BUCKETS && x in topics[b] ==> x in clients)
      && (forall b :: 0 <= b < BUCKETS && id in topics[b] ==> Covers(keys, b))
  {
    hide Covers;
    var r := clients - {id};
    assert forall x :: x in r <==> x in clients && x != id;
    if forall b, x :: 0 <= b < BUCKETS && x in t[b] ==> x in r {
      forall b | 0 <= b < BUCKETS ensures id !in t[b] {
        assert id !in r;
      }
      forall b, x | 0 <= b < BUCKETS && x in topics[b] ensures x in clients {
        assert x != id ==> x in t[b];
      }
    }
  }

  lemma {:induction false} RemovalAndLiveTopics(s: State, fd: int)
    requires Coherent(s) && Find(s, fd).Some?
    ensures TopicsLive(Remove(s, fd)) <==> TopicsLive(s) && Tidy(s, Removing(fd))
  {
    var id := Find(s, fd).value;
    var t, keys := Remove(s, fd), s.clients[id].topics;
    UnsubscribedBuckets(s.topics, keys, id);
    RecordIsComplete(keys, s.topics, id);
    LiveWithout(s.clients, s.topics, t.topics, keys, id);
  }

  lemma {:induction false} SubscriptionAndLiveTopics(s: State, fd: int, key: bytes)
    requires Sized(s)
    ensures TopicsLive(Subscribe(s, fd, key)) <==> TopicsLive(s)
  {
    var t := Subscribe(s, fd, key);
    assert t.clients.Keys == s.clients.Keys;
    forall b | 0 <= b < BUCKETS
      ensures forall id :: id in s.topics[b] ==> id in t.topics[b]
      ensures forall id :: id in t.topics[b] ==> id in s.topics[b] || id in s.clients
    {
    }
  }

  lemma {:induction false} OtherCallsAndLiveTopics(s: State, call: Call)
    requires Sized(s) && (forall b, id :: 0 <= b < BUCKETS && id in s.topics[b] ==> id < s.next)
    requires call.Adding? || call.Naming?
    ensures TopicsLive(Perform(s, call)) <==> TopicsLive(s)
  {
    var t := Perform(s, call);
    assert t.topics == s.topics;
    assert forall id :: id in s.clients ==> id in t.clients;
    forall b, id | 0 <= b < BUCKETS && id in s.topics[b] && id in t.clients ensures id in s.clients {
      assert id != s.next;
    }
  }

  lemma {:induction false} CallAndLiveTopics(s: State, call: Call)
    requires Coherent(s) && Orderly(s, call)
    ensures TopicsLive(Perform(s, call)) <==> TopicsLive(s) && Tidy(s, call)
  {
    hide SlotsAgree, UsersAgree, NewestFirst, Recorded, Covers, TopicsLive;
    match call
    case Removing(fd) =>
      if Find(s, fd).Some? {
        RemovalAndLiveTopics(s, fd);
      }
    case Subscribing(fd, key) => SubscriptionAndLiveTopics(s, fd, key);
    case _ => OtherCallsAndLiveTopics(s, call);
  }

  lemma {:induction false} LastCallIsTidy(calls: seq<Call>)
    requires calls != []
    ensures var n := |calls| - 1;
      (forall i :: 0 <= i < |calls| ==> Tidy(After(calls[..i]), calls[i])) <==>
        (forall i :: 0 <= i < n ==> Tidy(After(calls[..n][..i]), calls[..n][i])) && Tidy(After(calls[..n]), calls[n])
  {
    hide Tidy, After;
    var n := |calls| - 1;
    forall i | 0 <= i < n ensures Tidy(After(calls[..n][..i]), calls[..n][i]) <==> Tidy(After(calls[..i]), calls[i]) {
      assert calls[..n][..i] == calls[..i] && calls[..n][i] == calls[i];
    }
  }

  /** Over any orderly sequence of calls the topic buckets list live clients alone exactly if
      no client was removed that had joined more than sixteen of them. */
  lemma {:induction false} TopicsStayLive(calls: seq<Call>)
    requires forall i :: 0 <= i < |calls| ==> Orderly(After(calls[..i]), calls[i])
    ensures TopicsLive(After(calls)) <==> forall i :: 0 <= i < |calls| ==> Tidy(After(calls[..i]), calls[i])
  {
    if calls == [] {
    } else {
      var n := |calls| - 1;
      hide TopicsLive, Orderly, Tidy, Coherent, Perform;
      LastCallIsTidy(calls);
      EarlierCallsAreOrderly(calls);
      RunIsCoherent(calls[..n]);
      TopicsStayLive(calls[..n]);
      assert Orderly(After(calls[..n]), calls[n]);
      CallAndLiveTopics(After(calls[..n]), calls[n]);
    }
  }
}
