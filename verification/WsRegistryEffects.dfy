/** What the calls of the registry achieve: a client added can be found by its descriptor,
    one named by its name, one subscribed in its bucket, and nobody else is affected. */
module WsRegistryEffects {
  import opened Bytes
  import opened Options
  import opened WsRegistry

  // ----- Adding

  function Taken(slots: seq<Option<Id>>, n: nat): nat
    requires n <= |slots|
  {
    if n == 0 then 0 else Taken(slots, n - 1) + if slots[n - 1].Some? then 1 else 0
  }

  function Holders(slots: seq<Option<Id>>, n: nat): set<Id>
    requires n <= |slots|
  {
    if n == 0 then {} else Holders(slots, n - 1) + if slots[n - 1].Some? then {slots[n - 1].value} else {}
  }

  lemma {:induction false} HoldersAre(slots: seq<Option<Id>>, n: nat)
    requires n <= |slots|
    ensures forall id: Id :: id in Holders(slots, n) <==> exists i :: 0 <= i < n && slots[i] == Some(id)
  {
    if n > 0 {
      HoldersAre(slots, n - 1);
    }
  }

  lemma {:induction false} OneMoreHolder(slots: seq<Option<Id>>, n: nat)
    requires n < |slots| && slots[n].Some? && forall i :: 0 <= i < n ==> slots[i] != slots[n]
    ensures |Holders(slots, n + 1)| == |Holders(slots, n)| + 1
  {
    HoldersAre(slots, n);
    var held, id := Holders(slots, n), slots[n].value;
    assert id !in held;
    assert Holders(slots, n + 1) == held + {id};
  }

  lemma {:induction false} HoldersCount(slots: seq<Option<Id>>, n: nat)
    requires n <= |slots| && forall i, j :: 0 <= i < j < |slots| && slots[i].Some? ==> slots[i] != slots[j]
    ensures |Holders(slots, n)| == Taken(slots, n)
  {
    if n > 0 {
      HoldersCount(slots, n - 1);
      if slots[n - 1].Some? {
        OneMoreHolder(slots, n - 1);
      } else {
        assert Holders(slots, n) == Holders(slots, n - 1);
      }
    }
  }

  lemma {:induction false} TakenAll(slots: seq<Option<Id>>, n: nat)
    requires n <= |slots|
    ensures Taken(slots, n) <= n
    ensures Taken(slots, n) == n <==> forall i :: 0 <= i < n ==> slots[i].Some?
  {
    if n > 0 {
      TakenAll(slots, n - 1);
    }
  }

  lemma {:induction false} HoldersAreClients(clients: map<Id, Client>, slots: seq<Option<Id>>)
    requires SlotsAgree(clients, slots)
    ensures Holders(slots, |slots|) == clients.Keys
  {
    HoldersAre(slots, |slots|);
    forall id: Id ensures id in Holders(slots, |slots|) <==> id in clients {
      if id in clients {
        assert Some(id) in slots;
      }
    }
  }

  /** There is a free slot exactly while there are fewer than 1024 clients. */
  lemma {:induction false} RoomForOneMore(clients: map<Id, Client>, slots: seq<Option<Id>>)
    requires SlotsAgree(clients, slots)
    ensures FreeSlot(slots, 0) < |slots| <==> |clients| < |slots|
  {
    HoldersCount(slots, |slots|);
    TakenAll(slots, |slots|);
    HoldersAreClients(clients, slots);
    hide SlotsAgree, Holders, Taken;
    assert |clients| == |clients.Keys|;
    var j := FreeSlot(slots, 0);
    assert j < |slots| ==> !slots[j].Some?;
  }

  /** A client on a valid descriptor is added exactly while there are fewer than 1024, and is
      then found by its descriptor, in a slot that was free, with no name and no topics. */
  lemma {:induction false} AddTakesEffect(s: State, fd: int)
    requires Coherent(s)
    ensures Add(s, fd).1 >= 0 <==> 0 <= fd < 65536 && |s.clients| < 1024
    ensures Add(s, fd).1 < 0 ==> Add(s, fd) == (s, -1)
    ensures Add(s, fd).1 >= 0 ==>
      var (t, i) := Add(s, fd);
      && i < 1024 && s.slots[i] == None && t.slots[i] == Some(s.next) && s.next !in s.clients
      && Find(t, fd) == Some(s.next) && t.clients == s.clients[s.next := Client(fd, [], 0, [])]
      && forall g :: g != fd ==> Find(t, g) == Find(s, g)
  {
    RoomForOneMore(s.clients, s.slots);
    hide SlotsAgree, FdsAgree, UsersAgree, TopicsAgree;
    if fd >= 0 {
      NextIsNew(s, fd);
    }
  }

  // ----- Names

  /** The answer to a lookup: the latest client to have taken the name, if anyone has it. */
  ghost predicate Answers(clients: map<Id, Client>, name: bytes, answer: Option<Id>) {
    match answer
    case None => forall x :: x in clients ==> clients[x].userId != name
    case Some(id) =>
      && id in clients && clients[id].userId == name
      && forall x :: x in clients && clients[x].userId == name ==> clients[x].since <= clients[id].since
  }

  ghost predicate TakenApart(clients: map<Id, Client>, name: bytes) {
    forall x, y :: x in clients && y in clients && x != y && clients[x].userId == name && clients[y].userId == name ==>
      clients[x].since != clients[y].since
  }

  /** Nobody but `id` differs, and it does not hold the name afterwards. */
  ghost predicate OthersStay(before: map<Id, Client>, after: map<Id, Client>, id: Id, name: bytes) {
    && (forall x :: x in after ==> x in before && (x != id ==> after[x] == before[x]))
    && (forall x :: x in before && x != id ==> x in after)
    && (id in after ==> after[id].userId != name)
  }

  lemma {:induction false} LookupAnswers(s: State, name: bytes)
    requires Coherent(s) && name != []
    ensures Answers(s.clients, name, Lookup(s, name)) && TakenApart(s.clients, name)
  {
    LookupFindsLatest(s, name);
    var list := s.users[Hash(name)];
    assert NewestFirst(s.clients, list);
    forall x, y | x in s.clients && y in s.clients && x != y && s.clients[x].userId == name && s.clients[y].userId == name
      ensures s.clients[x].since != s.clients[y].since
    {
      assert x in list && y in list;
      var i :| 0 <= i < |list| && list[i] == x;
      var j :| 0 <= j < |list| && list[j] == y;
    }
  }

  lemma {:induction false} SameAnswer(before: map<Id, Client>, after: map<Id, Client>, id: Id, name: bytes, a: Option<Id>, b: Option<Id>)
    requires Answers(before, name, a) && Answers(after, name, b) && TakenApart(before, name)
    requires OthersStay(before, after, id, name) && a != Some(id)
    ensures a == b
  {
    if a.Some? {
      assert a.value in after && after[a.value] == before[a.value];
    }
  }

  /** A call that concerns `id` alone changes no lookup but those that gave `id`, or are for
      its name afterwards. */
  lemma {:induction false} OtherLookupsStay(s: State, t: State, id: Id, name: bytes)
    requires Coherent(s) && Coherent(t) && name != [] && Lookup(s, name) != Some(id)
    requires OthersStay(s.clients, t.clients, id, name)
    ensures Lookup(t, name) == Lookup(s, name)
  {
    LookupAnswers(s, name);
    LookupAnswers(t, name);
    SameAnswer(s.clients, t.clients, id, name, Lookup(s, name), Lookup(t, name));
  }

  lemma {:induction false} FoundIsClient(s: State, fd: int)
    requires Coherent(s) && Find(s, fd).Some?
    ensures Sized(s) && Find(s, fd).value in s.clients && s.clients[Find(s, fd).value].fd == fd
  {
    hide SlotsAgree, UsersAgree, TopicsAgree;
  }

  lemma {:induction false} NamedClient(s: State, fd: int, name: bytes)
    requires Sized(s) && Find(s, fd).Some? && Find(s, fd).value in s.clients && 0 < |name| <= 63
    ensures var t, id := SetUser(s, fd, name), Find(s, fd).value;
      && t.clients == s.clients[id := s.clients[id].(userId := name, since := s.clock)]
      && Sized(t) && |t.users[Hash(name)]| > 0 && t.users[Hash(name)][0] == id
  {
    hide Unnamed, Hash, Find;
  }

  /** A client that takes a name of at most 63 bytes is found by it from then on. */
  lemma {:induction false} NameTakesEffect(s: State, fd: int, name: bytes)
    requires Coherent(s) && Find(s, fd).Some? && 0 < |name| <= 63
    ensures Lookup(SetUser(s, fd, name), name) == Find(s, fd)
  {
    FoundIsClient(s, fd);
    NamedClient(s, fd, name);
    hide Coherent, SetUser, Hash, Find;
  }

  /** Nobody else's name is affected. */
  lemma {:induction false} OtherNamesStay(s: State, fd: int, name: bytes, other: bytes)
    requires Coherent(s) && Find(s, fd).Some? && 0 < |name| <= 63
    requires other != [] && other != name && Lookup(s, other) != Find(s, fd)
    ensures Lookup(SetUser(s, fd, name), other) == Lookup(s, other)
  {
    hide Lookup, Hash, Find, SetUser, SlotsAgree, FdsAgree, UsersAgree, TopicsAgree;
    SetUserKeepsCoherence(s, fd, name);
    FoundIsClient(s, fd);
    NamedClient(s, fd, name);
    var t, id := SetUser(s, fd, name), Find(s, fd).value;
    assert OthersStay(s.clients, t.clients, id, other);
    OtherLookupsStay(s, t, id, other);
  }

  // ----- Topics

  lemma {:induction false} BucketsAreDistinct(s: State, b: nat)
    requires Coherent(s) && b < BUCKETS
    ensures Distinct(s.topics[b])
  {
    hide SlotsAgree, FdsAgree, UsersAgree, Recorded;
  }

  /** A client that subscribes is in the bucket of its topic, once, and nothing else changes in
      the buckets. */
  lemma {:induction false} SubscriptionTakesEffect(s: State, fd: int, key: bytes)
    requires Coherent(s) && Find(s, fd).Some?
    ensures var t, id, h := Subscribe(s, fd, key), Find(s, fd).value, Hash(key);
      && |t.topics| == 256 && id in t.topics[h] && Distinct(t.topics[h])
      && forall b, x :: 0 <= b < 256 ==> (x in t.topics[b] <==> x in s.topics[b] || (x == id && b == h))
  {
    SubscribeKeepsCoherence(s, fd, key);
    FoundIsClient(s, fd);
    var t, id, h := Subscribe(s, fd, key), Find(s, fd).value, Hash(key);
    BucketsAreDistinct(t, h);
    hide Coherent, Hash, Find, Distinct;
    assert t.topics == if id in s.topics[h] then s.topics else s.topics[h := [id] + s.topics[h]];
    hide Subscribe;
  }

  /** The topic is recorded while there are fewer than sixteen, and no other client changes. */
  lemma {:induction false} SubscriptionIsRecorded(s: State, fd: int, key: bytes)
    requires Coherent(s) && Find(s, fd).Some?
    ensures var t, id := Subscribe(s, fd, key), Find(s, fd).value;
      && id in s.clients && t.clients.Keys == s.clients.Keys
      && t.clients[id].topics ==
           (if id !in s.topics[Hash(key)] && |s.clients[id].topics| < 16 then s.clients[id].topics + [key] else s.clients[id].topics)
      && forall x :: x in s.clients && x != id ==> t.clients[x] == s.clients[x]
  {
    FoundIsClient(s, fd);
    hide Coherent, Hash, Find;
  }

  // ----- Removing

  lemma {:induction false} AllDistinct(s: State)
    requires Coherent(s)
    ensures forall b :: 0 <= b < BUCKETS ==> Distinct(s.topics[b])
  {
    forall b | 0 <= b < BUCKETS ensures Distinct(s.topics[b]) {
      BucketsAreDistinct(s, b);
    }
  }

  lemma {:induction false} OtherTopicsStay(s: State, fd: int)
    requires Coherent(s) && Find(s, fd).Some?
    ensures var t, id := Remove(s, fd), Find(s, fd).value;
      |t.topics| == BUCKETS && forall b, x :: 0 <= b < BUCKETS && x != id ==> (x in t.topics[b] <==> x in s.topics[b])
  {
    FoundIsClient(s, fd);
    AllDistinct(s);
    UnsubscribedBuckets(s.topics, s.clients[Find(s, fd).value].topics, Find(s, fd).value);
    hide Coherent, Unsubscribed, Cleared, Unnamed, Covers;
  }

  lemma {:induction false} OtherDescriptorsStay(s: State, fd: int)
    requires Sized(s) && Find(s, fd).Some? && Find(s, fd).value in s.clients
    ensures var t := Remove(s, fd);
      Find(t, fd) == None && forall g :: g != fd ==> Find(t, g) == Find(s, g)
  {
    hide Unsubscribed, Cleared, Unnamed;
  }

  /** A removed client is gone, and nobody else is affected: not in their descriptors, their
      topics or their names. */
  lemma {:induction false} RemovalTakesEffect(s: State, fd: int)
    requires Coherent(s) && Find(s, fd).Some?
    ensures var t, id := Remove(s, fd), Find(s, fd).value;
      && t.clients == s.clients - {id} && Find(t, fd) == None && t.count == s.count - 1
      && (forall g :: g != fd ==> Find(t, g) == Find(s, g))
      && (forall b, x :: 0 <= b < |t.topics| && x != id ==> (x in t.topics[b] <==> x in s.topics[b]))
  {
    FoundIsClient(s, fd);
    OtherTopicsStay(s, fd);
    OtherDescriptorsStay(s, fd);
    hide Coherent, Unsubscribed, Cleared, Unnamed, Find;
  }

  lemma {:induction false} RemovalKeepsNames(s: State, fd: int, name: bytes)
    requires Coherent(s) && Find(s, fd).Some? && name != [] && Lookup(s, name) != Find(s, fd)
    ensures Lookup(Remove(s, fd), name) == Lookup(s, name)
  {
    RemoveKeepsCoherence(s, fd);
    FoundIsClient(s, fd);
    RemovalTakesEffect(s, fd);
    hide Coherent, Remove;
    OtherLookupsStay(s, Remove(s, fd), Find(s, fd).value, name);
  }
}
