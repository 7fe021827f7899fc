/**
 * The notification hub's client registry.  Connected clients are indexed by
 * user (a user may hold several connections) and, when the connection named
 * one, by session.  Messages are pushed onto each client's bounded send
 * queue without blocking: a message for a client whose queue is full is
 * dropped.
 */
module Hub {

  /**
   * A connection.  `id` stands for the connection's identity (the Go
   * `*Client` address); user and session ids are fixed when the connection is made.
   */
  datatype Client = Client(id: nat, userId: string, sessionId: string)

  /** A message: its type, its raw JSON payload and its time stamp. */
  datatype Message = Message(kind: string, payload: string, timestamp: int)

  /** A request to reach one session and/or every connection of one user. */
  datatype SendMessageRequest = SendMessageRequest(targetUserId: string, targetSessionId: string, message: Message)

  type Users = map<string, set<Client>>
  type Sessions = map<string, Client>
  type Queues = map<Client, seq<Message>>

  /** `c` is in the set of its user. */
  predicate In(users: Users, c: Client)
  {
    c.userId in users && c in users[c.userId]
  }

  /** Every user entry is non-empty and holds only that user's clients. */
  predicate UsersWellFormed(users: Users)
  {
    forall u :: u in users ==> users[u] != {} && forall c :: c in users[u] ==> c.userId == u
  }

  /** Every session entry is keyed by its holder's non-empty session id and holds a registered client. */
  predicate SessionsWellFormed(users: Users, sessions: Sessions)
  {
    forall s :: s in sessions ==> s != "" && sessions[s].sessionId == s && In(users, sessions[s])
  }

  /** Some key of a non-empty set. */
  ghost function Pick(keys: set<string>): string
    requires keys != {}
  {
    var k :| k in keys; k
  }

  /** The clients listed under the users in `keys`. */
  ghost function ClientsOf(users: Users, keys: set<string>): set<Client>
    decreases keys
  {
    if keys == {} then {}
    else
      var k := Pick(keys);
      (if k in users then users[k] else {}) + ClientsOf(users, keys - {k})
  }

  /** Every registered client. */
  ghost function AllClients(users: Users): set<Client>
  {
    ClientsOf(users, users.Keys)
  }

  /** Under the invariant, the clients of `keys` are the registered clients whose user is in `keys`. */
  lemma {:induction false} ClientsOfMembers(users: Users, keys: set<string>)
    requires UsersWellFormed(users)
    ensures forall c :: c in ClientsOf(users, keys) <==> c.userId in keys && In(users, c)
    decreases keys
  {
    if keys != {} {
      var k := Pick(keys);
      ClientsOfMembers(users, keys - {k});
    }
  }

  /** `registerClient` on the user index: the client joins its user's set, which is created if needed. */
  function WithClient(users: Users, c: Client): Users
  {
    users[c.userId := (if c.userId in users then users[c.userId] else {}) + {c}]
  }

  /** `unregisterClient` on the user index: a registered client leaves its set, and an emptied set is deleted. */
  function WithoutClient(users: Users, c: Client): Users
  {
    if In(users, c) then
      var rest := users[c.userId] - {c};
      if rest == {} then users - {c.userId} else users[c.userId := rest]
    else users
  }

  /** `registerClient` on the session index: a named session now points at the client, replacing any earlier holder. */
  function WithSession(sessions: Sessions, c: Client): Sessions
  {
    if c.sessionId != "" then sessions[c.sessionId := c] else sessions
  }

  /** `unregisterClient` on the session index as written: the entry for the client's session id goes, whoever holds it. */
  function WithoutSessionAsWritten(sessions: Sessions, c: Client): (r: Sessions)
    ensures c.sessionId != "" ==> c.sessionId !in r
    ensures forall s :: s in r <==> s in sessions && (c.sessionId == "" || s != c.sessionId)
    ensures forall s :: s in r ==> r[s] == sessions[s]
  {
    if c.sessionId != "" && c.sessionId in sessions then sessions - {c.sessionId} else sessions
  }

  /** The session index once the entry is removed only while it still points at the leaving client. */
  function WithoutSession(sessions: Sessions, c: Client): (r: Sessions)
    ensures forall s :: s in r ==> r[s] != c || s != c.sessionId || c.sessionId == ""
    ensures forall s :: s in r <==> s in sessions && (s != c.sessionId || c.sessionId == "" || sessions[s] != c)
    ensures forall s :: s in r ==> r[s] == sessions[s]
  {
    if c.sessionId != "" && c.sessionId in sessions && sessions[c.sessionId] == c then sessions - {c.sessionId} else sessions
  }

  /** The closed queues once `c` leaves: its queue is closed only when it was registered. */
  function ClosedAfter(closed: set<Client>, users: Users, c: Client): set<Client>
  {
    if In(users, c) then closed + {c} else closed
  }

  /** The registry invariant: well-formed indexes, and no registered client with a closed queue. */
  ghost predicate Registry(users: Users, sessions: Sessions, closed: set<Client>)
  {
    && UsersWellFormed(users)
    && SessionsWellFormed(users, sessions)
    && (forall c :: In(users, c) ==> c !in closed)
  }

  /** No queue holds more than `capacity` messages. */
  ghost predicate Bounded(queues: Queues, capacity: nat)
  {
    forall c :: c in queues ==> |queues[c]| <= capacity
  }

  /** Registering adds exactly the new client. */
  lemma WithClientMembers(users: Users, c: Client)
    requires UsersWellFormed(users)
    ensures UsersWellFormed(WithClient(users, c))
    ensures forall x :: In(WithClient(users, c), x) <==> x == c || In(users, x)
  {
  }

  /** Unregistering removes exactly the leaving client and leaves no empty user entry. */
  lemma WithoutClientMembers(users: Users, c: Client)
    requires UsersWellFormed(users)
    ensures UsersWellFormed(WithoutClient(users, c))
    ensures forall x :: In(WithoutClient(users, c), x) <==> x != c && In(users, x)
  {
    if In(users, c) {
      var rest := users[c.userId] - {c};
      forall x | In(users, x) && x != c && x.userId == c.userId
        ensures x in rest
      {
      }
    }
  }

  /** Registering a client that has not been closed keeps the registry invariant. */
  lemma RegisterKeepsRegistry(users: Users, sessions: Sessions, closed: set<Client>, c: Client)
    requires Registry(users, sessions, closed) && c !in closed
    ensures Registry(WithClient(users, c), WithSession(sessions, c), closed)
  {
    WithClientMembers(users, c);
  }

  /** Unregistering keeps the registry invariant, with either way of clearing the session index. */
  lemma UnregisterKeepsRegistry(users: Users, sessions: Sessions, closed: set<Client>, c: Client)
    requires Registry(users, sessions, closed)
    ensures Registry(WithoutClient(users, c), WithoutSessionAsWritten(sessions, c), ClosedAfter(closed, users, c))
    ensures Registry(WithoutClient(users, c), WithoutSession(sessions, c), ClosedAfter(closed, users, c))
  {
    WithoutClientMembers(users, c);
  }

  /** The corrected unregister removes a session entry exactly when it points at the leaving client. */
  lemma WithoutSessionKeepsOthers(sessions: Sessions, c: Client)
    requires forall s :: s in sessions ==> s != "" && sessions[s].sessionId == s
    ensures forall s :: s in WithoutSession(sessions, c) <==> s in sessions && sessions[s] != c
    ensures forall s :: s in WithoutSession(sessions, c) ==> WithoutSession(sessions, c)[s] == sessions[s]
  {
  }

  /** Registering a new client and unregistering it gives the user index back. */
  lemma RegisterUnregisterRoundTrip(users: Users, c: Client)
    requires UsersWellFormed(users) && !In(users, c)
    ensures WithoutClient(WithClient(users, c), c) == users
  {
    var w := WithClient(users, c);
    assert In(w, c);
    if c.userId in users {
      assert w[c.userId] - {c} == users[c.userId];
    }
  }

  /**
   * A reconnect under the same session: client 1 registers with session "s",
   * client 2 of the same user registers with it too, then client 1's late
   * unregister arrives.  As written the session entry is lost although
   * client 2 is still connected; corrected, "s" still reaches client 2.
   */
  lemma StaleUnregisterDropsLiveSession()
    ensures var a, b := Client(1, "u", "s"), Client(2, "u", "s");
      var users := WithClient(WithClient(map[], a), b);
      var sessions := WithSession(WithSession(map[], a), b);
      && In(WithoutClient(users, a), b)
      && "s" !in WithoutSessionAsWritten(sessions, a)
      && WithoutSession(sessions, a) == map["s" := b]
  {
    var a, b := Client(1, "u", "s"), Client(2, "u", "s");
    var none: Users := map[];
    var one := WithClient(none, a);
    assert a.userId == "u" && "u" !in none;
    var empty: set<Client> := {};
    assert empty + {a} == {a};
    assert one == map["u" := {a}];
    var users := WithClient(one, b);
    assert users == map["u" := {a} + {b}];
    assert users["u"] - {a} == {b};
  }

  /** The queue of `c`; a client never written to has an empty one. */
  function Pending(queues: Queues, c: Client): seq<Message>
  {
    if c in queues then queues[c] else []
  }

  /** A non-blocking send: the message joins the queue when there is room, and is dropped otherwise. */
  function Offer(q: seq<Message>, m: Message, capacity: nat): seq<Message>
  {
    if |q| < capacity then q + [m] else q
  }

  /** `n` non-blocking sends of the same message. */
  function OfferN(q: seq<Message>, m: Message, capacity: nat, n: nat): seq<Message>
    decreases n
  {
    if n == 0 then q else OfferN(Offer(q, m, capacity), m, capacity, n - 1)
  }

  /** From `q0` to `q1`, each client of `clients` was offered `m` once and no other queue changed. */
  ghost predicate OfferedTo(q0: Queues, q1: Queues, clients: set<Client>, m: Message, capacity: nat)
  {
    forall c :: Pending(q1, c) == if c in clients then Offer(Pending(q0, c), m, capacity) else Pending(q0, c)
  }

  /** The clients among `clients` whose queue has room. */
  function Accepting(queues: Queues, clients: set<Client>, capacity: nat): set<Client>
  {
    set c | c in clients && |Pending(queues, c)| < capacity
  }

  /** The client a request reaches through its session, if any. */
  function SessionTarget(sessions: Sessions, req: SendMessageRequest): Option<Client>
  {
    if req.targetSessionId != "" && req.targetSessionId in sessions then Some(sessions[req.targetSessionId]) else None
  }

  /** The clients a request reaches through its user. */
  function UserTargets(users: Users, req: SendMessageRequest): set<Client>
  {
    if req.targetUserId != "" && req.targetUserId in users then users[req.targetUserId] else {}
  }

  /** How many times `sendToClient` tries to push the request's message to `c`. */
  function Attempts(users: Users, sessions: Sessions, req: SendMessageRequest, c: Client): nat
  {
    (if SessionTarget(sessions, req) == Some(c) then 1 else 0) + (if c in UserTargets(users, req) then 1 else 0)
  }

  /** From `q0` to `q1`, each client received the attempts `sendToClient` makes for `req`. */
  ghost predicate SentTo(q0: Queues, q1: Queues, users: Users, sessions: Sessions, req: SendMessageRequest, capacity: nat)
  {
    forall c :: Pending(q1, c) == OfferN(Pending(q0, c), req.message, capacity, Attempts(users, sessions, req, c))
  }

  datatype Option<T> = None | Some(value: T)

  /** Repeated sends fill a queue up to its capacity and keep what it held. */
  lemma {:induction false} OfferNBounded(q: seq<Message>, m: Message, capacity: nat, n: nat)
    requires |q| <= capacity
    ensures |OfferN(q, m, capacity, n)| == if |q| + n <= capacity then |q| + n else capacity
    ensures OfferN(q, m, capacity, n)[..|q|] == q
    decreases n
  {
    if n > 0 {
      var q' := Offer(q, m, capacity);
      OfferNBounded(q', m, capacity, n - 1);
      assert q'[..|q|] == q;
      assert OfferN(q', m, capacity, n - 1)[..|q'|][..|q|] == q'[..|q|];
    }
  }

  /** A client that is both the session target and one of the user's clients gets the message twice when it has room. */
  lemma DeliveredTwice(users: Users, sessions: Sessions, req: SendMessageRequest, q: seq<Message>, capacity: nat, c: Client)
    requires SessionTarget(sessions, req) == Some(c) && c in UserTargets(users, req)
    requires |q| + 2 <= capacity
    ensures OfferN(q, req.message, capacity, Attempts(users, sessions, req, c)) == q + [req.message, req.message]
  {
    assert Attempts(users, sessions, req, c) == 2;
    assert OfferN(q, req.message, capacity, 2) == Offer(Offer(q, req.message, capacity), req.message, capacity);
  }

  /** One more client offered the message: it joins the sent-to set, the count grows when it had room, and the queues stay bounded. */
  lemma OfferStep(q0: Queues, q: Queues, q': Queues, done: set<Client>, c: Client, m: Message, capacity: nat)
    requires c !in done && OfferedTo(q0, q, done, m, capacity) && Bounded(q, capacity)
    requires q' == if |Pending(q, c)| < capacity then q[c := Pending(q, c) + [m]] else q
    ensures OfferedTo(q0, q', done + {c}, m, capacity) && Bounded(q', capacity)
    ensures |Accepting(q0, done + {c}, capacity)| == |Accepting(q0, done, capacity)| + (if |Pending(q, c)| < capacity then 1 else 0)
  {
    assert Pending(q, c) == Pending(q0, c);
    OfferStepOffered(q0, q, q', done, c, m, capacity);
    OfferStepBounded(q, q', c, m, capacity);
    OfferStepCount(q0, done, c, capacity);
  }

  /** The offered client's queue gains the message when it has room; every other queue keeps its offer. */
  lemma OfferStepOffered(q0: Queues, q: Queues, q': Queues, done: set<Client>, c: Client, m: Message, capacity: nat)
    requires c !in done && OfferedTo(q0, q, done, m, capacity)
    requires q' == if |Pending(q, c)| < capacity then q[c := Pending(q, c) + [m]] else q
    ensures OfferedTo(q0, q', done + {c}, m, capacity)
  {
    forall x
      ensures Pending(q', x) == if x in done + {c} then Offer(Pending(q0, x), m, capacity) else Pending(q0, x)
    {
      if x != c {
        assert Pending(q', x) == Pending(q, x);
      } else {
        assert Pending(q, c) == Pending(q0, c);
      }
    }
  }

  /** A send that only happens below capacity keeps the queues bounded. */
  lemma OfferStepBounded(q: Queues, q': Queues, c: Client, m: Message, capacity: nat)
    requires Bounded(q, capacity)
    requires q' == if |Pending(q, c)| < capacity then q[c := Pending(q, c) + [m]] else q
    ensures Bounded(q', capacity)
  {
  }

  /** The accepting set grows by the offered client exactly when it had room. */
  lemma OfferStepCount(q0: Queues, done: set<Client>, c: Client, capacity: nat)
    requires c !in done
    ensures |Accepting(q0, done + {c}, capacity)| == |Accepting(q0, done, capacity)| + (if |Pending(q0, c)| < capacity then 1 else 0)
  {
    assert Accepting(q0, done + {c}, capacity) ==
      Accepting(q0, done, capacity) + (if |Pending(q0, c)| < capacity then {c} else {});
  }

  /** Accepting clients of two disjoint sets add up. */
  lemma AcceptingUnion(q: Queues, a: set<Client>, b: set<Client>, capacity: nat)
    requires a * b == {}
    ensures |Accepting(q, a + b, capacity)| == |Accepting(q, a, capacity)| + |Accepting(q, b, capacity)|
  {
    var x, y := Accepting(q, a, capacity), Accepting(q, b, capacity);
    assert Accepting(q, a + b, capacity) == x + y;
    assert x * y == {};
  }

  /** Offering to two disjoint sets in turn offers to their union. */
  lemma OfferedToUnion(q0: Queues, q1: Queues, q2: Queues, a: set<Client>, b: set<Client>, m: Message, capacity: nat)
    requires a * b == {}
    requires OfferedTo(q0, q1, a, m, capacity) && OfferedTo(q1, q2, b, m, capacity)
    ensures OfferedTo(q0, q2, a + b, m, capacity)
    ensures Accepting(q1, b, capacity) == Accepting(q0, b, capacity)
  {
    forall c | c in b
      ensures c !in a
    {
      assert c !in a * b;
    }
  }

  /** Adding one user's clients to the clients of `done`: a disjoint union. */
  lemma ClientsOfStep(users: Users, done: set<string>, u: string)
    requires UsersWellFormed(users) && u in users && u !in done
    ensures ClientsOf(users, done + {u}) == ClientsOf(users, done) + users[u]
    ensures ClientsOf(users, done) * users[u] == {}
    ensures |ClientsOf(users, done + {u})| == |ClientsOf(users, done)| + |users[u]|
    ensures |users[u]| >= 1
  {
    ClientsOfMembers(users, done);
    ClientsOfMembers(users, done + {u});
    var a, b := ClientsOf(users, done), users[u];
    assert ClientsOf(users, done + {u}) == a + b;
    assert a * b == {};
    var x :| x in b;
    assert {x} <= b;
  }

  /** The count in `CountConnections` grows by the next user's connections, at least one. */
  lemma CountStep(users: Users, done: set<string>, u: string)
    requires UsersWellFormed(users) && u in users && u !in done
    ensures |ClientsOf(users, done + {u})| == |ClientsOf(users, done)| + |users[u]|
    ensures |done + {u}| == |done| + 1 && |users[u]| >= 1
  {
    ClientsOfStep(users, done, u);
  }

  /** Moving one element from the ones to visit to the visited ones keeps them a split of the whole set. */
  lemma SplitStep<T>(all: set<T>, keys: set<T>, done: set<T>, u: T)
    requires keys !! done && keys + done == all && u in keys
    ensures (keys - {u}) !! (done + {u}) && (keys - {u}) + (done + {u}) == all
    ensures u in all && u !in done && |keys - {u}| < |keys|
  {
  }

  /** One user's turn in `broadcastMessage`: its clients join the sent-to set and add their accepting ones to the count. */
  lemma BroadcastStep(q0: Queues, q1: Queues, q2: Queues, users: Users, done: set<string>, u: string, m: Message, capacity: nat)
    requires UsersWellFormed(users) && u in users && u !in done
    requires OfferedTo(q0, q1, ClientsOf(users, done), m, capacity) && OfferedTo(q1, q2, users[u], m, capacity)
    ensures OfferedTo(q0, q2, ClientsOf(users, done + {u}), m, capacity)
    ensures |Accepting(q0, ClientsOf(users, done + {u}), capacity)| ==
      |Accepting(q0, ClientsOf(users, done), capacity)| + |Accepting(q1, users[u], capacity)|
  {
    ClientsOfStep(users, done, u);
    OfferedToUnion(q0, q1, q2, ClientsOf(users, done), users[u], m, capacity);
    AcceptingUnion(q0, ClientsOf(users, done), users[u], capacity);
  }

  /** The invariant of the loop of `broadcastMessage`: the users in `done` have had their clients offered the message, and `count` sends were accepted. */
  ghost predicate BroadcastInvariant(q0: Queues, queues: Queues, users: Users, keys: set<string>, done: set<string>,
                                     m: Message, capacity: nat, count: nat)
  {
    && keys !! done && keys + done == users.Keys
    && Bounded(queues, capacity)
    && OfferedTo(q0, queues, ClientsOf(users, done), m, capacity)
    && count == |Accepting(q0, ClientsOf(users, done), capacity)|
  }

  /** One turn of the loop over users keeps the invariant and shrinks the users left. */
  lemma BroadcastLoopStep(q0: Queues, q1: Queues, q2: Queues, users: Users, keys: set<string>, done: set<string>, u: string,
                          m: Message, capacity: nat, count: nat, n: nat)
    requires UsersWellFormed(users) && u in keys && BroadcastInvariant(q0, q1, users, keys, done, m, capacity, count)
    requires Bounded(q2, capacity) && OfferedTo(q1, q2, users[u], m, capacity) && n == |Accepting(q1, users[u], capacity)|
    ensures BroadcastInvariant(q0, q2, users, keys - {u}, done + {u}, m, capacity, count + n)
    ensures |keys - {u}| < |keys|
  {
    SplitStep(users.Keys, keys, done, u);
    BroadcastStep(q0, q1, q2, users, done, u, m, capacity);
  }

  /** Once every user is done, the invariant is the promise of `broadcastMessage`. */
  lemma BroadcastDone(q0: Queues, queues: Queues, users: Users, done: set<string>, m: Message, capacity: nat, count: nat)
    requires BroadcastInvariant(q0, queues, users, {}, done, m, capacity, count)
    ensures Bounded(queues, capacity)
    ensures OfferedTo(q0, queues, AllClients(users), m, capacity)
    ensures count == |Accepting(q0, AllClients(users), capacity)|
  {
    assert done == users.Keys;
  }

  /** Under the invariant, the registered clients are those listed under their own user. */
  lemma AllClientsIn(users: Users)
    requires UsersWellFormed(users)
    ensures forall c :: c in AllClients(users) <==> In(users, c)
  {
    ClientsOfMembers(users, users.Keys);
  }

  /** What `sendToClient` leaves in the queues, and when it reports a delivery. */
  lemma SendOutcome(q0: Queues, q1: Queues, q2: Queues, users: Users, sessions: Sessions,
                    req: SendMessageRequest, capacity: nat, sent: bool)
    requires OfferedTo(q0, q1, if SessionTarget(sessions, req).Some? then {SessionTarget(sessions, req).value} else {}, req.message, capacity)
    requires OfferedTo(q1, q2, UserTargets(users, req), req.message, capacity)
    requires sent <==>
      || (SessionTarget(sessions, req).Some? && |Pending(q0, SessionTarget(sessions, req).value)| < capacity)
      || Accepting(q1, UserTargets(users, req), capacity) != {}
    ensures SentTo(q0, q2, users, sessions, req, capacity)
    ensures sent <==> exists c :: Attempts(users, sessions, req, c) > 0 && |Pending(q0, c)| < capacity
  {
    var m := req.message;
    var st := SessionTarget(sessions, req);
    var ut := UserTargets(users, req);
    forall c
      ensures Pending(q2, c) == OfferN(Pending(q0, c), m, capacity, Attempts(users, sessions, req, c))
    {
      var q := Pending(q0, c);
      if st == Some(c) && c in ut {
        assert OfferN(q, m, capacity, 2) == OfferN(Offer(q, m, capacity), m, capacity, 1);
      } else if st == Some(c) || c in ut {
        assert OfferN(q, m, capacity, 1) == OfferN(Offer(q, m, capacity), m, capacity, 0);
      }
    }
    if sent {
      if st.Some? && |Pending(q0, st.value)| < capacity {
        assert Attempts(users, sessions, req, st.value) > 0;
      } else {
        var x :| x in Accepting(q1, ut, capacity);
        assert |Pending(q0, x)| <= |Pending(q1, x)|;
        assert Attempts(users, sessions, req, x) > 0;
      }
    }
    forall c | Attempts(users, sessions, req, c) > 0 && |Pending(q0, c)| < capacity
      ensures sent
    {
      if st != Some(c) {
        assert c in Accepting(q1, ut, capacity);
      }
    }
  }

  class Hub {
    var clientsByUserId: Users
    var clientsBySessionId: Sessions
    /** The send queues, with their common buffer size. */
    var queues: Queues
    const capacity: nat
    /** Clients whose send queue has been closed. */
    var closed: set<Client>

    ghost predicate Valid()
      reads this
    {
      Registry(clientsByUserId, clientsBySessionId, closed) && Bounded(queues, capacity)
    }

    /** `NewHub`: no clients, no sessions. */
    constructor (capacity: nat)
      ensures Valid()
      ensures clientsByUserId == map[] && clientsBySessionId == map[] && queues == map[] && closed == {}
      ensures this.capacity == capacity
    {
      clientsByUserId := map[];
      clientsBySessionId := map[];
      queues := map[];
      this.capacity := capacity;
      closed := {};
    }

    /** `registerClient`, for a connection that has not been closed. */
    method Register(client: Client)
      requires Valid() && client !in closed
      modifies this
      ensures Valid()
      ensures clientsByUserId == WithClient(old(clientsByUserId), client)
      ensures clientsBySessionId == WithSession(old(clientsBySessionId), client)
      ensures queues == old(queues) && closed == old(closed)
    {
      RegisterKeepsRegistry(clientsByUserId, clientsBySessionId, closed, client);
      var users := clientsByUserId;
      if client.userId !in users {
        users := users[client.userId := {}];
      }
      users := users[client.userId := users[client.userId] + {client}];
      assert users == WithClient(clientsByUserId, client);
      clientsByUserId := users;
      if client.sessionId != "" {
        clientsBySessionId := clientsBySessionId[client.sessionId := client];
      }
    }

    /** The user-index half of `unregisterClient`, shared by both versions. */
    method RemoveFromUser(client: Client)
      modifies this
      ensures clientsByUserId == WithoutClient(old(clientsByUserId), client)
      ensures closed == ClosedAfter(old(closed), old(clientsByUserId), client)
      ensures clientsBySessionId == old(clientsBySessionId) && queues == old(queues)
    {
      if client.userId in clientsByUserId {
        var clients := clientsByUserId[client.userId];
        if client in clients {
          clients := clients - {client};
          clientsByUserId := clientsByUserId[client.userId := clients];
          closed := closed + {client};
          if clients == {} {
            clientsByUserId := clientsByUserId - {client.userId};
          }
        }
      }
    }

    /**
     * `unregisterClient` as written: the client leaves the user index and its
     * queue is closed only when it was registered, but the entry for its
     * session id is deleted whoever holds it.
     */
    method UnregisterAsWritten(client: Client)
      requires Valid()
      modifies this
      ensures Valid()
      ensures clientsByUserId == WithoutClient(old(clientsByUserId), client)
      ensures closed == ClosedAfter(old(closed), old(clientsByUserId), client)
      ensures clientsBySessionId == WithoutSessionAsWritten(old(clientsBySessionId), client)
      ensures queues == old(queues)
    {
      UnregisterKeepsRegistry(clientsByUserId, clientsBySessionId, closed, client);
      RemoveFromUser(client);
      if client.sessionId != "" {
        if client.sessionId in clientsBySessionId {
          clientsBySessionId := clientsBySessionId - {client.sessionId};
        }
      }
    }

    /**
     * `unregisterClient` with the session entry deleted only while it still
     * points at the leaving client.
     */
    method Unregister(client: Client)
      requires Valid()
      modifies this
      ensures Valid()
      ensures clientsByUserId == WithoutClient(old(clientsByUserId), client)
      ensures closed == ClosedAfter(old(closed), old(clientsByUserId), client)
      ensures clientsBySessionId == WithoutSession(old(clientsBySessionId), client)
      ensures queues == old(queues)
    {
      UnregisterKeepsRegistry(clientsByUserId, clientsBySessionId, closed, client);
      RemoveFromUser(client);
      if client.sessionId != "" {
        if client.sessionId in clientsBySessionId && clientsBySessionId[client.sessionId] == client {
          clientsBySessionId := clientsBySessionId - {client.sessionId};
        }
      }
    }

    /** `sendToClient`: the session target first, then every client of the target user. */
    method SendToClient(req: SendMessageRequest) returns (sent: bool)
      requires Valid()
      modifies this
      ensures Valid()
      ensures clientsByUserId == old(clientsByUserId) && clientsBySessionId == old(clientsBySessionId) && closed == old(closed)
      ensures SentTo(old(queues), queues, clientsByUserId, clientsBySessionId, req, capacity)
      ensures sent <==> exists c :: Attempts(clientsByUserId, clientsBySessionId, req, c) > 0 && |Pending(old(queues), c)| < capacity
    {
      queues, sent := Send(queues, clientsByUserId, clientsBySessionId, req, capacity);
    }

    /** `broadcastMessage`: one non-blocking send to every registered client; returns how many were accepted. */
    method Broadcast(m: Message) returns (count: nat)
      requires Valid()
      modifies this
      ensures Valid()
      ensures clientsByUserId == old(clientsByUserId) && clientsBySessionId == old(clientsBySessionId) && closed == old(closed)
      ensures OfferedTo(old(queues), queues, AllClients(clientsByUserId), m, capacity)
      ensures count == |Accepting(old(queues), AllClients(clientsByUserId), capacity)|
    {
      queues, count := OfferToUsers(queues, clientsByUserId, m, capacity);
    }

    /** `GetStats`: users with a connection, connections, and named sessions. */
    method GetStats() returns (totalUsers: nat, totalConnections: nat, totalSessions: nat)
      requires Valid()
      ensures totalUsers == |clientsByUserId.Keys|
      ensures totalConnections == |AllClients(clientsByUserId)|
      ensures totalSessions == |clientsBySessionId.Keys|
      ensures totalUsers <= totalConnections
    {
      totalConnections := CountConnections(clientsByUserId);
      totalUsers := |clientsByUserId.Keys|;
      totalSessions := |clientsBySessionId.Keys|;
    }
  }

  /** The connection count of `GetStats`: the sizes of the users' sets, added up. */
  method CountConnections(users: Users) returns (total: nat)
    requires UsersWellFormed(users)
    ensures total == |AllClients(users)|
    ensures |users.Keys| <= total
  {
    var keys := users.Keys;
    ghost var done: set<string> := {};
    total := 0;
    while keys != {}
      invariant keys !! done && keys + done == users.Keys
      invariant total == |ClientsOf(users, done)|
      invariant |done| <= total
      decreases |keys|
    {
      var u :| u in keys;
      CountStep(users, done, u);
      SplitStep(users.Keys, keys, done, u);
      total := total + |users[u]|;
      keys := keys - {u};
      done := done + {u};
    }
  }

  /** One non-blocking send to each of `clients`; returns the queues after and how many sends were accepted. */
  method OfferAll(q0: Queues, clients: set<Client>, m: Message, capacity: nat) returns (queues: Queues, count: nat)
    requires Bounded(q0, capacity)
    ensures Bounded(queues, capacity)
    ensures OfferedTo(q0, queues, clients, m, capacity)
    ensures count == |Accepting(q0, clients, capacity)|
  {
    queues := q0;
    var rest := clients;
    ghost var done: set<Client> := {};
    count := 0;
    while rest != {}
      invariant rest !! done && rest + done == clients
      invariant Bounded(queues, capacity)
      invariant OfferedTo(q0, queues, done, m, capacity)
      invariant count == |Accepting(q0, done, capacity)|
      decreases |rest|
    {
      var c :| c in rest;
      SplitStep(clients, rest, done, c);
      ghost var before := queues;
      var q := Pending(queues, c);
      if |q| < capacity {
        queues := queues[c := q + [m]];
        count := count + 1;
      }
      OfferStep(q0, before, queues, done, c, m, capacity);
      rest := rest - {c};
      done := done + {c};
    }
  }

  /** The loop of `broadcastMessage`: every user's clients in turn. */
  method OfferToUsers(q0: Queues, users: Users, m: Message, capacity: nat) returns (queues: Queues, count: nat)
    requires UsersWellFormed(users) && Bounded(q0, capacity)
    ensures Bounded(queues, capacity)
    ensures OfferedTo(q0, queues, AllClients(users), m, capacity)
    ensures count == |Accepting(q0, AllClients(users), capacity)|
  {
    queues := q0;
    var keys := users.Keys;
    ghost var done: set<string> := {};
    count := 0;
    while keys != {}
      invariant BroadcastInvariant(q0, queues, users, keys, done, m, capacity, count)
      decreases |keys|
    {
      var u :| u in keys;
      ghost var q1 := queues;
      var n;
      queues, n := OfferAll(queues, users[u], m, capacity);
      BroadcastLoopStep(q0, q1, queues, users, keys, done, u, m, capacity, count, n);
      count := count + n;
      keys := keys - {u};
      done := done + {u};
    }
    BroadcastDone(q0, queues, users, done, m, capacity, count);
  }

  /** The deliveries of `sendToClient` on the queues: returns the queues after and whether any send was accepted. */
  method Send(q0: Queues, users: Users, sessions: Sessions, req: SendMessageRequest, capacity: nat)
    returns (queues: Queues, sent: bool)
    requires Bounded(q0, capacity)
    ensures Bounded(queues, capacity)
    ensures SentTo(q0, queues, users, sessions, req, capacity)
    ensures sent <==> exists c :: Attempts(users, sessions, req, c) > 0 && |Pending(q0, c)| < capacity
  {
    queues := q0;
    var m := req.message;
    sent := false;
    if req.targetSessionId != "" {
      if req.targetSessionId in sessions {
        var client := sessions[req.targetSessionId];
        var q := Pending(queues, client);
        if |q| < capacity {
          queues := queues[client := q + [m]];
          sent := true;
        }
        OfferStep(q0, q0, queues, {}, client, m, capacity);
        assert {} + {client} == {client};
      }
    }
    ghost var q1 := queues;
    if req.targetUserId != "" && req.targetUserId in users {
      var n;
      queues, n := OfferAll(queues, users[req.targetUserId], m, capacity);
      if n > 0 {
        sent := true;
      }
    }
    SendOutcome(q0, q1, queues, users, sessions, req, capacity, sent);
  }
}
