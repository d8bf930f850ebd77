// The registry of job sessions: session_manager.cpp, with the job connections and
// the clients that use it. The registry points to sessions weakly; the deleter that
// runs when the last owner lets go erases the entry.

module SessionRegistry {

  import opened Sessions

  /** What the sessions directory holds under the name of a session. */
  datatype CombinedLog = NoFile | File(logs: seq<Entry>)

  class SessionManager {
    var sessions: map<string, Session>
    // The context of each job connection.
    var connections: map<nat, Session>
    // All that was ever made.
    var all: set<Session>
    var clients: set<Subscriber>

    /** The entries are the live sessions; only a dying one may lack an owner. */
    ghost predicate Registry(dying: set<Session>)
      reads `sessions, `all, all`owners, all`holders
    {
      && (forall id :: id in sessions ==>
            && sessions[id] in all && sessions[id].id == id
            && (sessions[id].Alive() || sessions[id] in dying))
      && (forall s :: s in all && s.Alive() ==> s.id in sessions && sessions[s.id] == s)
    }

    ghost predicate OwnersOk(s: Session)
      reads `connections, s`owners
    {
      forall o :: o in s.owners ==>
        match o
        case JobConnection(c) => c in connections && connections[c] == s
        case TimerHandler => !s.offline
        case Caller => true
    }

    ghost predicate ClientOk(x: Subscriber)
      reads x`source, x`session, x`alive
    {
      x.session != null ==> x.alive && x.session == x.source
    }

    ghost predicate Held()
      reads this, all, clients
    {
      && (forall c :: c in connections ==> connections[c] in all && JobConnection(c) in connections[c].owners)
      && (forall s :: s in all ==> OwnersOk(s))
      && (forall x :: x in clients ==> ClientOk(x) && x.source != null && x.source in all && x in x.source.served)
    }

    ghost predicate Delivered()
      reads this, all, clients
    {
      forall s :: s in all ==> s.served <= clients && s.DeliveryOk() && s.HoldersOk()
    }

    ghost predicate Sound(dying: set<Session>)
      reads this, all, clients
    {
      Registry(dying) && Held() && Delivered()
    }

    /** Between calls nobody holds a session for the time of a call. */
    ghost predicate Valid()
      reads this, all, clients
    {
      Sound({}) && forall s :: s in all ==> Caller !in s.owners
    }

    constructor ()
      ensures Valid() && sessions == map[] && connections == map[] && all == {} && clients == {}
    {
      sessions, connections, all, clients := map[], map[], {}, {};
    }

    /** At most one live session has a given id. */
    lemma OneLiveSession(s: Session, t: Session)
      requires Valid() && s in all && t in all && s.Alive() && t.Alive() && s.id == t.id
      ensures s == t
    {
    }

    /** What a job connection logs goes to the session every subscriber of that id holds. */
    lemma SharedSession(c: nat, x: Subscriber)
      requires Valid() && c in connections && x in clients && x.session != null
      requires connections[c].id == x.session.id
      ensures connections[c] == x.session == sessions[x.session.id]
    {
    }

    lemma ConnectionsHeld()
      requires Valid()
      ensures forall c :: c in connections ==> connections[c] in all
    {
    }

    lemma IdsHeld()
      requires Valid()
      ensures forall id :: id in sessions ==> sessions[id] in all && sessions[id].id == id
      ensures forall s :: s in all && TimerHandler in s.owners ==> !s.offline
    {
    }

    lemma ClientsHeld()
      requires Valid()
      ensures forall x :: x in clients ==> x.source != null && x.source in all
    {
    }

    /** What the invariant says of every client and connection. */
    lemma Promises()
      requires Valid()
      ensures forall c, x :: c in connections && x in clients && x.session != null && connections[c].id == x.session.id ==>
        connections[c] == x.session
      ensures forall s, k :: s in all && k in s.subscribers && s.subscribers[k].alive ==>
        && Entries(s.subscribers[k].sent) == s.receivedLogs
        && (s.offline || s.state == Finished ==> Closed in s.subscribers[k].sent)
        && (!s.offline && s.state == NeverEstablished ==> NotEstablished in s.subscribers[k].sent)
      ensures forall x :: x in clients ==>
        x.source != null && Entries(x.sent) <= x.source.receivedLogs
    {
    }

    /** The deleter, if the last owner is gone. */
    method Reap(s: Session)
      requires Sound({s}) && s.id in sessions && sessions[s.id] == s
      modifies `sessions
      ensures Sound({})
      ensures sessions == if !s.Alive() then old(sessions) - {s.id} else old(sessions)
    {
      if !s.Alive() {
        sessions := sessions - {s.id};
      }
    }

    /** A weak pointer yields the session while it has an owner. */
    method Lock(id: string) returns (s: Session?)
      requires Sound({}) && id in sessions
      modifies all`owners
      ensures Sound({})
      ensures s == sessions[id] && s in all && s.owners == old(sessions[id].owners) + {Caller}
      ensures forall t :: t in all && t != s ==> t.owners == old(t.owners)
    {
      s := null;
      if sessions[id].Alive() {
        s := sessions[id];
        s.owners := s.owners + {Caller};
      }
    }

    /** A caller or a timer handler lets go of a session. */
    method Release(s: Session, o: Owner)
      requires Sound({}) && s in all && o in s.owners && (o.Caller? || o.TimerHandler?)
      modifies `sessions, s`owners
      ensures Sound({})
      ensures s.owners == old(s.owners) - {o}
      ensures sessions == if !s.Alive() then old(sessions) - {s.id} else old(sessions)
    {
      hide Session.DeliveryOk, Session.HoldersOk, ClientOk;
      s.owners := s.owners - {o};
      Reap(s);
    }

    /** A job connection lets go of its session. */
    method Disconnect(c: nat)
      requires Sound({})
      modifies `sessions, `connections, all`owners
      ensures Sound({})
      ensures connections == old(connections) - {c}
      ensures c !in old(connections) ==> sessions == old(sessions)
      ensures c in old(connections) ==>
        var s := old(connections)[c];
        && s.owners == old(s.owners) - {JobConnection(c)}
        && sessions == if !s.Alive() then old(sessions) - {s.id} else old(sessions)
      ensures forall t :: t in all && !(c in old(connections) && t == old(connections)[c]) ==> t.owners == old(t.owners)
    {
      hide Session.DeliveryOk, Session.HoldersOk, ClientOk;
      if c in connections {
        var s := connections[c];
        connections := connections - {c};
        s.owners := s.owners - {JobConnection(c)};
        Reap(s);
      }
    }

    /** The caller's pointer moves into the context of a job connection. */
    method Attach(c: nat, s: Session)
      requires Sound({}) && s in all && Caller in s.owners && c !in connections
      modifies `connections, s`owners
      ensures Sound({})
      ensures s.owners == old(s.owners) - {Caller} + {JobConnection(c)} && connections == old(connections)[c := s]
      ensures s.id in sessions && sessions[s.id] == s
    {
      hide Session.DeliveryOk, Session.HoldersOk, ClientOk;
      connections := connections[c := s];
      s.owners := s.owners - {Caller} + {JobConnection(c)};
      assert forall t :: t in all ==> OwnersOk(t);
      hide OwnersOk;
    }

    method Emplace(s: Session) returns (success: bool)
      modifies `sessions
      ensures success == (s.id !in old(sessions))
      ensures sessions == if success then old(sessions)[s.id := s] else old(sessions)
    {
      success := s.id !in sessions;
      if success {
        sessions := sessions[s.id := s];
      }
    }

    /** A new session goes into the registry, held by its caller and, unless it is
      * offline, by the handler of its timer. */
    method Create(id: string, offline: bool, logs: seq<Entry>) returns (s: Session)
      requires Sound({}) && id !in sessions
      modifies `sessions, `all
      ensures Sound({}) && fresh(s)
      ensures s.id == id && s.offline == offline && s.receivedLogs == logs && s.state == Pending
      ensures s.owners == if offline then {Caller} else {Caller, TimerHandler}
      ensures s.served == {} && s.subscribers == map[]
      ensures sessions == old(sessions)[id := s] && all == old(all) + {s}
    {
      hide Sound, Session.DeliveryOk, Session.HoldersOk;
      s := new Session(id, offline, logs, if offline then {Caller} else {Caller, TimerHandler});
      var success := Emplace(s);
      assert success;
      all := all + {s};
      Entered(s);
    }

    /** A new session with an owner, and with nobody to serve, may enter the registry. */
    twostate lemma Entered(new s: Session)
      requires old(Sound({})) && connections == old(connections) && clients == old(clients)
      requires s.id !in old(sessions) && sessions == old(sessions)[s.id := s]
      requires s !in old(all) && all == old(all) + {s}
      requires (forall t :: t in old(all) ==> unchanged(t)) && forall x :: x in clients ==> unchanged(x)
      requires s.owners != {} && OwnersOk(s) && s.served == {} && s.DeliveryOk() && s.HoldersOk()
      ensures Sound({})
    {
      hide Session.DeliveryOk, Session.HoldersOk, ClientOk, OwnersOk;
    }

    /** What a held session does with those it serves is its own matter. */
    twostate lemma StaysSound(s: Session)
      requires old(Sound({})) && s in all && unchanged(this)
      requires s.served == old(s.served) && s.DeliveryOk() && s.HoldersOk()
      requires s.owners != {} && s.owners == old(s.owners)
      requires forall x :: x in s.served ==>
        x.alive == old(x.alive) && x.source == old(x.source) && x.session in {old(x.session), null}
      requires forall t :: t in all && t != s ==> unchanged(t)
      requires forall x :: x in clients && x !in s.served ==> unchanged(x)
      ensures Sound({})
    {
      hide Session.DeliveryOk;
      forall t | t in all && t != s
        ensures t.served !! s.served && t.DeliveryOk() && t.HoldersOk()
      {
      }
    }

    /** Of all clients, exactly these are sent one message more, by their session. */
    twostate predicate ToldBy(s: Session, listeners: set<Subscriber>, m: Message)
      reads this, clients
    {
      forall x :: x in clients && x in old(clients) ==>
        if x in listeners then x.sent == old(x.sent) + [m] && x.session == null && x.source == s
        else x.sent == old(x.sent) && x.session == old(x.session)
    }

    lemma ServedHere(s: Session)
      requires Sound({}) && s in all
      ensures s.served <= clients && s.Listeners() <= s.served
      ensures forall x :: x in s.served ==> x.source == s
    {
    }

    method FinishHeld(s: Session)
      requires Sound({}) && s in all && s.owners != {}
      modifies s`state, s`holders, clients`sent, clients`session
      ensures Sound({}) && s.state == if s.offline then old(s.state) else Finished
      ensures ToldBy(s, if s.offline then {} else old(s.Listeners()), Closed)
    {
      ServedHere(s);
      hide Session.DeliveryOk, Session.HoldersOk, OwnersOk, ClientOk;
      s.Finish();
      StaysSound(s);
    }

    method FinishSession(id: string)
      requires Valid()
      modifies `sessions, all`owners, all`state, all`holders, clients`sent, clients`session
      ensures Valid() && all == old(all) && clients == old(clients) && connections == old(connections)
      ensures id in old(sessions) ==>
        var s := old(sessions)[id]; s.state == if s.offline then old(s.state) else Finished
      ensures id in old(sessions) ==>
        var s := old(sessions)[id]; ToldBy(s, if s.offline then {} else old(s.Listeners()), Closed)
      ensures id !in old(sessions) ==> forall x :: x in clients ==> unchanged(x)
      ensures forall t :: t in all && !(id in old(sessions) && old(sessions)[id] == t) ==> unchanged(t)
      ensures forall t :: t in all ==> t.receivedLogs == old(t.receivedLogs)
    {
      hide Sound;
      if id in sessions {
        var s := Lock(id);
        if s != null {
          FinishHeld(s);
          Release(s, Caller);
        }
      }
    }

    lemma TimerHolds(s: Session)
      requires Sound({}) && s in all && TimerHandler in s.owners
      ensures !s.offline
    {
    }

    method HandleTimer(s: Session, aborted: bool, expired: bool)
      requires Sound({}) && s in all && s.owners != {} && !s.offline
      modifies s`state, s`holders, clients`sent, clients`session
      ensures Sound({})
      ensures s.state == if !aborted && expired && old(s.state).Pending? then NeverEstablished else old(s.state)
      ensures ToldBy(s, if s.state == old(s.state) then {} else old(s.Listeners()), NotEstablished)
    {
      ServedHere(s);
      hide Session.DeliveryOk, Session.HoldersOk, OwnersOk, ClientOk;
      s.OnTimer(aborted, expired);
      StaysSound(s);
    }

    /** The handler of the timer runs once, and is gone. */
    method TimerFires(s: Session, aborted: bool, expired: bool)
      requires Valid() && s in all && TimerHandler in s.owners
      modifies `sessions, s`owners, s`state, s`holders, clients`sent, clients`session
      ensures Valid() && all == old(all) && clients == old(clients) && connections == old(connections)
      ensures TimerHandler !in s.owners
      ensures forall x :: x in clients ==>
        if s.state != old(s.state) && x in old(s.Listeners())
        then x.sent == old(x.sent) + [NotEstablished] && x.session == null && x.source == s
        else x.sent == old(x.sent) && x.session == old(x.session)
      ensures s.state == if !aborted && expired && old(s.state).Pending? then NeverEstablished else old(s.state)
      ensures forall t :: t in all && t != s ==> unchanged(t)
      ensures forall t :: t in all ==> t.receivedLogs == old(t.receivedLogs)
    {
      TimerHolds(s);
      hide Sound, Session.Listeners;
      HandleTimer(s, aborted, expired);
      Release(s, TimerHandler);
    }

    /** connect: the caller gets the session of that id, established. */
    method Connect(id: string) returns (s: Session)
      requires Sound({})
      modifies `sessions, `all, all`owners, all`state
      ensures Sound({}) && s in all && s.id == id && Caller in s.owners
      ensures id in sessions && sessions[id] == s && sessions == old(sessions)[id := s]
      ensures id in old(sessions) ==> s == old(sessions)[id] && s.owners == old(s.owners) + {Caller} && all == old(all)
      ensures id !in old(sessions) ==> fresh(s) && s.receivedLogs == [] && !s.offline && all == old(all) + {s}
      ensures forall t :: t in old(all) && t != s ==> unchanged(t)
      ensures !s.offline ==> s.state == InProgress
      ensures s in old(all) && s.offline ==> s.state == old(s.state)
    {
      hide Session.DeliveryOk, Session.HoldersOk, OwnersOk, ClientOk;
      if id in sessions {
        var found := Lock(id);
        s := found;
      } else {
        s := Create(id, false, []);
      }
      label locked:
      s.Establish();
      StaysSound@locked(s);
    }

    /** A job process reports in under a session id. */
    method Authenticate(c: nat, id: string) returns (s: Session)
      requires Valid()
      modifies `sessions, `all, `connections, all`owners, all`state
      ensures Valid() && clients == old(clients) && s.id == id
      ensures connections == old(connections)[c := s] && id in sessions && sessions[id] == s
      ensures id in old(sessions) ==> s == old(sessions)[id] && s.receivedLogs == old(s.receivedLogs) && all == old(all)
      ensures id !in old(sessions) ==> fresh(s) && s.receivedLogs == [] && !s.offline && all == old(all) + {s}
      ensures !s.offline ==> s.state == InProgress
      ensures s in old(all) && s.offline ==> s.state == old(s.state)
      ensures forall t :: t in old(all) ==>
        t.receivedLogs == old(t.receivedLogs) && (t != s ==> t.state == old(t.state))
    {
      hide Sound;
      s := Connect(id);
      Disconnect(c);
      Attach(c, s);
    }

    /** A job process logs; its connection has reported in before. */
    lemma JobHolds(c: nat)
      requires Sound({}) && c in connections
      ensures connections[c] in all && connections[c].owners != {}
      ensures connections[c].served <= clients && connections[c].Listeners() <= connections[c].served
    {
    }

    method JobLog(c: nat, entry: Entry)
      requires Valid() && c in connections
      modifies all`receivedLogs, all`holders, clients`sent, clients`session
      ensures Valid() && all == old(all) && clients == old(clients) && connections == old(connections)
      ensures connections[c].receivedLogs == old(connections[c].receivedLogs) + [entry]
      ensures forall t :: t in all && t != connections[c] ==> unchanged(t)
      ensures forall x :: x in clients ==>
        && x.sent == (if x in old(connections[c].Listeners()) then old(x.sent) + [Log(entry)] else old(x.sent))
        && x.session == old(x.session)
    {
      JobHolds(c);
      hide Session.DeliveryOk, Session.HoldersOk, OwnersOk, ClientOk;
      var s := connections[c];
      s.Record(entry);
      StaysSound(s);
    }

    /** The subscriber comes to hold the session it was served by; the caller lets go. */
    method SetSession(s: Session, x: Subscriber)
      requires Sound({}) && s in all && Caller in s.owners && x in s.served && x.alive
      modifies s`owners, s`holders, x`session
      ensures Sound({})
      ensures x.session == s && s.owners == old(s.owners) - {Caller}
    {
      hide Sound;
      x.session := s;
      s.holders := s.holders + {x};
      s.owners := s.owners - {Caller};
      HolderTaken(s, x);
    }

    /** The caller has handed the session over to a client that it serves. */
    twostate lemma HolderTaken(s: Session, new x: Subscriber)
      requires old(Sound({})) && unchanged(this) && s in all && Caller in old(s.owners) && x in old(s.served) && x.alive
      requires s.holders == old(s.holders) + {x} && s.owners == old(s.owners) - {Caller} && x.session == s
      requires unchanged(s`receivedLogs, s`state, s`subscribers, s`served)
      requires unchanged(x`source, x`alive, x`sent, x`slot)
      requires forall t :: t in all && t != s ==> unchanged(t)
      requires forall y :: y in clients && y != x ==> unchanged(y)
      ensures Sound({})
    {
      hide Session.DeliveryOk;
      forall t | t in all
        ensures t.DeliveryOk() && t.HoldersOk()
      {
        assert old(t.DeliveryOk() && t.HoldersOk()) && t.served <= clients;
      }
    }

    /** The same when it takes in a client. */
    twostate lemma StaysSoundServing(s: Session, new x: Subscriber)
      requires old(Sound({})) && s in all && sessions == old(sessions) && connections == old(connections) && all == old(all)
      requires x !in old(clients) && clients == old(clients) + {x}
      requires s.served == old(s.served) + {x} && s.owners == old(s.owners) && s.holders == old(s.holders)
      requires x.source == s && x.session == null
      requires s.DeliveryOk()
      requires s.HoldersOk()
      requires forall t :: t in all && t != s ==> unchanged(t)
      requires forall y :: y in old(clients) ==> unchanged(y)
      ensures Sound({})
    {
      hide Session.DeliveryOk;
      forall t | t in all && t != s
        ensures x !in t.served && t.DeliveryOk() && t.HoldersOk()
      {
      }
    }

    /** A held session serves a client that is new to it. */
    method Join(s: Session, key: nat, x: Subscriber)
      requires Sound({}) && s in all && Caller in s.owners
      requires x !in clients && x.alive && x.sent == [] && x.session == null
      modifies `clients, s`subscribers, s`served, x
      ensures Sound({}) && clients == old(clients) + {x}
      ensures x in s.served && x.source == s && x.alive == old(x.alive) && x.sent == s.Greeting()
    {
      hide Session.DeliveryOk, Session.Greeting, Session.HoldersOk, Registry, OwnersOk, ClientOk;
      s.Subscribe(key, x);
      clients := clients + {x};
      StaysSoundServing(s, x);
    }

    /** subscribe: finds the session, reads it back from its file, or makes a new one. */
    method Subscribe(id: string, key: nat, x: Subscriber, file: CombinedLog)
      requires Valid()
      requires x !in clients && x.alive && x.sent == [] && x.session == null
      modifies this, all, x
      ensures Valid() && connections == old(connections) && clients == old(clients) + {x}
      ensures id in sessions && x.session == sessions[id]
      ensures id in old(sessions) ==> sessions == old(sessions) && all == old(all)
      ensures id !in old(sessions) ==>
        && sessions == old(sessions)[id := x.session] && fresh(x.session) && all == old(all) + {x.session}
        && x.session.offline == file.File?
        && x.sent == if file.File? then Transcript(file.logs) + [Closed] else []
      ensures x.sent == x.session.Greeting() && x.source == x.session
      ensures var s := x.session;
        x.sent ==
          if !s.offline && s.state == NeverEstablished then [NotEstablished]
          else if s.offline || s.state == Finished then Transcript(s.receivedLogs) + [Closed]
          else Transcript(s.receivedLogs)
      ensures id !in old(sessions) ==> x.session.state == Pending
      ensures id !in old(sessions) ==> x.session.receivedLogs == if file.File? then file.logs else []
      ensures forall t :: t in old(all) ==> t.receivedLogs == old(t.receivedLogs) && t.state == old(t.state)
    {
      hide Sound;
      var s: Session;
      if id in sessions {
        var found := Lock(id);
        if found == null {
          return;
        }
        s := found;
      } else if file.File? {
        s := Create(id, true, file.logs);
      } else {
        s := Create(id, false, []);
      }
      Join(s, key, x);
      SetSession(s, x);
      assert Transcript([]) == [];
    }

    /** get_subscriber. */
    method GetSubscriber(id: string, key: nat) returns (x: Subscriber?)
      requires Valid()
      ensures x == null <==> !(id in sessions && key in sessions[id].subscribers && sessions[id].subscribers[key].alive)
      ensures x != null ==> x == sessions[id].subscribers[key] && x in clients
    {
      x := null;
      if id in sessions && sessions[id].Alive() {
        x := sessions[id].GetSubscriber(key);
      }
    }

    /** The subscriber lets go of its session, and the deleter runs if it was the last. */
    method LetGo(x: Subscriber)
      requires Sound({}) && x in clients
      modifies `sessions, all`holders, x`session
      ensures Sound({}) && x.session == null
    {
      HeldByClient(x);
      hide Sound;
      if x.session != null {
        var s := x.session;
        x.Unsubscribe();
        HolderGone(s, x);
        Reap(s);
      }
    }

    lemma HeldByClient(x: Subscriber)
      requires Sound({}) && x in clients
      ensures x.session != null ==>
        var s := x.session; s in all && x in s.holders && s.id in sessions && sessions[s.id] == s
    {
      hide Session.DeliveryOk, OwnersOk;
    }

    /** A client has let go, and the session may be without an owner. */
    twostate lemma HolderGone(s: Session, new x: Subscriber)
      requires old(Sound({})) && unchanged(this) && s in all && x in clients && old(x.session) == s
      requires s.holders == old(s.holders) - {x} && x.session == null
      requires s.served == old(s.served) && s.owners == old(s.owners) && s.DeliveryOk()
      requires x.source == old(x.source) && x.alive == old(x.alive)
      requires forall t :: t in all && t != s ==> unchanged(t)
      requires forall y :: y in clients && y != x ==> unchanged(y)
      ensures Sound({s})
    {
      hide Session.DeliveryOk, OwnersOk;
    }

    method Unsubscribe(id: string, key: nat)
      requires Valid()
      modifies `sessions, all`holders, clients`session
      ensures Valid() && all == old(all) && clients == old(clients) && connections == old(connections)
      ensures forall t :: t in all ==> t.receivedLogs == old(t.receivedLogs) && t.state == old(t.state)
      ensures id in old(sessions) && key in old(sessions[id].subscribers) && old(sessions[id].subscribers[key].alive) ==>
        old(sessions[id].subscribers[key]).session == null
    {
      hide Sound;
      var x := GetSubscriber(id, key);
      if x != null {
        LetGo(x);
      }
    }

    method Die(x: Subscriber)
      requires Sound({}) && x in clients && x.session == null
      modifies x`alive
      ensures Sound({}) && !x.alive
    {
      hide OwnersOk, Session.HoldersOk, Session.InformedOk, Session.UpTo;
      x.alive := false;
    }

    /** The connection of a client is closed, and with it the client goes. */
    method ClientGone(x: Subscriber)
      requires Valid() && x in clients
      modifies `sessions, all`holders, clients`session, x`alive
      ensures Valid() && all == old(all) && clients == old(clients) && connections == old(connections)
      ensures forall t :: t in all ==> t.receivedLogs == old(t.receivedLogs) && t.state == old(t.state)
      ensures !x.alive && x.session == null
    {
      hide Sound;
      LetGo(x);
      Die(x);
    }

    method JobGone(c: nat)
      requires Valid()
      modifies this, all
      ensures Valid() && all == old(all) && clients == old(clients) && connections == old(connections) - {c}
      ensures forall t :: t in all ==> t.receivedLogs == old(t.receivedLogs) && t.state == old(t.state)
    {
      hide Sound;
      Disconnect(c);
    }
  }
}
