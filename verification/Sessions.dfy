// Job sessions and their subscribers: session.cpp and offline_session.cpp. Shared
// pointers are explicit sets of those who hold a session; a weak pointer to a session can be locked
// while one of them is left, one to a subscriber while it is alive.

module Sessions {

  datatype Entry = Entry(time: int, action: string, message: string)

  datatype Message = Log(entry: Entry) | NotEstablished | Closed

  /** The messages that carry these entries. */
  function Transcript(logs: seq<Entry>): seq<Message> {
    seq(|logs|, i requires 0 <= i < |logs| => Log(logs[i]))
  }

  /** The log entries among the messages, in order. */
  function Entries(messages: seq<Message>): seq<Entry> {
    if messages == [] then []
    else
      var last := messages[|messages| - 1];
      Entries(messages[..|messages| - 1]) + if last.Log? then [last.entry] else []
  }

  lemma EntriesSnoc(messages: seq<Message>, m: Message)
    ensures Entries(messages + [m]) == if m.Log? then Entries(messages) + [m.entry] else Entries(messages)
  {
    assert (messages + [m])[..|messages|] == messages;
  }

  lemma {:induction false} EntriesOfTranscript(logs: seq<Entry>)
    ensures Entries(Transcript(logs)) == logs
  {
    if logs != [] {
      var init := logs[..|logs| - 1];
      EntriesOfTranscript(init);
      EntriesSnoc(Transcript(init), Log(logs[|logs| - 1]));
      assert Transcript(logs) == Transcript(init) + [Log(logs[|logs| - 1])];
      assert logs == init + [logs[|logs| - 1]];
    }
  }

  predicate InSync(messages: seq<Message>, logs: seq<Entry>) {
    Entries(messages) == logs
  }

  predicate Behind(messages: seq<Message>, logs: seq<Entry>) {
    Entries(messages) <= logs
  }

  predicate Told(messages: seq<Message>, m: Message) {
    m in messages
  }

  /** One message more. */
  lemma Reading(messages: seq<Message>, logs: seq<Entry>, m: Message)
    ensures !m.Log? && InSync(messages, logs) ==> InSync(messages + [m], logs)
    ensures !m.Log? && Behind(messages, logs) ==> Behind(messages + [m], logs)
    ensures m.Log? && InSync(messages, logs) ==> InSync(messages + [m], logs + [m.entry])
    ensures InSync(messages, logs) ==> Behind(messages, logs)
    ensures Told(messages + [m], m)
    ensures forall n :: Told(messages, n) ==> Told(messages + [m], n)
  {
    EntriesSnoc(messages, m);
  }

  /** One entry more to read. */
  lemma Growing(messages: seq<Message>, logs: seq<Entry>, entry: Entry)
    requires Behind(messages, logs)
    ensures Behind(messages, logs + [entry])
  {
  }

  /** Those who hold a session besides its subscribers. */
  datatype Owner = JobConnection(id: nat) | TimerHandler | Caller

  class Subscriber {
    var alive: bool
    var sent: seq<Message>
    var session: Session?
    // The session it subscribed to, once it has, and the key it came with.
    ghost var source: Session?
    ghost var slot: nat

    constructor ()
      ensures alive && sent == [] && session == null && source == null
    {
      alive, sent, session, source, slot := true, [], null, null, 0;
    }

    ghost function Holding(): set<Session>
      reads `session
    {
      if session == null then {} else {session}
    }

    method Unsubscribe()
      modifies `session, Holding()`holders
      ensures session == null
      ensures old(session) != null ==> old(session).holders == old(session.holders) - {this}
    {
      if session != null {
        session.holders := session.holders - {this};
        session := null;
      }
    }

    /** log_entry, session_not_established and session_closed. */
    method Receive(m: Message)
      modifies `sent, `session, Holding()`holders
      ensures sent == old(sent) + [m]
      ensures session == if m.Log? then old(session) else null
      ensures old(session) != null ==>
        old(session).holders == old(session.holders) - if m.Log? then {} else {this}
    {
      sent := sent + [m];
      if !m.Log? {
        Unsubscribe();
      }
    }
  }

  datatype SessionState = Pending | NeverEstablished | InProgress | Finished

  /** Both kinds of session; one read back from a file is offline. */
  class Session {
    const id: string
    const offline: bool
    var owners: set<Owner>
    var holders: set<Subscriber>
    var state: SessionState
    var receivedLogs: seq<Entry>
    var subscribers: map<nat, Subscriber>
    // Everyone whose subscription was handled, registered or not.
    ghost var served: set<Subscriber>

    constructor (id: string, offline: bool, logs: seq<Entry>, owners: set<Owner>)
      ensures this.id == id && this.offline == offline && this.owners == owners && holders == {}
      ensures state == Pending && receivedLogs == logs && subscribers == map[] && served == {}
      ensures DeliveryOk() && HoldersOk()
    {
      this.id, this.offline, this.owners := id, offline, owners;
      holders, state, receivedLogs, subscribers, served := {}, Pending, logs, map[], {};
    }

    /** A subscriber registered and alive has got the whole log and knows of the end. */
    ghost predicate InformedOk(x: Subscriber)
      reads `receivedLogs, `state, x`sent
    {
      && InSync(x.sent, receivedLogs)
      && (offline || state == Finished ==> Told(x.sent, Closed))
      && (!offline && state == NeverEstablished ==> Told(x.sent, NotEstablished))
    }

    /** Everyone served has got a first part of the log, in order. */
    ghost predicate UpTo(x: Subscriber)
      reads `receivedLogs, x`sent
    {
      Behind(x.sent, receivedLogs)
    }

    ghost predicate RegisteredOk()
      reads `subscribers, `served, served`slot
    {
      forall k :: k in subscribers ==> subscribers[k] in served && subscribers[k].slot == k
    }

    ghost predicate DeliveryOk()
      reads `receivedLogs, `state, `subscribers, `served, served`sent, served`alive, served`slot
    {
      && RegisteredOk()
      && (forall x :: x in served ==> UpTo(x))
      && (forall k :: k in subscribers && subscribers[k].alive ==> InformedOk(subscribers[k]))
    }

    /** The registered subscribers that are alive. */
    ghost function Listeners(): (r: set<Subscriber>)
      reads `subscribers, subscribers.Values`alive
    {
      set k | k in subscribers && subscribers[k].alive :: subscribers[k]
    }

    /** Whether a weak pointer to it can be locked. */
    predicate Alive()
      reads `owners, `holders
    {
      owners != {} || holders != {}
    }

    /** The holders are the ones served that point to the session. */
    ghost predicate HoldersOk()
      reads `holders, `served, served`source, served`session
    {
      && holders <= served
      && (forall x :: x in served ==>
            && x.source == this && (x.session == null || x.session == this)
            && (x in holders <==> x.session == this))
    }

    /** The delivery loop of log, finish and on_timer. */
    method Deliver(m: Message)
      requires RegisteredOk() && HoldersOk()
      modifies `holders, served`sent, served`session
      ensures HoldersOk()
      ensures forall x :: x in served ==>
        && x.sent == (if x in old(Listeners()) then old(x.sent) + [m] else old(x.sent))
        && x.session == if x in old(Listeners()) && !m.Log? then null else old(x.session)
      ensures holders == old(holders) - if m.Log? then {} else old(Listeners())
    {
      var rest := subscribers.Keys;
      ghost var told: set<Subscriber> := {};
      while rest != {}
        invariant rest <= subscribers.Keys
        invariant told == set k | k in subscribers && k !in rest && subscribers[k].alive :: subscribers[k]
        invariant forall x :: x in served ==>
          && x.sent == (if x in told then old(x.sent) + [m] else old(x.sent))
          && x.session == if x in told && !m.Log? then null else old(x.session)
        invariant holders == old(holders) - if m.Log? then {} else told
        decreases rest
      {
        var k :| k in rest;
        var x := subscribers[k];
        if x.alive {
          assert x !in told;
          x.Receive(m);
          told := told + {x};
        }
        rest := rest - {k};
      }
    }

    method Establish()
      requires DeliveryOk()
      modifies `state
      ensures DeliveryOk()
      ensures state == if offline then old(state) else InProgress
    {
      if !offline {
        state := InProgress;
      }
    }

    method GetSubscriber(key: nat) returns (x: Subscriber?)
      ensures x == if key in subscribers && subscribers[key].alive then subscribers[key] else null
    {
      x := null;
      if key in subscribers && subscribers[key].alive {
        x := subscribers[key];
      }
    }

    /** Each entry goes on record and then out to every listener. */
    method Record(entry: Entry)
      requires DeliveryOk() && HoldersOk()
      modifies `receivedLogs, `holders, served`sent, served`session
      ensures DeliveryOk() && HoldersOk()
      ensures receivedLogs == old(receivedLogs) + [entry]
      ensures forall x :: x in served ==>
        && x.sent == (if x in old(Listeners()) then old(x.sent) + [Log(entry)] else old(x.sent))
        && x.session == old(x.session)
      ensures holders == old(holders)
    {
      hide InSync, Behind, Told;
      ghost var logs := receivedLogs;
      receivedLogs := receivedLogs + [entry];
      Deliver(Log(entry));
      forall x | x in served
        ensures UpTo(x) && (x in old(Listeners()) ==> InformedOk(x))
      {
        assert Listeners() == old(Listeners());
        Reading(old(x.sent), logs, Log(entry));
        Reading(x.sent, receivedLogs, Closed);
        Growing(old(x.sent), logs, entry);
      }
    }

    /** The end is told to every listener, who lets go of the session. */
    method TellAll(m: Message)
      requires DeliveryOk() && HoldersOk() && !m.Log?
      modifies `holders, served`sent, served`session
      ensures DeliveryOk() && HoldersOk()
      ensures forall x :: x in served ==>
        && x.sent == (if x in old(Listeners()) then old(x.sent) + [m] else old(x.sent))
        && x.session == if x in old(Listeners()) then null else old(x.session)
      ensures holders == old(holders) - old(Listeners())
    {
      hide InSync, Behind, Told;
      Deliver(m);
      forall x | x in served
        ensures UpTo(x) && (x in old(Listeners()) ==> InformedOk(x) && Told(x.sent, m))
      {
        Reading(old(x.sent), receivedLogs, m);
      }
    }

    method Finish()
      requires DeliveryOk() && HoldersOk()
      modifies `state, `holders, served`sent, served`session
      ensures DeliveryOk() && HoldersOk()
      ensures state == if offline then old(state) else Finished
      ensures holders == old(holders) - if offline then {} else old(Listeners())
      ensures forall x :: x in served ==>
        if !offline && x in old(Listeners()) then x.sent == old(x.sent) + [Closed] && x.session == null
        else unchanged(x)
    {
      if !offline {
        assert Listeners() == old(Listeners());
        TellAll(Closed);
        state := Finished;
      }
    }

    /** A timer that was cancelled does nothing; one that ran out ends a pending session. */
    method OnTimer(aborted: bool, expired: bool)
      requires !offline && DeliveryOk() && HoldersOk()
      modifies `state, `holders, served`sent, served`session
      ensures DeliveryOk() && HoldersOk()
      ensures state == if !aborted && expired && old(state).Pending? then NeverEstablished else old(state)
      ensures holders == old(holders) - if state == old(state) then {} else old(Listeners())
      ensures forall x :: x in served ==>
        if state != old(state) && x in old(Listeners())
        then x.sent == old(x.sent) + [NotEstablished] && x.session == null
        else unchanged(x)
    {
      if aborted {
        return;
      }
      if expired && state.Pending? {
        TellAll(NotEstablished);
        state := NeverEstablished;
      }
    }

    /** What a new subscriber gets to read at once. */
    ghost function Greeting(): seq<Message>
      reads `state, `receivedLogs
    {
      if !offline && state == NeverEstablished then [NotEstablished]
      else if offline || state == Finished then Transcript(receivedLogs) + [Closed]
      else Transcript(receivedLogs)
    }

    /** Reads the log so far out to a new subscriber. */
    method Replay(x: Subscriber)
      requires x.sent == [] && x.session == null
      modifies x`sent, x`session
      ensures x.sent == Transcript(receivedLogs) && x.session == null
      ensures InSync(x.sent, receivedLogs)
    {
      var i: nat := 0;
      while i < |receivedLogs|
        invariant i <= |receivedLogs|
        invariant x.sent == Transcript(receivedLogs[..i]) && x.session == null
      {
        x.Receive(Log(receivedLogs[i]));
        assert receivedLogs[..i + 1] == receivedLogs[..i] + [receivedLogs[i]];
        i := i + 1;
      }
      assert receivedLogs[..i] == receivedLogs;
      EntriesOfTranscript(receivedLogs);
    }

    lemma Greeted(x: Subscriber)
      requires x.sent == Greeting()
      ensures UpTo(x) && (InformedOk(x) || (!offline && state == NeverEstablished))
    {
      EntriesOfTranscript(receivedLogs);
      EntriesSnoc(Transcript(receivedLogs), Closed);
      EntriesSnoc([], NotEstablished);
      assert [] + [NotEstablished] == [NotEstablished];
    }

    /** Hands over what there is and puts the subscriber in its place. */
    method Greet(key: nat, x: Subscriber)
      requires x.sent == [] && x.session == null
      requires x !in served && RegisteredOk()
      modifies `subscribers, `served, x`sent, x`source, x`slot, x`session
      ensures served == old(served) + {x} && x.source == this && x.session == null && x.slot == key
      ensures x.sent == Greeting()
      ensures subscribers ==
              if key in old(subscribers) || (!offline && state == NeverEstablished) then old(subscribers)
              else old(subscribers)[key := x]
    {
      x.source, x.slot, served := this, key, served + {x};
      if !offline && state == NeverEstablished {
        x.Receive(NotEstablished);
        return;
      }
      Replay(x);
      if key !in subscribers {
        subscribers := subscribers[key := x];
      }
      if offline || state == Finished {
        x.Receive(Closed);
      }
    }

    method Subscribe(key: nat, x: Subscriber)
      requires DeliveryOk() && HoldersOk()
      requires x.alive && x.sent == [] && x.session == null && x !in served
      modifies `subscribers, `served, x`sent, x`source, x`slot, x`session
      ensures DeliveryOk() && HoldersOk()
      ensures served == old(served) + {x} && x.source == this && x.session == null
      ensures x.sent == Greeting()
      ensures subscribers ==
              if key in old(subscribers) || (!offline && state == NeverEstablished) then old(subscribers)
              else old(subscribers)[key := x]
    {
      hide UpTo, InformedOk, Transcript, Greeting;
      Greet(key, x);
      Greeted(x);
    }
  }
}
