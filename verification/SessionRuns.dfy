// Runs of the session manager: whatever happens, in any order.

module SessionRuns {

  import opened SessionRegistry
  import opened Sessions
  import opened Wrappers

  /** What may happen to the manager, in any order. */
  datatype Step =
    | JobReports(c: nat, id: string)
    | JobLogs(c: nat, entry: Entry)
    | JobGoes(c: nat)
    | JobEnds(id: string)
    | TimerRuns(id: string, aborted: bool, expired: bool)
    | ClientSubscribes(id: string, key: nat, file: CombinedLog)
    | ClientUnsubscribes(id: string, key: nat)
    | ClientGoes

  /** The session id a job connection reported last, if it is still connected. */
  function LastReport(steps: seq<Step>, n: nat, c: nat): Option<string>
    requires n <= |steps|
  {
    if n == 0 then None
    else if steps[n - 1].JobReports? && steps[n - 1].c == c then Some(steps[n - 1].id)
    else if steps[n - 1].JobGoes? && steps[n - 1].c == c then None
    else LastReport(steps, n - 1, c)
  }

  /** The entries that the first n steps logged to a session. */
  ghost function Logged(steps: seq<Step>, targets: seq<Session?>, n: nat, s: Session): seq<Entry>
    requires n <= |steps| && n <= |targets|
  {
    if n == 0 then []
    else if steps[n - 1].JobLogs? && targets[n - 1] == s then Logged(steps, targets, n - 1, s) + [steps[n - 1].entry]
    else Logged(steps, targets, n - 1, s)
  }

  lemma {:induction false} LoggedBefore(steps: seq<Step>, targets: seq<Session?>, target: Session?, n: nat, s: Session)
    requires n <= |steps| && n <= |targets|
    ensures Logged(steps, targets + [target], n, s) == Logged(steps, targets, n, s)
    ensures (forall i :: 0 <= i < n ==> targets[i] != s) ==> Logged(steps, targets, n, s) == []
  {
    if n > 0 {
      LoggedBefore(steps, targets, target, n - 1, s);
    }
  }

  /** What a job connection reported, and where an entry went. */
  ghost predicate TargetOk(steps: seq<Step>, i: nat, target: Session?)
    requires i < |steps|
  {
    if steps[i].JobLogs? && LastReport(steps, i, steps[i].c).Some?
    then target != null && target.id == LastReport(steps, i, steps[i].c).value
    else target == null
  }

  /** The log of a session that starts with the first n steps: nothing, or a file. */
  ghost predicate Begins(steps: seq<Step>, n: nat, logs: seq<Entry>)
    requires n <= |steps|
  {
    logs == [] || exists i :: 0 <= i < n && steps[i].ClientSubscribes? && steps[i].file == File(logs)
  }

  /** What the first n steps have made of one log. */
  ghost predicate LogOk(steps: seq<Step>, n: nat, targets: seq<Session?>, s: Session, begun: seq<Entry>,
                        log: seq<Entry>)
    requires n <= |steps| && n <= |targets|
  {
    Begins(steps, n, begun) && log == begun + Logged(steps, targets, n, s)
  }

  /** What the first n steps have made of the logs. */
  ghost predicate Journal(steps: seq<Step>, n: nat, targets: seq<Session?>, begun: map<Session, seq<Entry>>,
                          logs: map<Session, seq<Entry>>)
    requires n <= |steps|
  {
    && |targets| == n && begun.Keys == logs.Keys
    && (forall i :: 0 <= i < n ==> TargetOk(steps, i, targets[i]) && (targets[i] == null || targets[i] in logs))
    && (forall s :: s in logs ==> LogOk(steps, n, targets, s, begun[s], logs[s]))
  }

  lemma BeginsLater(steps: seq<Step>, n: nat, logs: seq<Entry>)
    requires n < |steps| && Begins(steps, n, logs)
    ensures Begins(steps, n + 1, logs)
  {
  }

  lemma BeginsNow(steps: seq<Step>, n: nat)
    requires n < |steps|
    ensures Begins(steps, n + 1, if steps[n].ClientSubscribes? && steps[n].file.File? then steps[n].file.logs else [])
  {
  }

  lemma LogGrows(steps: seq<Step>, n: nat, targets: seq<Session?>, target: Session?, s: Session,
                 begun: seq<Entry>, log: seq<Entry>)
    requires n < |steps| && |targets| == n && (target == s ==> steps[n].JobLogs?)
    requires LogOk(steps, n, targets, s, begun, log)
    ensures LogOk(steps, n + 1, targets + [target], s, begun, if s == target then log + [steps[n].entry] else log)
  {
    LoggedBefore(steps, targets, target, n, s);
    BeginsLater(steps, n, begun);
  }

  lemma LogIsNew(steps: seq<Step>, n: nat, targets: seq<Session?>, target: Session?, s: Session, begun: seq<Entry>)
    requires n < |steps| && |targets| == n && target != s && forall i :: 0 <= i < n ==> targets[i] != s
    requires begun == if steps[n].ClientSubscribes? && steps[n].file.File? then steps[n].file.logs else []
    ensures LogOk(steps, n + 1, targets + [target], s, begun, begun)
  {
    LoggedBefore(steps, targets, target, n, s);
    BeginsNow(steps, n);
    assert begun + [] == begun;
  }

  /** The log of the session that a job connection logs to grows by its entry. */
  function Extended(log: seq<Entry>, step: Step): seq<Entry> {
    if step.JobLogs? then log + [step.entry] else log
  }

  /** The log that a session starts with. */
  function Initial(step: Step): seq<Entry> {
    if step.ClientSubscribes? && step.file.File? then step.file.logs else []
  }

  /** One step: the target has logged one more entry, and new sessions begin. */
  ghost predicate LogsStep(step: Step, target: Session?, logs: map<Session, seq<Entry>>,
                           logs': map<Session, seq<Entry>>)
  {
    && logs.Keys <= logs'.Keys && (target != null ==> step.JobLogs? && target in logs)
    && (forall s :: s in logs ==> logs'[s] == if s == target then Extended(logs[s], step) else logs[s])
    && (forall s :: s in logs' && s !in logs ==> logs'[s] == Initial(step))
  }

  lemma JournalStep(steps: seq<Step>, n: nat, targets: seq<Session?>, begun: map<Session, seq<Entry>>,
                    logs: map<Session, seq<Entry>>, target: Session?, logs': map<Session, seq<Entry>>)
    requires n < |steps| && Journal(steps, n, targets, begun, logs) && TargetOk(steps, n, target)
    requires LogsStep(steps[n], target, logs, logs')
    ensures begun.Keys == logs.Keys && Journal(steps, n + 1, targets + [target], Grown(begun, logs, logs'), logs')
  {
    hide LogOk, TargetOk;
    assert logs.Keys <= logs'.Keys && (target != null ==> target in logs);
    hide LogsStep;
    forall s | s in logs'
      ensures LogOk(steps, n + 1, targets + [target], s, Grown(begun, logs, logs')[s], logs'[s])
    {
      LogStep(steps, n, targets, begun, logs, target, logs', s);
    }
  }

  lemma LogStep(steps: seq<Step>, n: nat, targets: seq<Session?>, begun: map<Session, seq<Entry>>,
                logs: map<Session, seq<Entry>>, target: Session?, logs': map<Session, seq<Entry>>, s: Session)
    requires n < |steps| && Journal(steps, n, targets, begun, logs) && s in logs'
    requires LogsStep(steps[n], target, logs, logs')
    ensures LogOk(steps, n + 1, targets + [target], s, Grown(begun, logs, logs')[s], logs'[s])
  {
    hide LogOk, TargetOk;
    if s in logs {
      LogGrows(steps, n, targets, target, s, begun[s], logs[s]);
    } else {
      LogIsNew(steps, n, targets, target, s, logs'[s]);
    }
  }

  /** A connection is known while it is connected, under the session it reported last. */
  ghost predicate Connected(steps: seq<Step>, n: nat, connections: map<nat, Session>)
    requires n <= |steps|
  {
    forall c: nat ::
      && (c in connections <==> LastReport(steps, n, c).Some?)
      && (c in connections ==> connections[c].id == LastReport(steps, n, c).value)
  }

  ghost function LogsOf(all: set<Session>): map<Session, seq<Entry>>
    reads all`receivedLogs
  {
    map s | s in all :: s.receivedLogs
  }

  // ----- What subscribers are told of the end -----

  ghost function StatesOf(all: set<Session>): map<Session, SessionState>
    reads all`state
  {
    map s | s in all :: s.state
  }

  /** How one step may change the state of a session. */
  ghost predicate Changes(step: Step, s: Session, before: SessionState, after: SessionState) {
    || after == before
    || (!s.offline && step.JobReports? && step.id == s.id && after == InProgress)
    || (!s.offline && step == JobEnds(s.id) && after == Finished)
    || (!s.offline && step == TimerRuns(s.id, false, true) && before == Pending && after == NeverEstablished)
  }

  ghost predicate StatesStep(step: Step, before: map<Session, SessionState>, after: map<Session, SessionState>) {
    && before.Keys <= after.Keys
    && (forall s :: s in before ==> Changes(step, s, before[s], after[s]))
    && (forall s :: s in after && s !in before ==>
          Changes(step, s, Pending, after[s]) && after[s] in {Pending, InProgress})
  }

  /** Messages that came now, while the session is in this state. */
  ghost predicate NewsOk(offline: bool, state: SessionState, before: seq<Message>, sent: seq<Message>) {
    && before <= sent
    && (forall i :: |before| <= i < |sent| && sent[i] == Closed ==> offline || state == Finished)
    && (forall i :: |before| <= i < |sent| && sent[i] == NotEstablished ==> !offline && state == NeverEstablished)
  }

  /** The session was in this state after k of the steps. */
  ghost predicate WasAt(states: seq<map<Session, SessionState>>, k: nat, s: Session, state: SessionState) {
    k < |states| && s in states[k] && states[k][s] == state
  }

  /** An end was only told that had come. */
  ghost predicate ToldOk(states: seq<map<Session, SessionState>>, s: Session, sent: seq<Message>) {
    && (Closed in sent ==> s.offline || exists k: nat :: WasAt(states, k, s, Finished))
    && (NotEstablished in sent ==> !s.offline && exists k: nat :: WasAt(states, k, s, NeverEstablished))
  }

  lemma GreetingNews(s: Session)
    ensures NewsOk(s.offline, s.state, [], s.Greeting())
  {
  }

  lemma NoNews(offline: bool, state: SessionState, sent: seq<Message>)
    ensures NewsOk(offline, state, sent, sent)
    ensures forall entry :: NewsOk(offline, state, sent, sent + [Log(entry)])
    ensures offline || state == Finished ==> NewsOk(offline, state, sent, sent + [Closed])
    ensures !offline && state == NeverEstablished ==> NewsOk(offline, state, sent, sent + [NotEstablished])
  {
  }

  lemma ToldStep(states: seq<map<Session, SessionState>>, now: map<Session, SessionState>, s: Session,
                 before: seq<Message>, sent: seq<Message>)
    requires s in now && NewsOk(s.offline, now[s], before, sent)
    requires before == [] || ToldOk(states, s, before)
    ensures ToldOk(states + [now], s, sent)
  {
    var all := states + [now];
    forall k: nat, state | WasAt(states, k, s, state)
      ensures WasAt(all, k, s, state)
    {
    }
    assert WasAt(all, |states|, s, now[s]);
    forall m | m in sent && m !in before
      ensures exists i :: |before| <= i < |sent| && sent[i] == m
    {
      var i :| 0 <= i < |sent| && sent[i] == m;
      assert forall j :: 0 <= j < |before| ==> sent[j] == before[j] && before[j] in before;
    }
  }

  /** A session that was finished, or given up, was so by such a step. */
  lemma {:induction false} ReachedBy(steps: seq<Step>, states: seq<map<Session, SessionState>>, k: nat, s: Session)
    requires |states| == |steps| + 1 && k < |states| && s in states[k] && states[0] == map[]
    requires forall i :: 0 <= i < |steps| ==> StatesStep(steps[i], states[i], states[i + 1])
    ensures states[k][s] == Finished ==> JobEnds(s.id) in steps
    ensures states[k][s] == NeverEstablished ==> TimerRuns(s.id, false, true) in steps
  {
    if k > 0 {
      assert StatesStep(steps[k - 1], states[k - 1], states[k]);
      assert steps[k - 1] in steps;
      if s in states[k - 1] {
        ReachedBy(steps, states, k - 1, s);
      }
    }
  }

  lemma ToldBySteps(steps: seq<Step>, states: seq<map<Session, SessionState>>, s: Session, sent: seq<Message>)
    requires |states| == |steps| + 1 && states[0] == map[] && ToldOk(states, s, sent)
    requires forall i :: 0 <= i < |steps| ==> StatesStep(steps[i], states[i], states[i + 1])
    ensures Closed in sent ==> s.offline || JobEnds(s.id) in steps
    ensures NotEstablished in sent ==> !s.offline && TimerRuns(s.id, false, true) in steps
  {
    if k: nat :| WasAt(states, k, s, Finished) {
      ReachedBy(steps, states, k, s);
    }
    if k: nat :| WasAt(states, k, s, NeverEstablished) {
      ReachedBy(steps, states, k, s);
    }
  }

  /** What one step does to logs, states and clients. */
  twostate predicate Performed(m: SessionManager, new step: Step, new target: Session?)
    reads m, m.all, m.clients
  {
    && LogsStep(step, target, old(LogsOf(m.all)), LogsOf(m.all))
    && StatesStep(step, old(StatesOf(m.all)), StatesOf(m.all))
    && forall x :: x in m.clients ==>
         && x.source != null && x.source in m.all
         && NewsOk(x.source.offline, x.source.state, if x in old(m.clients) then old(x.sent) else [], x.sent)
         && (x in old(m.clients) ==> x.source == old(x.source))
  }

  /** The same, one session at a time, where no entry is logged. */
  twostate lemma EachSession(m: SessionManager, new step: Step)
    requires old(m.all) <= m.all
    requires forall s :: s in old(m.all) ==>
      s.receivedLogs == old(s.receivedLogs) && Changes(step, s, old(s.state), s.state)
    requires forall s :: s in m.all && s !in old(m.all) ==>
      s.receivedLogs == Initial(step) && Changes(step, s, Pending, s.state) && s.state in {Pending, InProgress}
    ensures LogsStep(step, null, old(LogsOf(m.all)), LogsOf(m.all))
    ensures StatesStep(step, old(StatesOf(m.all)), StatesOf(m.all))
  {
    hide Changes, Initial;
  }

  method ReportJob(m: SessionManager, c: nat, id: string)
    requires m.Valid()
    modifies m, m.all, m.clients
    ensures m.Valid() && old(m.all) <= m.all && fresh(m.all - old(m.all)) && m.clients == old(m.clients)
    ensures Performed(m, JobReports(c, id), null)
    ensures c in m.connections && m.connections[c].id == id
    ensures m.connections == old(m.connections)[c := m.connections[c]]
  {
    hide SessionManager.Sound, NewsOk, LogsStep, StatesStep;
    m.ClientsHeld();
    var s := m.Authenticate(c, id);
    EachSession(m, JobReports(c, id));
    KeptNews(m);
  }

  twostate lemma KeptNews(m: SessionManager)
    requires old(m.Valid()) && m.Valid() && m.clients == old(m.clients) && old(m.all) <= m.all
    requires forall x :: x in m.clients ==> x.sent == old(x.sent) && x.source == old(x.source)
    ensures forall x :: x in m.clients ==>
      && x.source != null && x.source in m.all && x.source == old(x.source)
      && NewsOk(x.source.offline, x.source.state, old(x.sent), x.sent)
  {
    hide SessionManager.Sound, NewsOk;
    m.ClientsHeld();
    forall x | x in m.clients
      ensures NewsOk(x.source.offline, x.source.state, old(x.sent), x.sent)
    {
      NoNews(x.source.offline, x.source.state, x.sent);
    }
  }

  method LogJob(m: SessionManager, c: nat, entry: Entry) returns (ghost target: Session?)
    requires m.Valid()
    modifies m, m.all, m.clients
    ensures m.Valid() && m.all == old(m.all) && m.clients == old(m.clients) && m.connections == old(m.connections)
    ensures target == if c in old(m.connections) then old(m.connections)[c] else null
    ensures Performed(m, JobLogs(c, entry), target)
  {
    hide SessionManager.Sound, NewsOk;
    m.ConnectionsHeld();
    m.ClientsHeld();
    target := null;
    if c in m.connections {
      target := m.connections[c];
      m.JobLog(c, entry);
    }
    forall x | x in m.clients
      ensures NewsOk(x.source.offline, x.source.state, old(x.sent), x.sent)
    {
      NoNews(x.source.offline, x.source.state, old(x.sent));
    }
  }

  method EndJob(m: SessionManager, id: string)
    requires m.Valid()
    modifies m, m.all, m.clients
    ensures m.Valid() && m.all == old(m.all) && m.clients == old(m.clients) && m.connections == old(m.connections)
    ensures Performed(m, JobEnds(id), null)
  {
    m.ClientsHeld();
    m.IdsHeld();
    hide SessionManager.Sound, Session.Listeners, NewsOk, Extended, Initial, LogsStep, StatesStep;
    m.FinishSession(id);
    EachSession(m, JobEnds(id));
    forall x | x in m.clients
      ensures NewsOk(x.source.offline, x.source.state, old(x.sent), x.sent)
    {
      NoNews(x.source.offline, x.source.state, old(x.sent));
    }
  }

  method RunTimer(m: SessionManager, id: string, aborted: bool, expired: bool)
    requires m.Valid()
    modifies m, m.all, m.clients
    ensures m.Valid() && m.all == old(m.all) && m.clients == old(m.clients) && m.connections == old(m.connections)
    ensures Performed(m, TimerRuns(id, aborted, expired), null)
  {
    m.ClientsHeld();
    m.IdsHeld();
    hide SessionManager.Sound, Session.Listeners, NewsOk, Extended, Initial, LogsStep, StatesStep;
    if id in m.sessions && TimerHandler in m.sessions[id].owners {
      m.TimerFires(m.sessions[id], aborted, expired);
    }
    EachSession(m, TimerRuns(id, aborted, expired));
    forall x | x in m.clients
      ensures NewsOk(x.source.offline, x.source.state, old(x.sent), x.sent)
    {
      NoNews(x.source.offline, x.source.state, old(x.sent));
    }
  }

  method SubscribeClient(m: SessionManager, id: string, key: nat, file: CombinedLog)
    requires m.Valid()
    modifies m, m.all, m.clients
    ensures m.Valid() && old(m.all) <= m.all && fresh(m.all - old(m.all)) && fresh(m.clients - old(m.clients))
    ensures m.connections == old(m.connections) && Performed(m, ClientSubscribes(id, key, file), null)
  {
    hide SessionManager.Sound, NewsOk, Session.Greeting, Transcript, LogsStep, StatesStep;
    m.ClientsHeld();
    var y := new Subscriber();
    m.Subscribe(id, key, y, file);
    EachSession(m, ClientSubscribes(id, key, file));
    m.ClientsHeld();
    GreetingNews(y.source);
    forall x | x in old(m.clients)
      ensures NewsOk(x.source.offline, x.source.state, old(x.sent), x.sent)
    {
      NoNews(x.source.offline, x.source.state, x.sent);
    }
  }

  /** Connections and clients that go leave logs, states and messages alone. */
  method Leave(m: SessionManager, step: Step)
    requires m.Valid() && (step.JobGoes? || step.ClientUnsubscribes? || step.ClientGoes?)
    modifies m, m.all, m.clients
    ensures m.Valid() && m.all == old(m.all) && m.clients == old(m.clients) && Performed(m, step, null)
    ensures m.connections == if step.JobGoes? then old(m.connections) - {step.c} else old(m.connections)
  {
    hide SessionManager.Sound, NewsOk;
    m.ClientsHeld();
    if step.JobGoes? {
      m.JobGone(step.c);
    } else if step.ClientUnsubscribes? {
      m.Unsubscribe(step.id, step.key);
    } else if m.clients != {} {
      var x :| x in m.clients;
      m.ClientGone(x);
    }
    KeptNews(m);
  }

  method Perform(m: SessionManager, step: Step) returns (ghost target: Session?)
    requires m.Valid()
    modifies m, m.all, m.clients
    ensures m.Valid() && old(m.all) <= m.all && fresh(m.all - old(m.all)) && fresh(m.clients - old(m.clients))
    ensures target == if step.JobLogs? && step.c in old(m.connections) then old(m.connections)[step.c] else null
    ensures Performed(m, step, target)
    ensures step.JobReports? ==> step.c in m.connections && m.connections[step.c].id == step.id
    ensures m.connections == match step
      case JobReports(c, _) => old(m.connections)[c := m.connections[c]]
      case JobGoes(c) => old(m.connections) - {c}
      case _ => old(m.connections)
  {
    hide SessionManager.Valid, NewsOk, LogsStep, StatesStep;
    target := null;
    match step {
      case JobReports(c, id) => ReportJob(m, c, id);
      case JobLogs(c, entry) => target := LogJob(m, c, entry);
      case JobEnds(id) => EndJob(m, id);
      case TimerRuns(id, aborted, expired) => RunTimer(m, id, aborted, expired);
      case ClientSubscribes(id, key, file) => SubscribeClient(m, id, key, file);
      case _ => Leave(m, step);
    }
  }

  ghost function Grown(begun: map<Session, seq<Entry>>, before: map<Session, seq<Entry>>,
                       after: map<Session, seq<Entry>>): map<Session, seq<Entry>>
    requires begun.Keys == before.Keys
  {
    map s | s in after :: if s in before then begun[s] else after[s]
  }

  lemma NothingYet(steps: seq<Step>)
    ensures Connected(steps, 0, map[]) && Journal(steps, 0, [], map[], map[])
  {
  }

  lemma JournalSays(steps: seq<Step>, targets: seq<Session?>, begun: map<Session, seq<Entry>>,
                    logs: map<Session, seq<Entry>>)
    requires Journal(steps, |steps|, targets, begun, logs)
    ensures |targets| == |steps| && begun.Keys == logs.Keys
    ensures forall i :: 0 <= i < |steps| ==> TargetOk(steps, i, targets[i])
    ensures forall s :: s in logs ==>
      Begins(steps, |steps|, begun[s]) && logs[s] == begun[s] + Logged(steps, targets, |steps|, s)
  {
  }

  lemma TargetIs(steps: seq<Step>, n: nat, connections: map<nat, Session>, target: Session?)
    requires n < |steps| && Connected(steps, n, connections)
    requires target ==
      if steps[n].JobLogs? && steps[n].c in connections then connections[steps[n].c] else null
    ensures TargetOk(steps, n, target)
  {
  }

  lemma ConnectedStep(steps: seq<Step>, n: nat, before: map<nat, Session>, after: map<nat, Session>)
    requires n < |steps| && Connected(steps, n, before)
    requires steps[n].JobReports? ==> steps[n].c in after && after[steps[n].c].id == steps[n].id
    requires after == match steps[n]
      case JobReports(c, _) => before[c := after[c]]
      case JobGoes(c) => before - {c}
      case _ => before
    ensures Connected(steps, n + 1, after)
  {
  }

  /** Every run keeps the registry, the ownership and the delivery right. Each session has
      logged what it began with and exactly the entries that came from job connections
      while they held it, and these had last reported in under its id. A client was told
      of an end only if its session had come to that end, and of its closing only after
      the job ended or from a file. */
  method RunAll(steps: seq<Step>)
    returns (m: SessionManager, ghost targets: seq<Session?>, ghost begun: map<Session, seq<Entry>>,
             ghost states: seq<map<Session, SessionState>>)
    ensures m.Valid()
    ensures forall c, x :: c in m.connections && x in m.clients && x.session != null && m.connections[c].id == x.session.id ==>
      m.connections[c] == x.session
    ensures forall s, k :: s in m.all && k in s.subscribers && s.subscribers[k].alive ==>
      && Entries(s.subscribers[k].sent) == s.receivedLogs
      && (s.offline || s.state == Finished ==> Closed in s.subscribers[k].sent)
      && (!s.offline && s.state == NeverEstablished ==> NotEstablished in s.subscribers[k].sent)
    ensures forall x :: x in m.clients ==> x.source != null && Entries(x.sent) <= x.source.receivedLogs
    ensures |targets| == |steps| && begun.Keys == m.all
    ensures forall s :: s in m.all ==>
      Begins(steps, |steps|, begun[s]) && s.receivedLogs == begun[s] + Logged(steps, targets, |steps|, s)
    ensures forall i :: 0 <= i < |steps| ==> TargetOk(steps, i, targets[i])
    ensures |states| == |steps| + 1 && states[|steps|] == StatesOf(m.all)
    ensures forall i :: 0 <= i < |steps| ==> StatesStep(steps[i], states[i], states[i + 1])
    ensures forall x :: x in m.clients ==> ToldOk(states, x.source, x.sent)
    ensures forall x :: x in m.clients && Closed in x.sent ==>
      x.source.offline || JobEnds(x.source.id) in steps
    ensures forall x :: x in m.clients && NotEstablished in x.sent ==>
      !x.source.offline && TimerRuns(x.source.id, false, true) in steps
  {
    hide SessionManager.Valid, Connected, Journal, LogsStep, Begins, Logged, TargetOk, Entries, LastReport;
    hide StatesStep, NewsOk, ToldOk;
    m := new SessionManager();
    targets, begun, states := [], map[], [map[]];
    ghost var logs: map<Session, seq<Entry>> := map[];
    NothingYet(steps);
    for i := 0 to |steps|
      invariant m.Valid() && fresh(m) && fresh(m.all) && fresh(m.clients)
      invariant Connected(steps, i, m.connections)
      invariant Journal(steps, i, targets, begun, logs)
      invariant logs == LogsOf(m.all)
      invariant |states| == i + 1 && states[0] == map[] && states[i] == StatesOf(m.all)
      invariant forall k :: 0 <= k < i ==> StatesStep(steps[k], states[k], states[k + 1])
      invariant forall x :: x in m.clients ==> x.source != null && x.source in m.all && ToldOk(states, x.source, x.sent)
    {
      ghost var connections, before := m.connections, logs;
      label start:
      ghost var target := Perform(m, steps[i]);
      ghost var now := StatesOf(m.all);
      forall x | x in m.clients
        ensures ToldOk(states + [now], x.source, x.sent)
      {
        ToldStep(states, now, x.source, if x in old@start(m.clients) then old@start(x.sent) else [], x.sent);
      }
      states := states + [now];
      logs := LogsOf(m.all);
      TargetIs(steps, i, connections, target);
      ConnectedStep(steps, i, connections, m.connections);
      JournalStep(steps, i, targets, begun, before, target, logs);
      targets := targets + [target];
      begun := Grown(begun, before, logs);
    }
    forall x | x in m.clients
      ensures Closed in x.sent ==> x.source.offline || JobEnds(x.source.id) in steps
      ensures NotEstablished in x.sent ==> !x.source.offline && TimerRuns(x.source.id, false, true) in steps
    {
      ToldBySteps(steps, states, x.source, x.sent);
    }
    JournalSays(steps, targets, begun, logs);
    m.Promises();
  }
}
