// Runs of the account operations, seen from outside: what an answer is follows from the
// requests and answers before it, and from the time that has passed.

module AccountTraces {

  import opened AccountRuns
  import opened AuthTokens
  import opened RightsManagement
  import opened Wrappers

  // ----- What happened last -----

  /** A request that was carried out. */
  predicate DoneAt(requests: seq<Request>, replies: seq<Reply>, i: nat) {
    i < |requests| && i < |replies| && replies[i] == Done(true)
  }

  /** Step i set the password of the user, and up to step n it was neither changed nor the
    * user deleted. */
  ghost predicate PassSet(requests: seq<Request>, replies: seq<Reply>, i: nat, n: nat, email: string, pass: string) {
    && i < n <= |requests| && DoneAt(requests, replies, i) && GivesPass(requests[i], email)
    && requests[i].pass == pass
    && forall j: nat :: i < j < n && DoneAt(requests, replies, j) ==>
         !GivesPass(requests[j], email) && requests[j] != NoUser(email)
  }

  predicate GivesPass(request: Request, email: string) {
    (request.NewUser? || request.NewPass?) && request.email == email
  }

  /** Step i made the user an admin, and nothing took it back up to step n. */
  ghost predicate AdminSet(requests: seq<Request>, replies: seq<Reply>, i: nat, n: nat, email: string) {
    && i < n <= |requests| && DoneAt(requests, replies, i)
    && GivesAdmin(requests[i], email)
    && forall j: nat :: i < j < n && DoneAt(requests, replies, j) ==>
         requests[j] != SetAdmin(email, false) && requests[j] != NoUser(email)
  }

  predicate GivesAdmin(request: Request, email: string) {
    (request.NewUser? && request.email == email && request.admin) || request == SetAdmin(email, true)
  }

  /** Step i granted these rights, and up to step n there was no other grant for the pair
    * and the user was not deleted. */
  ghost predicate RightsSet(requests: seq<Request>, replies: seq<Reply>, i: nat, n: nat, email: string, name: string,
                            r: Rights)
  {
    && i < n <= |requests| && DoneAt(requests, replies, i) && requests[i] == SetRights(email, name, r)
    && forall j: nat :: i < j < n && DoneAt(requests, replies, j) ==>
         !GivesRights(requests[j], email, name) && requests[j] != NoUser(email)
  }

  predicate GivesRights(request: Request, email: string, name: string) {
    request.SetRights? && request.email == email && request.name == name
  }

  /** Step i issued the token to the user, and up to step n it was not revoked or issued
    * again and the user was not deleted. */
  ghost predicate TokenSet(requests: seq<Request>, replies: seq<Reply>, i: nat, n: nat, token: string, email: string) {
    && i < n <= |requests| && n <= |replies| && GivesToken(requests[i], replies[i], token) && requests[i].email == email
    && forall j: nat :: i < j < n ==>
         && requests[j] != LogOut(token) && !GivesToken(requests[j], replies[j], token)
         && !(requests[j] == NoUser(email) && replies[j] == Done(true))
  }

  predicate GivesToken(request: Request, reply: Reply, token: string) {
    request.LogIn? && reply == Maybe(Some(token))
  }

  // ----- The same in the model -----

  datatype Trace = Trace(requests: seq<Request>, replies: seq<Reply>, times: seq<nat>, models: seq<Model>)

  /** A run: every step is explained by the model, from an empty one on. */
  ghost predicate Explained(tr: Trace) {
    && |tr.replies| == |tr.requests| && |tr.models| == |tr.times| == |tr.requests| + 1
    && tr.models[0] == Model([], {}, {}, map[]) && tr.times[0] == 0
    && forall k :: 0 <= k < |tr.requests| ==> StepOf(tr, k)
  }

  ghost predicate StepOf(tr: Trace, k: nat)
    requires k < |tr.requests| == |tr.replies| && |tr.models| == |tr.times| == |tr.requests| + 1
  {
    && Explains(tr.models[k], tr.times[k + 1], tr.requests[k], tr.replies[k])
    && tr.models[k + 1] == Next(tr.models[k], tr.times[k + 1], tr.requests[k], tr.replies[k])
  }

  lemma PassStepped(m: Model, now: int, request: Request, reply: Reply, email: string)
    requires Explains(m, now, request, reply)
    ensures Pass(Next(m, now, request, reply).history, email) ==
      if reply == Done(true) && GivesPass(request, email) then Some(request.pass)
      else if reply == Done(true) && request == NoUser(email) then None
      else Pass(m.history, email)
  {
    hide Pass, Holder, Answer, ViewsOk;
    match request
    case NewUser(e, p, _) => HistorySnoc(m.history, Added(e, p));
    case NoUser(e) => HistorySnoc(m.history, Deleted(e));
    case NewPass(e, p) => HistorySnoc(m.history, PassChanged(e, p));
    case LogIn(e, _) =>
      if reply.text.Some? {
        HistorySnoc(m.history, Issued(reply.text.value, e, now + 604800));
      }
    case LogOut(t) => HistorySnoc(m.history, Revoked(t));
    case _ =>
  }

  lemma {:induction false} PassIs(tr: Trace, n: nat, email: string, pass: string)
    requires Explained(tr) && n <= |tr.requests|
    ensures Pass(tr.models[n].history, email) == Some(pass) <==>
      exists i: nat :: PassSet(tr.requests, tr.replies, i, n, email, pass)
  {
    if n > 0 {
      var k: nat := n - 1;
      PassIs(tr, k, email, pass);
      assert StepOf(tr, k);
      PassStepped(tr.models[k], tr.times[n], tr.requests[k], tr.replies[k], email);
      hide Pass, Explains, Next, StepOf;
      if i: nat :| PassSet(tr.requests, tr.replies, i, k, email, pass) {
        assert PassSet(tr.requests, tr.replies, i, n, email, pass) ||
          (tr.replies[k] == Done(true) && (GivesPass(tr.requests[k], email) || tr.requests[k] == NoUser(email)));
      }
      if DoneAt(tr.requests, tr.replies, k) && GivesPass(tr.requests[k], email) && tr.requests[k].pass == pass {
        assert PassSet(tr.requests, tr.replies, k, n, email, pass);
      }
      forall i: nat | PassSet(tr.requests, tr.replies, i, n, email, pass) && i < k
        ensures PassSet(tr.requests, tr.replies, i, k, email, pass)
      {
      }
    }
  }

  lemma AdminStepped(m: Model, now: int, request: Request, reply: Reply, email: string)
    requires Explains(m, now, request, reply)
    ensures email in Next(m, now, request, reply).admins <==>
      || (reply == Done(true) && GivesAdmin(request, email))
      || (email in m.admins && !(reply == Done(true) && request in {SetAdmin(email, false), NoUser(email)}))
  {
    hide Pass, Answer, ViewsOk;
  }

  lemma {:induction false} AdminIs(tr: Trace, n: nat, email: string)
    requires Explained(tr) && n <= |tr.requests|
    ensures email in tr.models[n].admins <==>
      exists i: nat :: AdminSet(tr.requests, tr.replies, i, n, email)
  {
    if n > 0 {
      var k: nat := n - 1;
      AdminIs(tr, k, email);
      assert StepOf(tr, k);
      AdminStepped(tr.models[k], tr.times[n], tr.requests[k], tr.replies[k], email);
      hide Explains, Next, StepOf;
      if i: nat :| AdminSet(tr.requests, tr.replies, i, k, email) {
        assert AdminSet(tr.requests, tr.replies, i, n, email) ||
          (tr.replies[k] == Done(true) && tr.requests[k] in {SetAdmin(email, false), NoUser(email)});
      }
      if DoneAt(tr.requests, tr.replies, k) && GivesAdmin(tr.requests[k], email) {
        assert AdminSet(tr.requests, tr.replies, k, n, email);
      }
      forall i: nat | AdminSet(tr.requests, tr.replies, i, n, email) && i < k
        ensures AdminSet(tr.requests, tr.replies, i, k, email)
      {
      }
    }
  }

  lemma RightsStepped(m: Model, now: int, request: Request, reply: Reply, email: string, name: string, r: Rights)
    requires Explains(m, now, request, reply)
    ensures var m' := Next(m, now, request, reply); var key := (email, name);
      (key in m'.granted && m'.granted[key] == r) <==>
        if reply == Done(true) && GivesRights(request, email, name) then request.rights == r
        else key in m.granted && m.granted[key] == r && !(reply == Done(true) && request == NoUser(email))
  {
    hide Pass, Answer, ViewsOk;
  }

  lemma {:induction false} RightsAre(tr: Trace, n: nat, email: string, name: string, r: Rights)
    requires Explained(tr) && n <= |tr.requests|
    ensures (email, name) in tr.models[n].granted && tr.models[n].granted[(email, name)] == r <==>
      exists i: nat :: RightsSet(tr.requests, tr.replies, i, n, email, name, r)
  {
    if n > 0 {
      var k: nat := n - 1;
      RightsAre(tr, k, email, name, r);
      assert StepOf(tr, k);
      RightsStepped(tr.models[k], tr.times[n], tr.requests[k], tr.replies[k], email, name, r);
      hide Explains, Next, StepOf;
      if i: nat :| RightsSet(tr.requests, tr.replies, i, k, email, name, r) {
        assert RightsSet(tr.requests, tr.replies, i, n, email, name, r) ||
          (tr.replies[k] == Done(true) && (GivesRights(tr.requests[k], email, name) || tr.requests[k] == NoUser(email)));
      }
      if DoneAt(tr.requests, tr.replies, k) && tr.requests[k] == SetRights(email, name, r) {
        assert RightsSet(tr.requests, tr.replies, k, n, email, name, r);
      }
      forall i: nat | RightsSet(tr.requests, tr.replies, i, n, email, name, r) && i < k
        ensures RightsSet(tr.requests, tr.replies, i, k, email, name, r)
      {
      }
    }
  }

  lemma {:induction false} ProjectIs(tr: Trace, n: nat, name: string)
    requires Explained(tr) && n <= |tr.requests|
    ensures name in tr.models[n].projects <==> NewProject(name) in tr.requests[..n]
  {
    if n > 0 {
      ProjectIs(tr, n - 1, name);
      assert StepOf(tr, n - 1);
      assert tr.requests[..n] == tr.requests[..n - 1] + [tr.requests[n - 1]];
    }
  }

  lemma HolderStepped(m: Model, now: int, request: Request, reply: Reply, token: string)
    requires Explains(m, now, request, reply)
    ensures Holder(Next(m, now, request, reply).history, token) ==
      var before := Holder(m.history, token);
      if GivesToken(request, reply, token) then Some(Grant(request.email, now + 604800))
      else if request == LogOut(token) then None
      else if reply == Done(true) && before.Some? && request == NoUser(before.value.email) then None
      else before
  {
    hide Pass, Holder, Answer, ViewsOk;
    match request
    case NewUser(e, p, _) => HistorySnoc(m.history, Added(e, p));
    case NoUser(e) => HistorySnoc(m.history, Deleted(e));
    case NewPass(e, p) => HistorySnoc(m.history, PassChanged(e, p));
    case LogIn(e, _) =>
      if reply.text.Some? {
        HistorySnoc(m.history, Issued(reply.text.value, e, now + 604800));
      }
    case LogOut(t) => HistorySnoc(m.history, Revoked(t));
    case _ =>
  }

  predicate Undone(request: Request, reply: Reply, token: string, email: string) {
    request == LogOut(token) || GivesToken(request, reply, token) || (request == NoUser(email) && reply == Done(true))
  }

  lemma TokenLater(requests: seq<Request>, replies: seq<Reply>, i: nat, k: nat, token: string, email: string)
    requires k < |requests| == |replies|
    ensures TokenSet(requests, replies, i, k + 1, token, email) <==>
      || (i == k && GivesToken(requests[k], replies[k], token) && requests[k].email == email)
      || (TokenSet(requests, replies, i, k, token, email) && !Undone(requests[k], replies[k], token, email))
  {
  }

  lemma {:induction false} HolderIs(tr: Trace, n: nat, token: string, grant: Grant)
    requires Explained(tr) && n <= |tr.requests|
    ensures Holder(tr.models[n].history, token) == Some(grant) <==>
      exists i: nat ::
        TokenSet(tr.requests, tr.replies, i, n, token, grant.email) && grant.expires == tr.times[i + 1] + 604800
  {
    if n > 0 {
      var k: nat := n - 1;
      HolderIs(tr, k, token, grant);
      assert StepOf(tr, k);
      HolderStepped(tr.models[k], tr.times[n], tr.requests[k], tr.replies[k], token);
      hide Holder, Explains, Next, StepOf;
      forall i: nat
        ensures TokenSet(tr.requests, tr.replies, i, n, token, grant.email) <==>
          || (i == k && GivesToken(tr.requests[k], tr.replies[k], token) && tr.requests[k].email == grant.email)
          || (TokenSet(tr.requests, tr.replies, i, k, token, grant.email) &&
              !Undone(tr.requests[k], tr.replies[k], token, grant.email))
      {
        TokenLater(tr.requests, tr.replies, i, k, token, grant.email);
      }
      assert forall i: nat :: TokenSet(tr.requests, tr.replies, i, k, token, grant.email) ==> i < k;
      hide TokenSet, Explained;
      if i: nat :| TokenSet(tr.requests, tr.replies, i, k, token, grant.email) && grant.expires == tr.times[i + 1] + 604800 {
        assert TokenSet(tr.requests, tr.replies, i, n, token, grant.email) ||
          Undone(tr.requests[k], tr.replies[k], token, grant.email);
      }
      assert GivesToken(tr.requests[k], tr.replies[k], token) && tr.requests[k].email == grant.email ==>
        TokenSet(tr.requests, tr.replies, k, n, token, grant.email);
    }
  }

  // ----- What the answers say -----

  /** A token answers the email it was issued for, for seven days and no longer. */
  lemma TokenTold(tr: Trace, k: nat, token: string, email: string)
    requires Explained(tr) && k < |tr.requests| && tr.requests[k] == WhoIs(token)
    ensures tr.replies[k] == Maybe(Some(email)) <==>
      exists i: nat ::
        TokenSet(tr.requests, tr.replies, i, k, token, email) && tr.times[k + 1] <= tr.times[i + 1] + 604800
    ensures tr.replies[k].Maybe?
  {
    assert StepOf(tr, k);
    var holder := Holder(tr.models[k].history, token);
    if holder.Some? {
      HolderIs(tr, k, token, holder.value);
    }
    forall i: nat | TokenSet(tr.requests, tr.replies, i, k, token, email)
      ensures holder == Some(Grant(email, tr.times[i + 1] + 604800))
    {
      HolderIs(tr, k, token, Grant(email, tr.times[i + 1] + 604800));
    }
  }

  /** A login succeeds with the password last set, and no other. */
  lemma LoginTold(tr: Trace, k: nat)
    requires Explained(tr) && k < |tr.requests| && tr.requests[k].LogIn?
    ensures tr.replies[k].Maybe?
    ensures tr.replies[k].text.Some? <==>
      exists i: nat :: PassSet(tr.requests, tr.replies, i, k, tr.requests[k].email, tr.requests[k].pass)
  {
    assert StepOf(tr, k);
    PassIs(tr, k, tr.requests[k].email, tr.requests[k].pass);
  }

  /** The user is known at this point: its password was set. */
  ghost predicate KnownBy(requests: seq<Request>, replies: seq<Reply>, n: nat, email: string) {
    exists i: nat, pass :: PassSet(requests, replies, i, n, email, pass)
  }

  ghost predicate AdminBy(requests: seq<Request>, replies: seq<Reply>, n: nat, email: string) {
    exists i: nat :: AdminSet(requests, replies, i, n, email)
  }

  lemma KnownIs(tr: Trace, n: nat, email: string)
    requires Explained(tr) && n <= |tr.requests|
    ensures Knows(tr.models[n], email) <==> KnownBy(tr.requests, tr.replies, n, email)
  {
    hide Pass;
    var pass := Pass(tr.models[n].history, email);
    if pass.Some? {
      PassIs(tr, n, email, pass.value);
    }
    if i: nat, p :| PassSet(tr.requests, tr.replies, i, n, email, p) {
      PassIs(tr, n, email, p);
    }
  }

  /** All three queries show these rights; the one for a single pair may show nothing
    * where nothing is allowed. */
  ghost predicate Shows(v: Reply, email: string, name: string, admin: bool, r: Rights) {
    && v.Views?
    && (v.one == Some(r) || (v.one == None && !r.read && !r.write && !r.execute))
    && name in v.projects && v.projects[name] == r
    && email in v.users && v.users[email] == RightsEx(admin, r)
  }

  lemma ShownIs(tr: Trace, k: nat, email: string, name: string)
    requires Explained(tr) && k < |tr.requests| && tr.requests[k] == Show(email, name)
    ensures var m := tr.models[k];
      && tr.replies[k].Views?
      && (Allowed(m, email, name).Some? ==>
            Shows(tr.replies[k], email, name, email in m.admins, Allowed(m, email, name).value))
      && (Allowed(m, email, name).None? ==>
            tr.replies[k].one == None && name !in tr.replies[k].projects && email !in tr.replies[k].users)
  {
    assert StepOf(tr, k);
    hide Allowed;
  }

  /** A known user and a project: an admin is shown everything, others what was granted
    * last, and nothing without a grant. */
  ghost predicate ShowsRights(requests: seq<Request>, replies: seq<Reply>, k: nat, email: string, name: string)
    requires k < |requests| && k < |replies|
  {
    if KnownBy(requests, replies, k, email) && NewProject(name) in requests[..k] then
      if AdminBy(requests, replies, k, email) then Shows(replies[k], email, name, true, Rights(true, true, true))
      else
        && (forall i: nat, r :: RightsSet(requests, replies, i, k, email, name, r) ==>
              Shows(replies[k], email, name, false, r))
        && ((forall i: nat, r :: !RightsSet(requests, replies, i, k, email, name, r)) ==>
              Shows(replies[k], email, name, false, Rights(false, false, false)))
    else
      replies[k].Views? && replies[k].one == None && name !in replies[k].projects && email !in replies[k].users
  }

  lemma RightsTold(tr: Trace, k: nat, email: string, name: string)
    requires Explained(tr) && k < |tr.requests| && tr.requests[k] == Show(email, name)
    ensures ShowsRights(tr.requests, tr.replies, k, email, name)
  {
    ShownIs(tr, k, email, name);
    KnownIs(tr, k, email);
    AdminIs(tr, k, email);
    ProjectIs(tr, k, name);
    var m := tr.models[k];
    if (email, name) in m.granted {
      RightsAre(tr, k, email, name, m.granted[(email, name)]);
    }
    forall i: nat, r | RightsSet(tr.requests, tr.replies, i, k, email, name, r)
      ensures (email, name) in m.granted && m.granted[(email, name)] == r
    {
      RightsAre(tr, k, email, name, r);
    }
    hide Shows, PassSet, AdminSet, RightsSet, Explained;
  }

  /** Whether a request is carried out. */
  ghost predicate Carried(requests: seq<Request>, replies: seq<Reply>, k: nat)
    requires k < |requests| && k < |replies|
  {
    match requests[k]
    case NewUser(e, _, _) => replies[k] == Done(!KnownBy(requests, replies, k, e))
    case NoUser(e) => replies[k] == Done(KnownBy(requests, replies, k, e))
    case NewPass(e, p) => replies[k] == Done(KnownBy(requests, replies, k, e) && p != "")
    case SetAdmin(e, _) => replies[k] == Done(KnownBy(requests, replies, k, e))
    case SetRights(e, name, _) =>
      replies[k] == Done(KnownBy(requests, replies, k, e) && NewProject(name) in requests[..k])
    case _ => true
  }

  lemma CarriedOut(tr: Trace, k: nat)
    requires Explained(tr) && k < |tr.requests|
    ensures Carried(tr.requests, tr.replies, k)
  {
    assert StepOf(tr, k);
    hide KnownBy, Next;
    match tr.requests[k]
    case NewUser(e, _, _) => KnownIs(tr, k, e);
    case NoUser(e) => KnownIs(tr, k, e);
    case NewPass(e, _) => KnownIs(tr, k, e);
    case SetAdmin(e, _) => KnownIs(tr, k, e);
    case SetRights(e, name, _) =>
      KnownIs(tr, k, e);
      ProjectIs(tr, k, name);
    case _ =>
  }

  /** Over every run: tokens, logins and permissions, by what was asked and answered before
    * and by the time in seconds. */
  method ServeAll(requests: seq<Request>, delays: seq<nat>) returns (replies: seq<Reply>, ghost times: seq<nat>)
    requires |delays| == |requests|
    ensures |replies| == |requests| && |times| == |requests| + 1 && times[0] == 0
    ensures forall k :: 0 <= k < |requests| ==> times[k + 1] == times[k] + delays[k]
    ensures forall k: nat, token, email :: k < |requests| && requests[k] == WhoIs(token) ==>
      (replies[k] == Maybe(Some(email)) <==>
        exists i: nat :: TokenSet(requests, replies, i, k, token, email) && times[k + 1] <= times[i + 1] + 604800)
    ensures forall k: nat :: k < |requests| && requests[k].LogIn? ==>
      && replies[k].Maybe?
      && (replies[k].text.Some? <==>
            exists i: nat :: PassSet(requests, replies, i, k, requests[k].email, requests[k].pass))
    ensures forall k: nat, email, name :: k < |requests| && requests[k] == Show(email, name) ==>
      ShowsRights(requests, replies, k, email, name)
    ensures forall k: nat :: k < |requests| ==> Carried(requests, replies, k)
  {
    ghost var models;
    replies, models, times := AccountRuns.RunAll(requests, delays);
    ghost var tr := Trace(requests, replies, times, models);
    forall k | 0 <= k < |requests|
      ensures StepOf(tr, k) && times[k + 1] == times[k] + delays[k]
    {
      assert Turn(models[k], times[k], requests[k], delays[k], replies[k], times[k + 1], models[k + 1]);
    }
    hide StepOf, Turn, TokenSet, PassSet, ShowsRights, Carried;
    forall k: nat, token, email | k < |requests| && requests[k] == WhoIs(token)
      ensures replies[k] == Maybe(Some(email)) <==>
        exists i: nat :: TokenSet(requests, replies, i, k, token, email) && times[k + 1] <= times[i + 1] + 604800
    {
      TokenTold(tr, k, token, email);
    }
    forall k: nat | k < |requests| && requests[k].LogIn?
      ensures replies[k].Maybe?
      ensures replies[k].text.Some? <==>
        exists i: nat :: PassSet(requests, replies, i, k, requests[k].email, requests[k].pass)
    {
      LoginTold(tr, k);
    }
    forall k: nat, email, name | k < |requests| && requests[k] == Show(email, name)
      ensures ShowsRights(requests, replies, k, email, name)
    {
      RightsTold(tr, k, email, name);
    }
    forall k: nat | k < |requests|
      ensures Carried(requests, replies, k)
    {
      CarriedOut(tr, k);
    }
  }
}
