// Users, passwords and tokens: auth_manager.cpp. What it answers is compared with
// the history of what happened, in which nothing is ever collected.

module AuthTokens {

  import opened Database
  import opened Wrappers

  // Seven days, in seconds.
  const LIFETIME: int := 24 * 7 * 3600

  datatype Event =
    | Added(email: string, pass: string)
    | PassChanged(email: string, pass: string)
    | Deleted(email: string)
    | Issued(token: string, email: string, expires: int)
    | Revoked(token: string)

  datatype Grant = Grant(email: string, expires: int)

  function PassStep(before: Option<string>, event: Event, email: string): Option<string> {
    match event
    case Added(e, p) => if e == email then Some(p) else before
    case PassChanged(e, p) => if e == email then Some(p) else before
    case Deleted(e) => if e == email then None else before
    case _ => before
  }

  /** The password of a user, if there is such a user. */
  function Pass(history: seq<Event>, email: string): Option<string> {
    if history == [] then None
    else PassStep(Pass(history[..|history| - 1], email), history[|history| - 1], email)
  }

  function HolderStep(before: Option<Grant>, event: Event, token: string): Option<Grant> {
    match event
    case Issued(t, e, x) => if t == token then Some(Grant(e, x)) else before
    case Revoked(t) => if t == token then None else before
    case Deleted(e) => if before.Some? && before.value.email == e then None else before
    case _ => before
  }

  /** Whom a token stands for and until when, had no expired token ever been dropped. */
  function Holder(history: seq<Event>, token: string): Option<Grant> {
    if history == [] then None
    else HolderStep(Holder(history[..|history| - 1], token), history[|history| - 1], token)
  }

  function Answer(history: seq<Event>, token: string, now: int): Option<string> {
    var holder := Holder(history, token);
    if holder.Some? && holder.value.expires >= now then Some(holder.value.email) else None
  }

  lemma HistorySnoc(history: seq<Event>, event: Event)
    ensures forall e :: Pass(history + [event], e) == PassStep(Pass(history, e), event, e)
    ensures forall t :: Holder(history + [event], t) == HolderStep(Holder(history, t), event, t)
  {
    assert (history + [event])[..|history|] == history;
  }

  /** The token was issued at this point, and nothing undid it since. */
  ghost predicate IssuedAt(history: seq<Event>, i: nat, token: string, grant: Grant) {
    && i < |history| && history[i] == Issued(token, grant.email, grant.expires)
    && (forall j :: i < j < |history| ==>
          && history[j] != Revoked(token) && history[j] != Deleted(grant.email)
          && !(history[j].Issued? && history[j].token == token))
  }

  lemma {:induction false} HolderMeaning(history: seq<Event>, token: string, grant: Grant)
    ensures Holder(history, token) == Some(grant) <==> exists i: nat :: IssuedAt(history, i, token, grant)
  {
    if history != [] {
      var init, last := history[..|history| - 1], history[|history| - 1];
      HolderMeaning(init, token, grant);
      if Holder(history, token) == Some(grant) {
        if last.Issued? && last.token == token {
          assert IssuedAt(history, |history| - 1, token, grant);
        } else {
          var i: nat :| IssuedAt(init, i, token, grant);
          assert IssuedAt(history, i, token, grant);
        }
      }
      forall i: nat | IssuedAt(history, i, token, grant)
        ensures Holder(history, token) == Some(grant)
      {
        if i < |init| {
          assert IssuedAt(init, i, token, grant);
        }
      }
    }
  }

  /** A token yields an email exactly if it was issued for that email, is not expired,
    * and neither it nor the user was deleted since. */
  lemma AnswerMeaning(history: seq<Event>, token: string, now: int, email: string)
    ensures Answer(history, token, now) == Some(email) <==>
            exists i: nat, x :: x >= now && IssuedAt(history, i, token, Grant(email, x))
  {
    var holder := Holder(history, token);
    if holder.Some? {
      HolderMeaning(history, token, holder.value);
    }
    forall i: nat, x | IssuedAt(history, i, token, Grant(email, x))
      ensures holder == Some(Grant(email, x))
    {
      HolderMeaning(history, token, Grant(email, x));
    }
  }

  class AuthManager {
    const db: Storage
    // What happened so far, and the time of the last look at the clock.
    ghost var history: seq<Event>
    ghost var clock: int

    ghost predicate UserKnown(i: nat)
      requires i in db.users
      reads `history, db`users
    {
      Pass(history, db.users[i].email) == Some(db.users[i].pass)
    }

    ghost predicate PassStored(email: string)
      reads `history, db`users
    {
      Pass(history, email).Some? ==> exists i: nat :: i in db.users && db.users[i].email == email
    }

    ghost predicate TokenKnown(i: nat)
      requires i in db.tokens && db.tokens[i].userId in db.users
      reads `history, db`users, db`tokens
    {
      Holder(history, db.tokens[i].value) ==
        Some(Grant(db.users[db.tokens[i].userId].email, db.tokens[i].expires))
    }

    /** Only an expired token may be missing from the table. */
    ghost predicate TokenStored(token: string)
      reads `history, `clock, db`tokens
    {
      Answer(history, token, clock).Some? ==> exists i: nat :: i in db.tokens && db.tokens[i].value == token
    }

    ghost predicate UsersOk()
      reads `history, db`users
    {
      (forall i :: i in db.users ==> UserKnown(i)) && (forall e :: PassStored(e))
    }

    ghost predicate TokensOk()
      reads `history, `clock, db`users, db`tokens
    {
      && (forall i :: i in db.tokens ==> db.tokens[i].userId in db.users && TokenKnown(i))
      && (forall t :: TokenStored(t))
    }

    ghost predicate Valid()
      reads this, db
    {
      db.Valid() && UsersOk() && TokensOk()
    }

    constructor (db: Storage)
      requires db.Valid() && db.users == map[] && db.tokens == map[]
      ensures Valid() && this.db == db && history == [] && clock == 0
    {
      this.db, history, clock := db, [], 0;
    }

    /** What the rows with an email say about it. */
    lemma UserRows(email: string)
      requires db.Valid() && UsersOk()
      ensures db.UsersByEmail(email) == {} <==> Pass(history, email).None?
      ensures forall i :: i in db.UsersByEmail(email) ==>
        db.UsersByEmail(email) == {i} && Pass(history, email) == Some(db.users[i].pass)
    {
      hide Pass;
      assert PassStored(email);
      assert forall i: nat :: i in db.users && db.users[i].email == email ==> i in db.UsersByEmail(email);
      forall i | i in db.UsersByEmail(email)
        ensures db.UsersByEmail(email) == {i} && UserKnown(i)
      {
        TheOne(db.UsersByEmail(email), i);
      }
    }

    /** What the rows with a token value say about it. */
    lemma TokenRows(token: string, now: int)
      requires db.Valid() && TokensOk() && clock <= now
      ensures db.TokensByValue(token) == {} ==> Answer(history, token, now) == None
      ensures forall i :: i in db.TokensByValue(token) ==>
        && db.TokensByValue(token) == {i} && db.tokens[i].userId in db.users
        && Holder(history, token) == Some(Grant(db.users[db.tokens[i].userId].email, db.tokens[i].expires))
    {
      hide Holder;
      assert TokenStored(token);
      assert forall i: nat :: i in db.tokens && db.tokens[i].value == token ==> i in db.TokensByValue(token);
      forall i | i in db.TokensByValue(token)
        ensures db.TokensByValue(token) == {i} && TokenKnown(i)
      {
        TheOne(db.TokensByValue(token), i);
      }
    }

    /** What happens to tokens is nothing to the users. */
    twostate lemma UsersStay(event: Event)
      requires old(UsersOk()) && db.users == old(db.users)
      requires history == old(history) + [event] && (event.Issued? || event.Revoked?)
      ensures UsersOk()
    {
      hide Pass, Holder;
      HistorySnoc(old(history), event);
      forall e
        ensures PassStored(e)
      {
        assert old(PassStored(e));
      }
      forall i | i in db.users
        ensures UserKnown(i)
      {
        assert old(UserKnown(i));
      }
    }

    /** New users and passwords are nothing to the tokens. */
    twostate lemma TokensStay(event: Event)
      requires old(TokensOk()) && db.tokens == old(db.tokens) && clock == old(clock)
      requires forall i :: i in old(db.users) ==> i in db.users && db.users[i].email == old(db.users)[i].email
      requires history == old(history) + [event] && (event.Added? || event.PassChanged?)
      ensures TokensOk()
    {
      hide Pass, Holder;
      HistorySnoc(old(history), event);
      forall t
        ensures TokenStored(t)
      {
        assert old(TokenStored(t));
      }
      forall i | i in db.tokens
        ensures db.tokens[i].userId in db.users && TokenKnown(i)
      {
        assert old(TokenKnown(i));
      }
    }

    /** A user that becomes or ceases to be an admin is still the same user. */
    twostate lemma UsersRenewed()
      requires old(Valid()) && db.Valid() && history == old(history) && clock == old(clock)
      requires db.tokens == old(db.tokens) && db.users.Keys == old(db.users.Keys)
      requires forall i :: i in db.users ==>
        db.users[i].email == old(db.users)[i].email && db.users[i].pass == old(db.users)[i].pass
      ensures Valid()
    {
      hide Pass, Holder;
      forall e
        ensures PassStored(e)
      {
        assert old(PassStored(e));
      }
      forall i | i in db.users
        ensures UserKnown(i)
      {
        assert old(UserKnown(i));
      }
      forall t
        ensures TokenStored(t)
      {
        assert old(TokenStored(t));
      }
      forall i | i in db.tokens
        ensures db.tokens[i].userId in db.users && TokenKnown(i)
      {
        assert old(TokenKnown(i));
      }
    }

    /** Time goes on. */
    method Look(now: int)
      requires Valid() && clock <= now
      modifies `clock
      ensures Valid() && clock == now
    {
      hide Holder, UsersOk;
      clock := now;
      forall t
        ensures TokenStored(t)
      {
        assert old(TokenStored(t));
      }
    }

    /** Only what has expired may be taken out unnoticed. */
    method Collect(ids: set<nat>)
      requires Valid() && forall i :: i in ids && i in db.tokens ==> db.tokens[i].expires < clock
      modifies db`tokens
      ensures Valid() && db.tokens == old(db.tokens) - ids
    {
      hide Holder, UsersOk;
      db.RemoveTokens(ids);
      forall t
        ensures TokenStored(t)
      {
        assert old(TokenStored(t));
        if Answer(history, t, clock).Some? {
          var i: nat :| i in old(db.tokens) && old(db.tokens)[i].value == t;
          assert old(TokenKnown(i));
          assert i in db.tokens;
        }
      }
      forall i | i in db.tokens
        ensures TokenKnown(i)
      {
        assert old(TokenKnown(i));
      }
    }

    /** authenticate by token. */
    method Check(token: string, now: int) returns (email: Option<string>)
      requires Valid() && clock <= now
      modifies `clock, db`tokens
      ensures Valid() && clock == now
      ensures email == Answer(history, token, now)
    {
      Look(now);
      hide Holder, UsersOk, TokensOk;
      TokenRows(token, now);
      var ids := db.TokensByValue(token);
      if |ids| == 1 {
        var i :| i in ids;
        var row := db.tokens[i];
        if row.expires < now {
          Collect(ids);
          return None;
        }
        var users := set u | u in db.users && u == row.userId :: db.users[u].email;
        assert db.users[row.userId].email in users;
        var e :| e in users;
        return Some(e);
      }
      return None;
    }

    method Cleanup(now: int)
      requires Valid() && clock <= now
      modifies `clock, db`tokens
      ensures Valid() && clock == now
      ensures forall i :: i in db.tokens <==> i in old(db.tokens) && old(db.tokens)[i].expires >= now
    {
      hide UsersOk, TokensOk;
      Look(now);
      Collect(set i | i in db.tokens && db.tokens[i].expires < now);
    }

    method DeleteToken(token: string)
      requires Valid()
      modifies `history, db`tokens
      ensures Valid() && history == old(history) + [Revoked(token)]
    {
      hide Holder, Pass, UsersOk;
      HistorySnoc(history, Revoked(token));
      db.RemoveTokens(db.TokensByValue(token));
      history := history + [Revoked(token)];
      UsersStay(Revoked(token));
      forall t
        ensures TokenStored(t)
      {
        assert old(TokenStored(t));
        if Answer(history, t, clock).Some? {
          var i: nat :| i in old(db.tokens) && old(db.tokens)[i].value == t;
          assert i in db.tokens;
        }
      }
      forall i | i in db.tokens
        ensures TokenKnown(i)
      {
        assert old(TokenKnown(i));
        assert i !in old(db.TokensByValue(token));
      }
    }

    method AddUser(email: string, pass: string, admin: bool) returns (added: bool)
      requires Valid()
      modifies `history, db`users, db`nextUser
      ensures Valid() && added == Pass(old(history), email).None?
      ensures !added ==> db.users == old(db.users)
      ensures added ==> exists id: nat ::
        id !in old(db.users) && db.users == old(db.users)[id := User(email, pass, admin)]
      ensures history == if added then old(history) + [Added(email, pass)] else old(history)
    {
      hide Holder, Pass, TokensOk;
      UserRows(email);
      if |db.UsersByEmail(email)| != 0 {
        return false;
      }
      HistorySnoc(history, Added(email, pass));
      var id := db.InsertUser(User(email, pass, admin));
      history := history + [Added(email, pass)];
      TokensStay(Added(email, pass));
      forall e
        ensures PassStored(e)
      {
        assert old(PassStored(e)) && id in db.users;
        assert forall i: nat :: i in old(db.users) ==> i in db.users && db.users[i] == old(db.users)[i];
      }
      forall i | i in db.users
        ensures UserKnown(i)
      {
        assert i != id ==> old(UserKnown(i)) && i !in old(db.UsersByEmail(email));
      }
      return true;
    }

    method ChangePass(email: string, pass: string) returns (changed: bool)
      requires Valid()
      modifies `history, db`users
      ensures Valid() && changed == (pass != "" && Pass(old(history), email).Some?)
      ensures history == if changed then old(history) + [PassChanged(email, pass)] else old(history)
      ensures db.users.Keys == old(db.users.Keys)
      ensures forall i :: i in db.users ==> db.users[i] == old(db.users)[i].(pass := db.users[i].pass)
    {
      if pass == "" {
        return false;
      }
      hide Holder, Pass, TokensOk;
      UserRows(email);
      var ids := db.UsersByEmail(email);
      if |ids| != 1 {
        return false;
      }
      HistorySnoc(history, PassChanged(email, pass));
      var id :| id in ids;
      db.UpdateUser(id, db.users[id].(pass := pass));
      history := history + [PassChanged(email, pass)];
      TokensStay(PassChanged(email, pass));
      UsersStayChanged(id);
      return true;
    }

    /** The users half of changing a password. */
    twostate lemma UsersStayChanged(id: nat)
      requires id in old(db.users) && old(db.Valid() && UsersOk()) && id in db.users
      requires db.users == old(db.users)[id := old(db.users)[id].(pass := db.users[id].pass)]
      requires history == old(history) + [PassChanged(db.users[id].email, db.users[id].pass)]
      ensures UsersOk()
    {
      hide Holder, TokensOk;
      HistorySnoc(old(history), PassChanged(db.users[id].email, db.users[id].pass));
      hide Pass;
      forall e
        ensures PassStored(e)
      {
        assert old(PassStored(e));
        if Pass(old(history), e).Some? {
          var i: nat :| i in old(db.users) && old(db.users)[i].email == e;
          assert i in db.users && db.users[i].email == e;
        }
      }
      forall i | i in db.users
        ensures UserKnown(i)
      {
        assert old(UserKnown(i));
      }
    }

    /** The users half of deleting a user. */
    twostate lemma UsersStayWithout(id: nat)
      requires id in old(db.users) && old(db.Valid() && UsersOk())
      requires db.users == old(db.users) - {id} && history == old(history) + [Deleted(old(db.users[id].email))]
      ensures UsersOk()
    {
      hide Holder, Pass;
      HistorySnoc(old(history), Deleted(old(db.users[id].email)));
      forall e
        ensures PassStored(e)
      {
        assert old(PassStored(e));
        if Pass(history, e).Some? {
          var i: nat :| i in old(db.users) && old(db.users)[i].email == e;
          assert i in db.users;
        }
      }
      forall i | i in db.users
        ensures UserKnown(i)
      {
        assert old(UserKnown(i)) && i != id;
      }
    }

    /** The tokens half: the tokens of the user, and no others, are gone. */
    twostate lemma TokensStayWithout(id: nat)
      requires id in old(db.users) && old(db.Valid() && TokensOk()) && clock == old(clock)
      requires db.users == old(db.users) - {id} && history == old(history) + [Deleted(old(db.users[id].email))]
      requires db.tokens == Database.TokensWithout(old(db.tokens), id)
      ensures TokensOk()
    {
      hide Holder, Pass;
      HistorySnoc(old(history), Deleted(old(db.users[id].email)));
      forall t
        ensures TokenStored(t)
      {
        assert old(TokenStored(t));
        if Answer(history, t, clock).Some? {
          var i: nat :| i in old(db.tokens) && old(db.tokens)[i].value == t;
          assert old(TokenKnown(i)) && i in db.tokens;
        }
      }
      forall i | i in db.tokens
        ensures db.tokens[i].userId in db.users && TokenKnown(i)
      {
        assert old(TokenKnown(i)) && db.tokens[i].userId != id;
      }
    }

    method DeleteUser(email: string) returns (deleted: bool)
      requires Valid()
      modifies `history, db`users, db`rights, db`tokens
      ensures Valid() && deleted == Pass(old(history), email).Some?
      ensures history == if deleted then old(history) + [Deleted(email)] else old(history)
      ensures !deleted ==> db.users == old(db.users) && db.rights == old(db.rights)
      ensures deleted ==> exists id: nat ::
        && id in old(db.users) && old(db.users)[id].email == email
        && db.users == old(db.users) - {id} && db.rights == RightsWithout(old(db.rights), id)
    {
      hide Holder, Pass, UsersOk, TokensOk;
      UserRows(email);
      var ids := db.UsersByEmail(email);
      if |ids| != 1 {
        return false;
      }
      var id :| id in ids;
      db.RemoveUser(id);
      history := history + [Deleted(email)];
      UsersStayWithout(id);
      TokensStayWithout(id);
      return true;
    }

    /** The tokens half of issuing one. */
    twostate lemma TokensWith(row: Token)
      requires old(db.Valid() && TokensOk()) && old(db.TokensByValue(row.value)) == {}
      requires db.users == old(db.users) && row.userId in db.users && clock == old(clock)
      requires exists n: nat :: n !in old(db.tokens) && db.tokens == old(db.tokens)[n := row]
      requires history == old(history) + [Issued(row.value, db.users[row.userId].email, row.expires)]
      ensures TokensOk()
    {
      hide Holder, Pass;
      HistorySnoc(old(history), Issued(row.value, db.users[row.userId].email, row.expires));
      var n: nat :| n !in old(db.tokens) && db.tokens == old(db.tokens)[n := row];
      assert n in db.tokens && db.tokens[n].value == row.value;
      assert forall i: nat :: i in old(db.tokens) ==> i in db.tokens && db.tokens[i] == old(db.tokens)[i];
      forall t
        ensures TokenStored(t)
      {
        assert old(TokenStored(t));
      }
      forall i | i in db.tokens
        ensures db.tokens[i].userId in db.users && TokenKnown(i)
      {
        assert i != n ==> old(TokenKnown(i)) && i !in old(db.TokensByValue(row.value));
      }
    }

    /** Puts a token into the table unless its value is there already. */
    method IssueToken(id: nat, token: string, now: int) returns (generated: bool)
      requires Valid() && id in db.users && now == clock
      modifies `history, db`tokens, db`nextToken
      ensures Valid() && generated == (old(db.TokensByValue(token)) == {})
      ensures !generated ==> history == old(history) && db.tokens == old(db.tokens)
      ensures generated ==> history == old(history) + [Issued(token, db.users[id].email, now + 604800)]
    {
      hide Holder, Pass, UsersOk, TokensOk;
      var row := Token(id, token, now + LIFETIME);
      generated := db.InsertToken(row);
      if !generated {
        return;
      }
      ghost var event := Issued(token, db.users[id].email, now + LIFETIME);
      history := history + [event];
      UsersStay(event);
      TokensWith(row);
    }

    /** authenticate by email and password; tokens are drawn until one is new. */
    method Login(email: string, pass: string, now: int, draws: seq<string>) returns (token: Option<string>)
      requires Valid() && clock <= now
      requires exists k :: 0 <= k < |draws| && db.TokensByValue(draws[k]) == {}
      modifies `history, `clock, db`tokens, db`nextToken
      ensures Valid() && clock == now
      ensures token.Some? == (Pass(old(history), email) == Some(pass))
      ensures token.None? ==> history == old(history)
      ensures token.Some? ==>
        && history == old(history) + [Issued(token.value, email, now + 604800)]
        && token.value in draws && Answer(old(history), token.value, now).None?
    {
      hide Holder, Pass, Answer, UsersOk, TokensOk, Storage.IdsOk, Storage.UniqueOk, Storage.ReferencesOk;
      Look(now);
      UserRows(email);
      var ids := set i | i in db.UsersByEmail(email) && db.users[i].pass == pass;
      ghost var all := db.UsersByEmail(email);
      assert ids == if Pass(history, email) == Some(pass) then all else {};
      if |ids| != 1 {
        return None;
      }
      var id :| id in ids;
      ghost var found :| 0 <= found < |draws| && db.TokensByValue(draws[found]) == {};
      var k: nat, generated := 0, false;
      while !generated
        invariant Valid() && clock == now && id in db.users && db.users[id].email == email
        invariant !generated ==> k <= found && history == old(history) && db.tokens == old(db.tokens)
        invariant generated ==>
          && 0 < k <= |draws| && history == old(history) + [Issued(draws[k - 1], email, now + 604800)]
          && Answer(old(history), draws[k - 1], now).None?
        decreases !generated, |draws| - k
      {
        TokenRows(draws[k], now);
        generated := IssueToken(id, draws[k], now);
        k := k + 1;
      }
      return Some(draws[k - 1]);
    }
  }
}
