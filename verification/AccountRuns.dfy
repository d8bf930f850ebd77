// Runs of the user, token and permission operations over one database. What they answer
// is compared with a model that has no tables: a history, and sets and maps by name.

module AccountRuns {

  import opened AuthTokens
  import opened Database
  import opened RightsManagement
  import opened Wrappers

  datatype Model = Model(
    history: seq<Event>,
    admins: set<string>,
    projects: set<string>,
    granted: map<(string, string), Rights>)

  /** What a user may do with a project, by name; none if one of them is not known. */
  function Allowed(m: Model, email: string, name: string): Option<Rights> {
    if Pass(m.history, email).None? || name !in m.projects then None
    else if email in m.admins then Some(Rights(true, true, true))
    else if (email, name) in m.granted then Some(m.granted[(email, name)])
    else Some(Rights(false, false, false))
  }

  datatype Request =
    | NewUser(email: string, pass: string, admin: bool)
    | NoUser(email: string)
    | NewPass(email: string, pass: string)
    | NewProject(name: string)
    | NoProject(name: string)
    | SetRights(email: string, name: string, rights: Rights)
    | SetAdmin(email: string, admin: bool)
    | LogIn(email: string, pass: string)
    | LogOut(token: string)
    | WhoIs(token: string)
    | Collect
    | Show(email: string, name: string)

  datatype Reply =
    | Done(ok: bool)
    | Maybe(text: Option<string>)
    | Views(one: Option<Rights>, projects: map<string, Rights>, users: map<string, RightsEx>)

  predicate Knows(m: Model, email: string) {
    Pass(m.history, email).Some?
  }

  function AfterEvent(m: Model, event: Event): Model {
    m.(history := m.history + [event])
  }

  function WithUser(m: Model, email: string, pass: string, admin: bool): Model {
    AfterEvent(m, Added(email, pass)).(admins := if admin then m.admins + {email} else m.admins)
  }

  function WithoutUser(m: Model, email: string): Model {
    AfterEvent(m, Deleted(email)).(
      admins := m.admins - {email},
      granted := map k | k in m.granted && k.0 != email :: m.granted[k])
  }

  function WithStatus(m: Model, email: string, admin: bool): Model {
    m.(admins := if admin then m.admins + {email} else m.admins - {email})
  }

  /** The model after a request that has been answered like this. */
  function Next(m: Model, now: int, request: Request, reply: Reply): Model {
    match request
    case NewUser(e, p, admin) => if Knows(m, e) then m else WithUser(m, e, p, admin)
    case NoUser(e) => if Knows(m, e) then WithoutUser(m, e) else m
    case NewPass(e, p) => if Knows(m, e) && p != "" then AfterEvent(m, PassChanged(e, p)) else m
    case NewProject(name) => m.(projects := m.projects + {name})
    case NoProject(_) => m
    case SetRights(e, name, r) =>
      if Knows(m, e) && name in m.projects then m.(granted := m.granted[(e, name) := r]) else m
    case SetAdmin(e, admin) => if Knows(m, e) then WithStatus(m, e, admin) else m
    case LogIn(e, _) =>
      if reply.Maybe? && reply.text.Some? then AfterEvent(m, Issued(reply.text.value, e, now + 604800)) else m
    case LogOut(token) => AfterEvent(m, Revoked(token))
    case WhoIs(_) | Collect | Show(_, _) => m
  }

  /** The reply is the one the model gives. */
  ghost predicate Explains(m: Model, now: int, request: Request, reply: Reply) {
    match request
    case NewUser(e, _, _) => reply == Done(!Knows(m, e))
    case NoUser(e) => reply == Done(Knows(m, e))
    case NewPass(e, p) => reply == Done(Knows(m, e) && p != "")
    case NewProject(_) | NoProject(_) | LogOut(_) | Collect => reply == Done(true)
    case SetRights(e, name, _) => reply == Done(Knows(m, e) && name in m.projects)
    case SetAdmin(e, _) => reply == Done(Knows(m, e))
    case LogIn(e, p) =>
      && reply.Maybe? && (reply.text.Some? <==> Pass(m.history, e) == Some(p))
      && (reply.text.Some? ==> Answer(m.history, reply.text.value, now).None?)
    case WhoIs(token) => reply == Maybe(Answer(m.history, token, now))
    case Show(e, name) => reply.Views? && ViewsOk(m, e, name, reply)
  }

  /** All three queries show what is allowed. */
  ghost predicate ViewsOk(m: Model, email: string, name: string, v: Reply)
    requires v.Views?
  {
    && (v.one.Some? ==> Allowed(m, email, name) == v.one)
    && (v.one.None? ==> Allowed(m, email, name) in {None, Some(Rights(false, false, false))})
    && (forall n :: (n in v.projects <==> Allowed(m, email, n).Some?) &&
          (n in v.projects ==> Allowed(m, email, n) == Some(v.projects[n])))
    && (forall e :: (e in v.users <==> Allowed(m, e, name).Some?) &&
          (e in v.users ==> Allowed(m, e, name) == Some(v.users[e].rights) && (v.users[e].admin <==> e in m.admins)))
  }

  // ----- The tables and the model -----

  /** A row gives these rights to a user for a project, by name. */
  ghost predicate Stored(users: map<nat, User>, projects: map<nat, Project>, rights: map<nat, Right>,
                         email: string, name: string, r: Rights)
  {
    exists i: nat :: i in rights && StoredAt(users, projects, rights[i], email, name, r)
  }

  predicate StoredAt(users: map<nat, User>, projects: map<nat, Project>, row: Right,
                     email: string, name: string, r: Rights)
  {
    && row.userId in users && users[row.userId].email == email
    && row.projectId in projects && projects[row.projectId].name == name && Of(row) == r
  }

  ghost predicate RightsMatch(m: Model, users: map<nat, User>, projects: map<nat, Project>, rights: map<nat, Right>) {
    forall e, n, r ::
      Stored(users, projects, rights, e, n, r) <==> (e, n) in m.granted && m.granted[(e, n)] == r
  }

  ghost predicate NamesMatch(m: Model, users: map<nat, User>, projects: map<nat, Project>) {
    && (forall i :: i in users ==> (users[i].admin <==> users[i].email in m.admins))
    && (forall e :: e in m.admins ==> exists i: nat :: i in users && users[i].email == e)
    && m.projects == set i | i in projects :: projects[i].name
  }

  ghost predicate Matches(m: Model, users: map<nat, User>, projects: map<nat, Project>, rights: map<nat, Right>) {
    NamesMatch(m, users, projects) && RightsMatch(m, users, projects, rights)
  }

  /** Emails and project names stand for one row each, and rows refer to rows. */
  ghost predicate TablesOk(users: map<nat, User>, projects: map<nat, Project>, rights: map<nat, Right>) {
    && (forall i, j :: i in users && j in users && users[i].email == users[j].email ==> i == j)
    && (forall i, j :: i in projects && j in projects && projects[i].name == projects[j].name ==> i == j)
    && (forall i :: i in rights ==> rights[i].userId in users && rights[i].projectId in projects)
  }

  /** Rows that keep their email and status change nothing. */
  lemma SameNames(m: Model, users: map<nat, User>, users': map<nat, User>, projects: map<nat, Project>,
                  projects': map<nat, Project>, rights: map<nat, Right>)
    requires Matches(m, users, projects, rights)
    requires users.Keys == users'.Keys && projects.Keys == projects'.Keys
    requires forall i :: i in users ==> users'[i] == users[i].(pass := users'[i].pass)
    requires forall i :: i in projects ==> projects'[i].name == projects[i].name
    ensures Matches(m, users', projects', rights)
  {
    forall e, n, r
      ensures Stored(users', projects', rights, e, n, r) <==> Stored(users, projects, rights, e, n, r)
    {
    }
  }

  lemma EmptyMatches()
    ensures Matches(Model([], {}, {}, map[]), map[], map[], map[])
  {
  }

  lemma UserAdded(m: Model, m': Model, users: map<nat, User>, projects: map<nat, Project>, rights: map<nat, Right>,
                  id: nat, row: User)
    requires TablesOk(users, projects, rights) && Matches(m, users, projects, rights)
    requires id !in users && forall i :: i in users ==> users[i].email != row.email
    requires m' == m.(history := m'.history, admins := if row.admin then m.admins + {row.email} else m.admins)
    ensures Matches(m', users[id := row], projects, rights)
  {
    var users' := users[id := row];
    forall e, n, r
      ensures Stored(users', projects, rights, e, n, r) <==> Stored(users, projects, rights, e, n, r)
    {
    }
    forall e | e in m'.admins
      ensures exists i: nat :: i in users' && users'[i].email == e
    {
      if e == row.email {
        assert id in users' && users'[id].email == e;
      } else {
        var i: nat :| i in users && users[i].email == e;
        assert i in users' && users'[i].email == e;
      }
    }
  }

  lemma RightsGone(users: map<nat, User>, projects: map<nat, Project>, rights: map<nat, Right>, id: nat)
    requires TablesOk(users, projects, rights) && id in users
    ensures forall e, n, r ::
      Stored(users - {id}, projects, RightsWithout(rights, id), e, n, r) <==>
        Stored(users, projects, rights, e, n, r) && e != users[id].email
  {
    var users', rights' := users - {id}, RightsWithout(rights, id);
    forall e, n, r
      ensures Stored(users', projects, rights', e, n, r) <==>
        Stored(users, projects, rights, e, n, r) && e != users[id].email
    {
      if i: nat :| i in rights && StoredAt(users, projects, rights[i], e, n, r) && e != users[id].email {
        assert i in rights' && StoredAt(users', projects, rights'[i], e, n, r);
      }
      if i: nat :| i in rights' && StoredAt(users', projects, rights'[i], e, n, r) {
        assert i in rights && StoredAt(users, projects, rights[i], e, n, r);
      }
    }
  }

  lemma UserGone(m: Model, m': Model, users: map<nat, User>, projects: map<nat, Project>, rights: map<nat, Right>,
                 id: nat)
    requires TablesOk(users, projects, rights) && Matches(m, users, projects, rights) && id in users
    requires m' == m.(history := m'.history, admins := m.admins - {users[id].email},
                      granted := map k | k in m.granted && k.0 != users[id].email :: m.granted[k])
    ensures Matches(m', users - {id}, projects, RightsWithout(rights, id))
  {
    RightsGone(users, projects, rights, id);
    hide Stored, TablesOk;
    var users' := users - {id};
    forall e | e in m'.admins
      ensures exists i: nat :: i in users' && users'[i].email == e
    {
      var i: nat :| i in users && users[i].email == e;
      assert i in users' && users'[i].email == e;
    }
  }

  lemma ProjectAdded(m: Model, users: map<nat, User>, projects: map<nat, Project>, rights: map<nat, Right>,
                     id: nat, row: Project)
    requires TablesOk(users, projects, rights) && Matches(m, users, projects, rights) && id !in projects
    ensures Matches(m.(projects := m.projects + {row.name}), users, projects[id := row], rights)
  {
    var projects' := projects[id := row];
    forall e, n, r
      ensures Stored(users, projects', rights, e, n, r) <==> Stored(users, projects, rights, e, n, r)
    {
    }
    assert forall i :: i in projects ==> i in projects' && projects'[i] == projects[i];
    assert id in projects' && projects'[id].name == row.name;
  }

  lemma RightWritten(m: Model, users: map<nat, User>, projects: map<nat, Project>, before: map<nat, Right>,
                     after: map<nat, Right>, u: nat, p: nat, rights: Rights)
    requires TablesOk(users, projects, before) && Matches(m, users, projects, before)
    requires u in users && p in projects && Written(before, after, u, p, rights)
    ensures Matches(m.(granted := m.granted[(users[u].email, projects[p].name) := rights]), users, projects, after)
  {
    var row := Right(u, p, rights.read, rights.write, rights.execute);
    var i: nat :| i in after && WrittenAt(before, after, i, row);
    var email, name := users[u].email, projects[p].name;
    forall e, n, r
      ensures Stored(users, projects, after, e, n, r) <==>
        if e == email && n == name then r == rights else Stored(users, projects, before, e, n, r)
    {
      assert StoredAt(users, projects, after[i], email, name, rights);
      if j: nat :| j in after && StoredAt(users, projects, after[j], e, n, r) {
        assert e == email && n == name ==> j == i;
        assert j != i ==> j in before && after[j] == before[j];
      }
      if j: nat :| j in before && StoredAt(users, projects, before[j], e, n, r) && (e != email || n != name) {
        assert j != i && after[j] == before[j];
      }
    }
  }

  lemma AdminSet(m: Model, users: map<nat, User>, users': map<nat, User>, projects: map<nat, Project>,
                 rights: map<nat, Right>, email: string, admin: bool)
    requires TablesOk(users, projects, rights) && Matches(m, users, projects, rights)
    requires users'.Keys == users.Keys && exists u: nat :: u in users && users[u].email == email
    requires forall u :: u in users ==>
      users'[u] == if users[u].email == email then users[u].(admin := admin) else users[u]
    ensures Matches(m.(admins := if admin then m.admins + {email} else m.admins - {email}), users', projects, rights)
  {
    forall e, n, r
      ensures Stored(users', projects, rights, e, n, r) <==> Stored(users, projects, rights, e, n, r)
    {
    }
    assert forall i :: i in users ==> i in users' && users'[i].email == users[i].email;
  }

  lemma {:induction false} LongerThanAll(tokens: map<nat, Token>, ids: set<nat>) returns (n: nat)
    requires ids <= tokens.Keys
    ensures forall i :: i in ids ==> |tokens[i].value| < n
  {
    n := 0;
    if i :| i in ids {
      var m := LongerThanAll(tokens, ids - {i});
      n := if m > |tokens[i].value| then m else |tokens[i].value| + 1;
    }
  }

  /** The project of this name is marked, and no other one changes. */
  ghost predicate Marked(before: map<nat, Project>, after: map<nat, Project>, name: string, deleted: bool) {
    forall i :: i in before ==>
      i in after && after[i] == if before[i].name == name then before[i].(deleted := deleted) else before[i]
  }

  /** The user, token and permission operations on one database, and the part of creating
    * and removing projects that touches it. */
  class Accounts {
    const db: Storage
    const auth: AuthManager
    const rights: RightsManager
    var clock: nat
    ghost var model: Model

    ghost predicate Valid()
      reads this, db, auth
    {
      && auth.db == db && rights.db == db
      && auth.Valid() && rights.Valid() && auth.clock <= clock
      && auth.history == model.history && Matches(model, db.users, db.projects, db.rights)
    }

    constructor ()
      ensures Valid() && fresh(db) && fresh(auth) && clock == 0 && model == Model([], {}, {}, map[])
    {
      hide Matches, AuthManager.UsersOk, AuthManager.TokensOk, RightsManager.OnePerPair;
      hide Storage.UniqueOk, Storage.IdsOk, Storage.ReferencesOk;
      EmptyMatches();
      clock, model := 0, Model([], {}, {}, map[]);
      var storage := new Storage();
      auth := new AuthManager(storage);
      rights := new RightsManager(storage);
      db := storage;
    }

    lemma TablesAreOk()
      requires Valid()
      ensures TablesOk(db.users, db.projects, db.rights)
    {
    }

    /** The row of a pair is what the model grants by name. */
    lemma RowIsGrant(u: nat, p: nat)
      requires Valid() && u in db.users && p in db.projects
      ensures var k := (db.users[u].email, db.projects[p].name);
        && (forall i :: i in rights.RowsFor(u, p) ==> k in model.granted && model.granted[k] == Of(db.rights[i]))
        && (k in model.granted ==> exists i :: i in rights.RowsFor(u, p))
    {
      hide AuthManager.UsersOk, AuthManager.TokensOk, NamesMatch;
      var email, name := db.users[u].email, db.projects[p].name;
      forall i | i in rights.RowsFor(u, p)
        ensures Stored(db.users, db.projects, db.rights, email, name, Of(db.rights[i]))
      {
        assert StoredAt(db.users, db.projects, db.rights[i], email, name, Of(db.rights[i]));
      }
      if (email, name) in model.granted {
        var r := model.granted[(email, name)];
        assert Stored(db.users, db.projects, db.rights, email, name, r);
        var i: nat :| i in db.rights && StoredAt(db.users, db.projects, db.rights[i], email, name, r);
        assert i in rights.RowsFor(u, p);
      }
    }

    /** The permissions by id are those of the model by name. */
    lemma MayIsAllowed(email: string, name: string, r: Rights)
      requires Valid()
      ensures rights.May(email, name, r) <==> Allowed(model, email, name) == Some(r)
    {
      KnownByName(email, name);
      hide Pass, AuthManager.UsersOk, AuthManager.TokensOk, RightsMatch;
      if u: nat, p: nat :|
        u in db.users && db.users[u].email == email && p in db.projects && db.projects[p].name == name {
        rights.MayBe(u, p, r);
        rights.OneRow(u, p);
        RowIsGrant(u, p);
        hide RightsManager.May, RightsManager.OnePerPair, Storage.UniqueOk, Storage.IdsOk;
        hide Storage.ReferencesOk;
      }
    }

    /** Whether there is a row with this name. */
    lemma KnownByName(email: string, name: string)
      requires Valid()
      ensures Knows(model, email) <==> exists u :: u in db.users && db.users[u].email == email
      ensures name in model.projects <==> exists p :: p in db.projects && db.projects[p].name == name
    {
      hide Pass;
      auth.UserRows(email);
      assert forall u :: u in db.UsersByEmail(email) <==> u in db.users && db.users[u].email == email;
      if u :| u in db.users && db.users[u].email == email {
        assert u in db.UsersByEmail(email);
      }
    }

    /** create_project, where it looks at the database: a project that was deleted comes
      * back under its old row. */
    method AddProject(name: string)
      requires Valid()
      modifies `model, db`projects, db`nextProject
      ensures Valid() && model == old(model).(projects := old(model).projects + {name})
      ensures Marked(old(db.projects), db.projects, name, false)
      ensures forall i :: i in db.projects && i !in old(db.projects) ==> db.projects[i] == Project(name, false)
    {
      hide AuthManager.UsersOk, AuthManager.TokensOk, RightsManager.OnePerPair, TablesOk, Matches, Pass;
      hide Storage.UniqueOk, Storage.IdsOk, Storage.ReferencesOk;
      TablesAreOk();
      KnownByName("", name);
      var ids := db.ProjectsByName(name);
      assert forall i :: i in db.projects && db.projects[i].name == name ==> i in ids;
      if |ids| == 0 {
        var id := db.InsertProject(Project(name, false));
        ProjectAdded(model, db.users, old(db.projects), db.rights, id, Project(name, false));
        model := model.(projects := model.projects + {name});
      } else if |ids| == 1 {
        var id :| id in ids;
        db.UpdateProject(id, db.projects[id].(deleted := false));
        SameNames(model, db.users, db.users, old(db.projects), db.projects, db.rights);
        assert model.projects + {name} == model.projects;
        model := model.(projects := model.projects + {name});
      }
    }

    /** remove_project: the row stays, marked as deleted. */
    method RemoveProject(name: string)
      requires Valid()
      modifies db`projects
      ensures Valid() && db.projects.Keys == old(db.projects.Keys)
      ensures Marked(old(db.projects), db.projects, name, true)
    {
      hide AuthManager.UsersOk, AuthManager.TokensOk, RightsManager.OnePerPair, Matches, Pass;
      hide Storage.UniqueOk, Storage.IdsOk, Storage.ReferencesOk;
      TablesAreOk();
      var ids := db.ProjectsByName(name);
      assert forall i :: i in db.projects && db.projects[i].name == name ==> i in ids;
      if |ids| != 0 {
        var id :| id in ids;
        db.UpdateProject(id, db.projects[id].(deleted := true));
        SameNames(model, db.users, db.users, old(db.projects), db.projects, db.rights);
      }
    }

    method AddUser(email: string, pass: string, admin: bool) returns (added: bool)
      requires Valid()
      modifies `model, auth`history, db`users, db`nextUser
      ensures Valid() && added == !Knows(old(model), email)
      ensures model == if added then WithUser(old(model), email, pass, admin) else old(model)
    {
      hide Pass, AuthManager.UsersOk, AuthManager.TokensOk, NamesMatch, RightsMatch, Matches, TablesOk;
      hide Storage.UniqueOk, Storage.IdsOk, Storage.ReferencesOk, RightsManager.OnePerPair;
      TablesAreOk();
      auth.UserRows(email);
      added := auth.AddUser(email, pass, admin);
      if added {
        model := WithUser(model, email, pass, admin);
        ghost var id: nat :| id !in old(db.users) && db.users == old(db.users)[id := User(email, pass, admin)];
        assert forall i :: i in old(db.users) && old(db.users)[i].email == email ==> i in old(db.UsersByEmail(email));
        UserAdded(old(model), model, old(db.users), db.projects, db.rights, id, User(email, pass, admin));
      }
    }

    method DeleteUser(email: string) returns (deleted: bool)
      requires Valid()
      modifies `model, auth`history, db`users, db`rights, db`tokens
      ensures Valid() && deleted == Knows(old(model), email)
      ensures model == if deleted then WithoutUser(old(model), email) else old(model)
    {
      hide Pass, AuthManager.UsersOk, AuthManager.TokensOk, NamesMatch, RightsMatch, Matches, TablesOk;
      hide Storage.UniqueOk, Storage.IdsOk, Storage.ReferencesOk, RightsManager.OnePerPair;
      TablesAreOk();
      deleted := auth.DeleteUser(email);
      if deleted {
        model := WithoutUser(model, email);
        ghost var id: nat :| id in old(db.users) && old(db.users)[id].email == email
          && db.users == old(db.users) - {id} && db.rights == RightsWithout(old(db.rights), id);
        UserGone(old(model), model, old(db.users), db.projects, old(db.rights), id);
        rights.FewerRows();
      }
    }

    method ChangePass(email: string, pass: string) returns (changed: bool)
      requires Valid()
      modifies `model, auth`history, db`users
      ensures Valid() && changed == (Knows(old(model), email) && pass != "")
      ensures model == if changed then AfterEvent(old(model), PassChanged(email, pass)) else old(model)
    {
      hide Pass, AuthManager.UsersOk, AuthManager.TokensOk, NamesMatch, RightsMatch, Matches;
      hide Storage.UniqueOk, Storage.IdsOk, Storage.ReferencesOk, RightsManager.OnePerPair;
      changed := auth.ChangePass(email, pass);
      model := if changed then AfterEvent(model, PassChanged(email, pass)) else model;
      SameNames(old(model), old(db.users), db.users, db.projects, db.projects, db.rights);
      SameModel(old(model), model, db.users, db.projects, db.rights);
    }

    lemma SameModel(m: Model, m': Model, users: map<nat, User>, projects: map<nat, Project>, rights: map<nat, Right>)
      requires Matches(m, users, projects, rights) && m' == m.(history := m'.history)
      ensures Matches(m', users, projects, rights)
    {
    }

    method SetPermissions(email: string, name: string, r: Rights) returns (done: bool)
      requires Valid()
      modifies `model, db`rights, db`nextRight
      ensures Valid() && done == (Knows(old(model), email) && name in old(model).projects)
      ensures model == if done then old(model).(granted := old(model).granted[(email, name) := r]) else old(model)
    {
      hide Pass, AuthManager.UsersOk, AuthManager.TokensOk, NamesMatch, RightsMatch, Matches, TablesOk;
      hide RightsManager.May, Storage.UniqueOk, Storage.IdsOk, Storage.ReferencesOk;
      hide RightsManager.OnePerPair;
      KnownByName(email, name);
      TablesAreOk();
      done := rights.SetUserProjectPermissions(email, name, r);
      if done {
        model := model.(granted := model.granted[(email, name) := r]);
        ghost var u: nat, p: nat :|
          && u in db.users && db.users[u].email == email && p in db.projects && db.projects[p].name == name
          && Written(old(db.rights), db.rights, u, p, r);
        RightWritten(old(model), db.users, db.projects, old(db.rights), db.rights, u, p, r);
      }
    }

    method SetAdminStatus(email: string, admin: bool) returns (done: bool)
      requires Valid()
      modifies `model, db`users
      ensures Valid() && done == Knows(old(model), email)
      ensures model == if done then WithStatus(old(model), email, admin) else old(model)
    {
      hide Pass, NamesMatch, RightsMatch, Matches, TablesOk, RightsManager.May, Storage.UniqueOk;
      hide Storage.IdsOk, Storage.ReferencesOk, RightsManager.OnePerPair;
      KnownByName(email, "");
      TablesAreOk();
      done := rights.SetAdminStatus(email, admin);
      auth.UsersRenewed();
      if done {
        model := WithStatus(model, email, admin);
        AdminSet(old(model), old(db.users), db.users, db.projects, db.rights, email, admin);
      } else {
        assert db.users == old(db.users);
      }
    }

    method LogUserIn(email: string, pass: string) returns (token: Option<string>)
      requires Valid()
      modifies `model, auth, db`tokens, db`nextToken
      ensures Valid() && (token.Some? <==> Pass(old(model).history, email) == Some(pass))
      ensures token.Some? ==> Answer(old(model).history, token.value, clock).None?
      ensures model == if token.None? then old(model)
        else AfterEvent(old(model), Issued(token.value, email, clock + 604800))
    {
      hide Pass, Holder, Answer, AuthManager.UsersOk, AuthManager.TokensOk, NamesMatch, RightsMatch;
      hide Matches, Storage.UniqueOk, Storage.IdsOk, Storage.ReferencesOk, RightsManager.OnePerPair;
      ghost var n := LongerThanAll(db.tokens, db.tokens.Keys);
      NewValueExists(n);
      var draws: seq<string> :| exists k :: 0 <= k < |draws| && db.TokensByValue(draws[k]) == {};
      token := auth.Login(email, pass, clock, draws);
      model := if token.None? then model else AfterEvent(model, Issued(token.value, email, clock + 604800));
      SameModel(old(model), model, db.users, db.projects, db.rights);
    }

    lemma NewValueExists(n: nat)
      requires Valid() && forall i :: i in db.tokens ==> |db.tokens[i].value| < n
      ensures exists draws: seq<string> :: exists k :: 0 <= k < |draws| && db.TokensByValue(draws[k]) == {}
    {
      var s := seq(n, _ => 'A');
      assert [s][0] == s && db.TokensByValue(s) == {};
    }

    /** Any request, after some time. */
    method Handle(request: Request, delay: nat) returns (reply: Reply)
      requires Valid()
      modifies this, db, auth
      ensures Valid() && clock == old(clock) + delay && Explains(old(model), clock, request, reply)
      ensures model == Next(old(model), clock, request, reply)
    {
      hide Pass, Holder, Answer, AuthManager.UsersOk, AuthManager.TokensOk, NamesMatch, RightsMatch;
      hide Matches, Allowed, Storage.UniqueOk, Storage.IdsOk, Storage.ReferencesOk;
      hide RightsManager.OnePerPair;
      clock := clock + delay;
      match request {
        case NewUser(e, p, admin) =>
          var ok := AddUser(e, p, admin);
          reply := Done(ok);
        case NoUser(e) =>
          var ok := DeleteUser(e);
          reply := Done(ok);
        case NewPass(e, p) =>
          var ok := ChangePass(e, p);
          reply := Done(ok);
        case NewProject(name) =>
          AddProject(name);
          reply := Done(true);
        case NoProject(name) =>
          RemoveProject(name);
          reply := Done(true);
        case SetRights(e, name, r) =>
          var ok := SetPermissions(e, name, r);
          reply := Done(ok);
        case SetAdmin(e, admin) =>
          var ok := SetAdminStatus(e, admin);
          reply := Done(ok);
        case LogIn(e, p) =>
          var token := LogUserIn(e, p);
          reply := Maybe(token);
        case LogOut(token) =>
          auth.DeleteToken(token);
          model := AfterEvent(model, Revoked(token));
          SameModel(old(model), model, db.users, db.projects, db.rights);
          reply := Done(true);
        case WhoIs(token) =>
          var email := auth.Check(token, clock);
          reply := Maybe(email);
        case Collect =>
          auth.Cleanup(clock);
          reply := Done(true);
        case Show(e, name) => reply := ShowViews(e, name);
      }
    }

    method ShowViews(email: string, name: string) returns (reply: Reply)
      requires Valid()
      ensures reply.Views? && ViewsOk(model, email, name, reply)
    {
      hide AuthManager.UsersOk, AuthManager.TokensOk, Storage.UniqueOk, Storage.IdsOk, Storage.ReferencesOk;
      hide RightsManager.May, RightsManager.OnePerPair, Matches, ViewsOk;
      var one := rights.CheckProjectRight(email, name);
      var projects := rights.GetPermissions(email);
      var users := rights.GetPermissionsByProject(name);
      reply := Views(one, projects, users);
      ViewsAllowed(email, name, reply);
    }

    lemma ViewsAllowed(email: string, name: string, v: Reply)
      requires Valid() && v.Views?
      requires v.one.Some? ==> rights.May(email, name, v.one.value)
      requires v.one.None? ==> forall s :: rights.May(email, name, s) ==> !s.read && !s.write && !s.execute
      requires forall n :: n in v.projects ==> rights.May(email, n, v.projects[n])
      requires forall n, r :: rights.May(email, n, r) ==> n in v.projects && v.projects[n] == r
      requires forall e :: e in v.users ==> rights.May(e, name, v.users[e].rights)
      requires forall e, r :: rights.May(e, name, r) ==> e in v.users && v.users[e].rights == r
      requires forall u :: u in db.users && db.users[u].email in v.users ==>
        v.users[db.users[u].email].admin == db.users[u].admin
      ensures ViewsOk(model, email, name, v)
    {
      hide RightsManager.May, Allowed;
      MayIsAllowed(email, name, if v.one.Some? then v.one.value else Rights(false, false, false));
      if Allowed(model, email, name).Some? {
        MayIsAllowed(email, name, Allowed(model, email, name).value);
      }
      forall n
        ensures n in v.projects <==> Allowed(model, email, n).Some?
        ensures n in v.projects ==> Allowed(model, email, n) == Some(v.projects[n])
      {
        if n in v.projects {
          MayIsAllowed(email, n, v.projects[n]);
        }
        if Allowed(model, email, n).Some? {
          MayIsAllowed(email, n, Allowed(model, email, n).value);
        }
      }
      forall e
        ensures e in v.users <==> Allowed(model, e, name).Some?
        ensures e in v.users ==>
          Allowed(model, e, name) == Some(v.users[e].rights) && (v.users[e].admin <==> e in model.admins)
      {
        if e in v.users {
          MayIsAllowed(e, name, v.users[e].rights);
          UserOf(e, name, v.users[e].rights);
        }
        if Allowed(model, e, name).Some? {
          MayIsAllowed(e, name, Allowed(model, e, name).value);
        }
      }
    }

    lemma UserOf(email: string, name: string, r: Rights)
      requires Valid() && rights.May(email, name, r)
      ensures exists u :: u in db.users && db.users[u].email == email && (db.users[u].admin <==> email in model.admins)
    {
    }
  }

  /** One request, its answer, and what becomes of the model. */
  ghost predicate Turn(m: Model, since: nat, request: Request, delay: nat, reply: Reply, now: nat, m': Model) {
    now == since + delay && Explains(m, now, request, reply) && m' == Next(m, now, request, reply)
  }

  /** Over every run, every answer is the one the model gives: about tokens it is that of
    * the history, and the three permission queries show the same. */
  method RunAll(requests: seq<Request>, delays: seq<nat>)
    returns (replies: seq<Reply>, ghost models: seq<Model>, ghost times: seq<nat>)
    requires |delays| == |requests|
    ensures |replies| == |requests| && |models| == |times| == |requests| + 1
    ensures models[0] == Model([], {}, {}, map[]) && times[0] == 0
    ensures forall k :: 0 <= k < |requests| ==>
      Turn(models[k], times[k], requests[k], delays[k], replies[k], times[k + 1], models[k + 1])
  {
    hide Turn, Explains, Next, AuthManager.Valid, RightsManager.Valid, Matches;
    var accounts := new Accounts();
    replies, models, times := [], [accounts.model], [0];
    for i := 0 to |requests|
      invariant accounts.Valid() && fresh(accounts) && fresh(accounts.db) && fresh(accounts.auth)
      invariant |replies| == i && |models| == |times| == i + 1
      invariant models[0] == Model([], {}, {}, map[]) && times[0] == 0
      invariant models[i] == accounts.model && times[i] == accounts.clock
      invariant forall k :: 0 <= k < i ==>
        Turn(models[k], times[k], requests[k], delays[k], replies[k], times[k + 1], models[k + 1])
    {
      ghost var m, since := accounts.model, accounts.clock;
      var reply := accounts.Handle(requests[i], delays[i]);
      TurnIs(m, since, requests[i], delays[i], reply, accounts.clock, accounts.model);
      replies, times, models := replies + [reply], times + [accounts.clock], models + [accounts.model];
    }
  }

  lemma TurnIs(m: Model, since: nat, request: Request, delay: nat, reply: Reply, now: nat, m': Model)
    requires now == since + delay && Explains(m, now, request, reply) && m' == Next(m, now, request, reply)
    ensures Turn(m, since, request, delay, reply, now, m')
  {
  }
}
