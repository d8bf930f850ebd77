// Project permissions: rights_manager.cpp. Three queries look at the same tables from
// different sides.

module RightsManagement {

  import opened Database
  import opened Wrappers

  datatype Rights = Rights(read: bool, write: bool, execute: bool)
  datatype RightsEx = RightsEx(admin: bool, rights: Rights)

  const ALL_RIGHTS := Rights(true, true, true)
  const NO_RIGHTS := Rights(false, false, false)

  function Of(row: Right): Rights {
    Rights(row.read, row.write, row.execute)
  }

  /** The row of a user and a project was written, and no other. */
  ghost predicate Written(before: map<nat, Right>, after: map<nat, Right>, u: nat, p: nat, r: Rights) {
    exists i: nat :: i in after && WrittenAt(before, after, i, Right(u, p, r.read, r.write, r.execute))
  }

  ghost predicate WrittenAt(before: map<nat, Right>, after: map<nat, Right>, i: nat, row: Right) {
    && after == before[i := row]
    && forall j :: j in before ==> (before[j].userId == row.userId && before[j].projectId == row.projectId <==> i == j)
  }

  /** The default before the rows are looked at. */
  function AtFirst(user: User): RightsEx {
    if user.admin then RightsEx(true, ALL_RIGHTS) else RightsEx(false, NO_RIGHTS)
  }

  class RightsManager {
    const db: Storage

    ghost predicate OnePerPair()
      reads db`rights
    {
      forall i, j :: i in db.rights && j in db.rights && i != j ==>
        db.rights[i].userId != db.rights[j].userId || db.rights[i].projectId != db.rights[j].projectId
    }

    ghost predicate Valid()
      reads db
    {
      db.Valid() && OnePerPair()
    }

    /** The rows for a user and a project. */
    function RowsFor(user: nat, project: nat): (ids: set<nat>)
      reads db`rights
    {
      set i | i in db.rights && db.rights[i].userId == user && db.rights[i].projectId == project
    }

    function RowsOf(user: nat): set<nat>
      reads db`rights
    {
      set i | i in db.rights && db.rights[i].userId == user
    }

    function RowsAbout(project: nat): set<nat>
      reads db`rights
    {
      set i | i in db.rights && db.rights[i].projectId == project
    }

    lemma OneRow(user: nat, project: nat)
      requires OnePerPair()
      ensures |RowsFor(user, project)| <= 1
      ensures forall i :: i in RowsFor(user, project) ==> RowsFor(user, project) == {i}
    {
      AtMostOne(RowsFor(user, project));
      forall i | i in RowsFor(user, project)
        ensures RowsFor(user, project) == {i}
      {
        TheOne(RowsFor(user, project), i);
      }
    }

    /** Admins may do everything; others what their row says, and nothing without one. */
    ghost predicate Entitled(user: nat, project: nat, r: Rights)
      reads db`rights, db`users
    {
      if user in db.users && db.users[user].admin then r.read && r.write && r.execute
      else
        && (forall i :: i in RowsFor(user, project) ==>
              var row := db.rights[i]; r.read == row.read && r.write == row.write && r.execute == row.execute)
        && (RowsFor(user, project) == {} ==> !r.read && !r.write && !r.execute)
    }

    /** A user and a project, by name, and what the one may do with the other. */
    ghost predicate May(email: string, name: string, r: Rights)
      reads db`rights, db`users, db`projects
    {
      exists u: nat, p: nat ::
        && u in db.users && db.users[u].email == email
        && p in db.projects && db.projects[p].name == name
        && Entitled(u, p, r)
    }

    lemma MayBe(u: nat, p: nat, r: Rights)
      requires Valid() && u in db.users && p in db.projects
      ensures May(db.users[u].email, db.projects[p].name, r) <==> Entitled(u, p, r)
    {
    }

    /** Each pair has exactly one answer. */
    lemma MayOne(email: string, name: string, r: Rights, s: Rights)
      requires Valid() && May(email, name, r) && May(email, name, s)
      ensures r == s
    {
      var u: nat, p: nat :|
        && u in db.users && db.users[u].email == email
        && p in db.projects && db.projects[p].name == name
        && Entitled(u, p, r);
      MayBe(u, p, s);
      if i :| i in RowsFor(u, p) {
        assert r == s;
      }
    }

    constructor (db: Storage)
      requires db.Valid() && db.rights == map[]
      ensures Valid() && this.db == db
    {
      this.db := db;
    }

    method IsAdmin(email: string) returns (r: bool)
      requires Valid()
      ensures r <==> exists u :: u in db.users && db.users[u].email == email && db.users[u].admin
    {
      var ids := db.UsersByEmail(email);
      if |ids| != 1 {
        assert forall u :: u in db.users && db.users[u].email == email ==> u in ids;
        return false;
      }
      var u :| u in ids;
      return db.users[u].admin;
    }

    method SetAdminStatus(email: string, admin: bool) returns (done: bool)
      requires Valid()
      modifies db`users
      ensures Valid() && db.users.Keys == old(db.users.Keys)
      ensures done <==> exists u :: u in db.users && db.users[u].email == email
      ensures forall u :: u in db.users ==>
        db.users[u] == if db.users[u].email == email then old(db.users)[u].(admin := admin) else old(db.users)[u]
    {
      var ids := db.UsersByEmail(email);
      assert forall u :: u in db.users && db.users[u].email == email ==> u in ids;
      if |ids| != 1 {
        return false;
      }
      var u :| u in ids;
      db.UpdateUser(u, db.users[u].(admin := admin));
      return true;
    }

    /** None where there is no user, no project or no row. */
    method CheckProjectRight(email: string, name: string) returns (r: Option<Rights>)
      requires Valid()
      ensures r.Some? ==> May(email, name, r.value)
      ensures r.None? ==> forall s :: May(email, name, s) ==> !s.read && !s.write && !s.execute
    {
      var us, ps := db.UsersByEmail(email), db.ProjectsByName(name);
      assert forall u :: u in db.users && db.users[u].email == email ==> u in us;
      assert forall p :: p in db.projects && db.projects[p].name == name ==> p in ps;
      if |us| == 1 && |ps| == 1 {
        var u :| u in us;
        var p :| p in ps;
        if db.users[u].admin {
          assert Entitled(u, p, ALL_RIGHTS);
          return Some(ALL_RIGHTS);
        }
        var rows := RowsFor(u, p);
        OneRow(u, p);
        if |rows| == 1 {
          var i :| i in rows;
          assert Entitled(u, p, Of(db.rights[i]));
          return Some(Of(db.rights[i]));
        }
      }
      return None;
    }

    /** The rows of these have been entered; the others stand at nothing. */
    ghost predicate Entered(rest: set<nat>, user: nat, project: nat, r: Rights)
      reads db`rights
    {
      && (forall i :: i in RowsFor(user, project) ==> r == if i in rest then NO_RIGHTS else Of(db.rights[i]))
      && (RowsFor(user, project) == {} ==> r == NO_RIGHTS)
    }

    lemma ProjectApart(p: nat)
      requires db.UniqueOk() && p in db.projects
      ensures forall q :: q in db.projects && q != p ==> db.projects[q].name != db.projects[p].name
    {
    }

    lemma UserApart(u: nat)
      requires db.UniqueOk() && u in db.users
      ensures forall v :: v in db.users && v != u ==> db.users[v].email != db.users[u].email
    {
    }

    /** Every project with the same rights, as a user starts out. */
    method AllProjects(r: Rights) returns (result: map<string, Rights>)
      requires Valid()
      ensures result.Keys == set p | p in db.projects :: db.projects[p].name
      ensures forall n :: n in result ==> result[n] == r
    {
      result := map[];
      var rest := db.projects.Keys;
      while rest != {}
        invariant rest <= db.projects.Keys
        invariant result.Keys == set p | p in db.projects && p !in rest :: db.projects[p].name
        invariant forall n :: n in result ==> result[n] == r
        decreases rest
      {
        var p :| p in rest;
        result := result[db.projects[p].name := r];
        rest := rest - {p};
      }
    }

    method GetPermissions(email: string) returns (result: map<string, Rights>)
      requires Valid()
      ensures forall n :: n in result ==> May(email, n, result[n])
      ensures forall n, r :: May(email, n, r) ==> n in result && result[n] == r
    {
      var us := db.UsersByEmail(email);
      assert forall u :: u in db.users && db.users[u].email == email ==> u in us;
      if |us| != 1 {
        return map[];
      }
      var u :| u in us;
      var admin := db.users[u].admin;
      result := AllProjects(if admin then ALL_RIGHTS else NO_RIGHTS);
      if !admin {
        result := EnterRows(u, result);
      }
      forall p | p in db.projects
        ensures db.projects[p].name in result && Entitled(u, p, result[db.projects[p].name])
      {
      }
      forall n, r | May(email, n, r)
        ensures n in result && result[n] == r
      {
        MayOne(email, n, r, result[n]);
      }
    }

    /** One row more is entered, and it bears on one pair only. */
    lemma EnterRow(rest: set<nat>, i: nat)
      requires OnePerPair() && i in rest && i in db.rights
      ensures Entered(rest - {i}, db.rights[i].userId, db.rights[i].projectId, Of(db.rights[i]))
      ensures forall u, p, r :: (u != db.rights[i].userId || p != db.rights[i].projectId) && Entered(rest, u, p, r) ==>
        Entered(rest - {i}, u, p, r)
    {
      OneRow(db.rights[i].userId, db.rights[i].projectId);
      assert i in RowsFor(db.rights[i].userId, db.rights[i].projectId);
    }

    /** The second loop of get_permissions. */
    method EnterRows(u: nat, start: map<string, Rights>) returns (result: map<string, Rights>)
      requires Valid() && start.Keys == set p | p in db.projects :: db.projects[p].name
      requires forall p :: p in db.projects ==> Entered(RowsOf(u), u, p, start[db.projects[p].name])
      ensures result.Keys == start.Keys
      ensures forall p :: p in db.projects ==> Entered({}, u, p, result[db.projects[p].name])
    {
      hide Entered, OnePerPair, Storage.UniqueOk, Storage.IdsOk;
      result := start;
      var rest := RowsOf(u);
      while rest != {}
        invariant rest <= db.rights.Keys && result.Keys == start.Keys
        invariant forall i :: i in rest ==> db.rights[i].userId == u
        invariant forall p :: p in db.projects ==> Entered(rest, u, p, result[db.projects[p].name])
        decreases rest
      {
        var i :| i in rest;
        var row := db.rights[i];
        EnterRow(rest, i);
        ProjectApart(row.projectId);
        result := result[db.projects[row.projectId].name := Of(row)];
        rest := rest - {i};
      }
    }

    /** Every user without rights, or with all of them for an admin. */
    method AllUsers() returns (result: map<string, RightsEx>)
      requires Valid()
      ensures result.Keys == set u | u in db.users :: db.users[u].email
      ensures forall u :: u in db.users ==> result[db.users[u].email] == AtFirst(db.users[u])
    {
      hide Storage.UniqueOk, Storage.IdsOk;
      result := map[];
      var rest := db.users.Keys;
      while rest != {}
        invariant rest <= db.users.Keys
        invariant result.Keys == set u | u in db.users && u !in rest :: db.users[u].email
        invariant forall u :: u in db.users && u !in rest ==> result[db.users[u].email] == AtFirst(db.users[u])
        decreases rest
      {
        var u :| u in rest;
        UserApart(u);
        result := result[db.users[u].email := AtFirst(db.users[u])];
        rest := rest - {u};
      }
    }

    /** What the table of a project shows for a user, once these rows have been entered. */
    ghost predicate Shown(rest: set<nat>, user: nat, project: nat, r: RightsEx)
      requires user in db.users
      reads db`rights, db`users
    {
      && r.admin == db.users[user].admin
      && if r.admin then r.rights == ALL_RIGHTS else Entered(rest, user, project, r.rights)
    }

    /** A table in which all rows have been entered is what each user may do. */
    lemma ShownIsRight(p: nat, m: map<string, RightsEx>)
      requires Valid() && p in db.projects && m.Keys == set u | u in db.users :: db.users[u].email
      requires forall u :: u in db.users ==> Shown({}, u, p, m[db.users[u].email])
      ensures forall e :: e in m ==> May(e, db.projects[p].name, m[e].rights)
      ensures forall e, r :: May(e, db.projects[p].name, r) ==> e in m && m[e].rights == r
    {
      forall e | e in m
        ensures May(e, db.projects[p].name, m[e].rights)
      {
        var u :| u in db.users && db.users[u].email == e;
        assert Entitled(u, p, m[e].rights);
      }
      forall e, r | May(e, db.projects[p].name, r)
        ensures e in m && m[e].rights == r
      {
        MayOne(e, db.projects[p].name, r, m[e].rights);
      }
    }

    method GetPermissionsByProject(name: string) returns (result: map<string, RightsEx>)
      requires Valid()
      ensures forall e :: e in result ==> May(e, name, result[e].rights)
      ensures forall e, r :: May(e, name, r) ==> e in result && result[e].rights == r
      ensures forall u :: u in db.users && db.users[u].email in result ==>
        result[db.users[u].email].admin == db.users[u].admin
    {
      var ps := db.ProjectsByName(name);
      assert forall p :: p in db.projects && db.projects[p].name == name ==> p in ps;
      if |ps| != 1 {
        return map[];
      }
      var p :| p in ps;
      result := AllUsers();
      result := EnterUsers(p, result);
      ShownIsRight(p, result);
    }

    /** The second loop of get_permissions_by_project. */
    method EnterUsers(p: nat, start: map<string, RightsEx>) returns (result: map<string, RightsEx>)
      requires Valid() && start.Keys == set u | u in db.users :: db.users[u].email
      requires forall u :: u in db.users ==>
        Shown(RowsAbout(p), u, p, start[db.users[u].email])
      ensures result.Keys == start.Keys
      ensures forall u :: u in db.users ==> Shown({}, u, p, result[db.users[u].email])
    {
      hide Entered, OnePerPair, Storage.UniqueOk, Storage.IdsOk;
      result := start;
      var rest := RowsAbout(p);
      while rest != {}
        invariant rest <= db.rights.Keys && result.Keys == start.Keys
        invariant forall i :: i in rest ==> db.rights[i].projectId == p
        invariant forall u :: u in db.users ==> Shown(rest, u, p, result[db.users[u].email])
        decreases rest
      {
        var i :| i in rest;
        var row := db.rights[i];
        EnterRow(rest, i);
        UserApart(row.userId);
        var email := db.users[row.userId].email;
        assert Shown(rest, row.userId, p, result[email]);
        if !result[email].admin {
          result := result[email := RightsEx(false, Of(row))];
        }
        rest := rest - {i};
      }
    }

    /** Writing the row of a pair leaves the rows of every other pair alone. */
    twostate lemma OneWritten(i: nat)
      requires old(OnePerPair()) && i in db.rights && db.rights == old(db.rights)[i := db.rights[i]]
      requires var row := db.rights[i]; old(RowsFor(row.userId, row.projectId)) == if i in old(db.rights) then {i} else {}
      ensures OnePerPair()
      ensures forall u, p :: u != db.rights[i].userId || p != db.rights[i].projectId ==>
        RowsFor(u, p) == old(RowsFor(u, p))
    {
      var row := db.rights[i];
      var was := old(RowsFor(row.userId, row.projectId));
      assert forall j :: j in old(db.rights) && j != i ==> j !in was;
      assert i in old(db.rights) ==> i in was;
    }

    /** So every other pair has the answer it had. */
    twostate lemma OthersKeep(i: nat)
      requires old(Valid()) && Valid() && i in db.rights
      requires forall j :: j in old(db.rights) && j != i ==> j in db.rights && db.rights[j] == old(db.rights)[j]
      requires db.users == old(db.users) && db.projects == old(db.projects)
      requires forall u, p :: u != db.rights[i].userId || p != db.rights[i].projectId ==>
        RowsFor(u, p) == old(RowsFor(u, p))
      ensures forall e, n, r ::
        e != db.users[db.rights[i].userId].email || n != db.projects[db.rights[i].projectId].name ==>
          (May(e, n, r) <==> old(May(e, n, r)))
    {
      forall u, p, r | u != db.rights[i].userId || p != db.rights[i].projectId
        ensures Entitled(u, p, r) <==> old(Entitled(u, p, r))
      {
        assert i !in RowsFor(u, p);
      }
    }

    method SetUserProjectPermissions(email: string, name: string, rights: Rights) returns (done: bool)
      requires Valid()
      modifies db`rights, db`nextRight
      ensures Valid()
      ensures done <==>
        && (exists u :: u in db.users && db.users[u].email == email)
        && (exists p :: p in db.projects && db.projects[p].name == name)
      ensures done ==> forall u :: u in db.users && db.users[u].email == email ==>
        May(email, name, if db.users[u].admin then Rights(true, true, true) else rights)
      ensures forall e, n, r :: !done || e != email || n != name ==> (May(e, n, r) <==> old(May(e, n, r)))
      ensures !done ==> db.rights == old(db.rights)
      ensures done ==> exists u: nat, p: nat ::
        && u in db.users && db.users[u].email == email && p in db.projects && db.projects[p].name == name
        && Written(old(db.rights), db.rights, u, p, rights)
    {
      var us, ps := db.UsersByEmail(email), db.ProjectsByName(name);
      assert forall u :: u in db.users && db.users[u].email == email ==> u in us;
      assert forall p :: p in db.projects && db.projects[p].name == name ==> p in ps;
      if |us| != 1 || |ps| != 1 {
        return false;
      }
      var u :| u in us;
      var p :| p in ps;
      assert us == {u};
      hide Storage.UniqueOk, Storage.IdsOk, May;
      Write(u, p, rights);
      return true;
    }

    /** Replaces the row of the pair, or inserts one. */
    method Write(u: nat, p: nat, rights: Rights)
      requires Valid() && u in db.users && p in db.projects
      modifies db`rights, db`nextRight
      ensures Valid()
      ensures May(db.users[u].email, db.projects[p].name, if db.users[u].admin then Rights(true, true, true) else rights)
      ensures forall e, n, r :: e != db.users[u].email || n != db.projects[p].name ==>
        (May(e, n, r) <==> old(May(e, n, r)))
      ensures Written(old(db.rights), db.rights, u, p, rights)
    {
      hide Storage.UniqueOk, Storage.IdsOk, May, Entitled;
      var row := Right(u, p, rights.read, rights.write, rights.execute);
      var ids := RowsFor(u, p);
      OneRow(u, p);
      var i: nat;
      if |ids| == 1 {
        i :| i in ids;
        db.ReplaceRight(i, row);
      } else {
        i := db.InsertRight(row);
      }
      assert forall j :: j in old(db.rights) ==>
        (old(db.rights)[j].userId == u && old(db.rights)[j].projectId == p <==> j in ids);
      assert WrittenAt(old(db.rights), db.rights, i, row);
      OneWritten(i);
      OthersKeep(i);
      RowEntitles(i);
      MayBe(u, p, if db.users[u].admin then ALL_RIGHTS else rights);
    }

    /** A row says what its user may do with its project. */
    lemma RowEntitles(i: nat)
      requires Valid() && i in db.rights && db.rights[i].userId in db.users
      ensures var row := db.rights[i];
        Entitled(row.userId, row.projectId, if db.users[row.userId].admin then Rights(true, true, true) else Of(row))
    {
      hide Storage.UniqueOk, Storage.IdsOk;
      var row := db.rights[i];
      OneRow(row.userId, row.projectId);
      assert i in RowsFor(row.userId, row.projectId);
    }

    /** The three queries tell the same story. */
    method Views(email: string, name: string)
      returns (one: Option<Rights>, projects: map<string, Rights>, users: map<string, RightsEx>)
      requires Valid()
      ensures name in projects <==> email in users
      ensures name in projects ==> projects[name] == users[email].rights
      ensures name in projects ==> projects[name] == if one.Some? then one.value else Rights(false, false, false)
      ensures one.Some? ==> name in projects
    {
      hide May, Valid;
      one := CheckProjectRight(email, name);
      projects := GetPermissions(email);
      users := GetPermissionsByProject(name);
      assert name in projects ==> May(email, name, projects[name]);
      assert email in users ==> May(email, name, users[email].rights);
      assert one.Some? ==> May(email, name, one.value);
    }

    /** Rows that go, as with a user who is deleted, make no pair ambiguous. */
    twostate lemma FewerRows()
      requires old(OnePerPair())
      requires forall i :: i in db.rights ==> i in old(db.rights) && db.rights[i] == old(db.rights)[i]
      ensures OnePerPair()
    {
    }
  }
}
