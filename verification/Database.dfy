// The tables of database.h: unique columns, references with cascading deletes, and
// row ids that are never used twice.

module Database {

  datatype User = User(email: string, pass: string, admin: bool)
  datatype Project = Project(name: string, deleted: bool)
  datatype Right = Right(userId: nat, projectId: nat, read: bool, write: bool, execute: bool)
  datatype Token = Token(userId: nat, value: string, expires: int)

  /** The rows a cascading delete leaves. */
  function RightsWithout(rights: map<nat, Right>, user: nat): map<nat, Right> {
    map i | i in rights && rights[i].userId != user :: rights[i]
  }

  function TokensWithout(tokens: map<nat, Token>, user: nat): map<nat, Token> {
    map i | i in tokens && tokens[i].userId != user :: tokens[i]
  }

  class Storage {
    var users: map<nat, User>
    var projects: map<nat, Project>
    var rights: map<nat, Right>
    var tokens: map<nat, Token>
    var nextUser: nat
    var nextProject: nat
    var nextRight: nat
    var nextToken: nat

    ghost predicate IdsOk()
      reads this
    {
      && (forall i :: i in users ==> i < nextUser)
      && (forall i :: i in projects ==> i < nextProject)
      && (forall i :: i in rights ==> i < nextRight)
      && (forall i :: i in tokens ==> i < nextToken)
    }

    ghost predicate UniqueOk()
      reads this
    {
      && (forall i, j :: i in users && j in users && users[i].email == users[j].email ==> i == j)
      && (forall i, j :: i in projects && j in projects && projects[i].name == projects[j].name ==> i == j)
      && (forall i, j :: i in tokens && j in tokens && tokens[i].value == tokens[j].value ==> i == j)
    }

    ghost predicate ReferencesOk()
      reads this
    {
      && (forall i :: i in rights ==> rights[i].userId in users && rights[i].projectId in projects)
      && (forall i :: i in tokens ==> tokens[i].userId in users)
    }

    ghost predicate Valid()
      reads this
    {
      IdsOk() && UniqueOk() && ReferencesOk()
    }

    constructor ()
      ensures Valid() && users == map[] && projects == map[] && rights == map[] && tokens == map[]
    {
      users, projects, rights, tokens := map[], map[], map[], map[];
      nextUser, nextProject, nextRight, nextToken := 0, 0, 0, 0;
    }

    /** The rows a condition on the email selects: at most one, as emails are unique. */
    function UsersByEmail(email: string): (ids: set<nat>)
      requires Valid()
      reads this
      ensures |ids| <= 1
      ensures forall i, j :: i in ids && j in ids ==> i == j
    {
      var ids := set i | i in users && users[i].email == email;
      AtMostOne(ids);
      ids
    }

    function ProjectsByName(name: string): (ids: set<nat>)
      requires Valid()
      reads this
      ensures |ids| <= 1
    {
      var ids := set i | i in projects && projects[i].name == name;
      AtMostOne(ids);
      ids
    }

    function TokensByValue(value: string): (ids: set<nat>)
      requires Valid()
      reads this
      ensures |ids| <= 1
    {
      var ids := set i | i in tokens && tokens[i].value == value;
      AtMostOne(ids);
      ids
    }

    method InsertUser(row: User) returns (id: nat)
      requires Valid() && UsersByEmail(row.email) == {}
      modifies `users, `nextUser
      ensures Valid() && id !in old(users) && users == old(users)[id := row]
    {
      assert forall i :: i in users ==> i in UsersByEmail(users[i].email);
      id := nextUser;
      users, nextUser := users[id := row], nextUser + 1;
    }

    method UpdateUser(id: nat, row: User)
      requires Valid() && id in users && row.email == users[id].email
      modifies `users
      ensures Valid() && users == old(users)[id := row]
    {
      users := users[id := row];
    }

    /** Deleting a user takes its rights and tokens along. */
    method RemoveUser(id: nat)
      requires Valid()
      modifies `users, `rights, `tokens
      ensures Valid() && users == old(users) - {id}
      ensures rights == RightsWithout(old(rights), id)
      ensures tokens == TokensWithout(old(tokens), id)
    {
      users := users - {id};
      rights := RightsWithout(rights, id);
      tokens := TokensWithout(tokens, id);
    }

    /** Fails on a value that is in the table. */
    method InsertToken(row: Token) returns (inserted: bool)
      requires Valid() && row.userId in users
      modifies `tokens, `nextToken
      ensures Valid() && inserted == (old(TokensByValue(row.value)) == {})
      ensures !inserted ==> tokens == old(tokens)
      ensures inserted ==> exists id: nat :: id !in old(tokens) && tokens == old(tokens)[id := row]
    {
      inserted := TokensByValue(row.value) == {};
      if inserted {
        assert forall i :: i in tokens ==> i in TokensByValue(tokens[i].value);
        var id := nextToken;
        tokens, nextToken := tokens[id := row], nextToken + 1;
        assert id !in old(tokens) && tokens == old(tokens)[id := row];
      }
    }

    method RemoveTokens(ids: set<nat>)
      requires Valid()
      modifies `tokens
      ensures Valid() && tokens == old(tokens) - ids
    {
      tokens := tokens - ids;
    }

    method InsertProject(row: Project) returns (id: nat)
      requires Valid() && ProjectsByName(row.name) == {}
      modifies `projects, `nextProject
      ensures Valid() && id !in old(projects) && projects == old(projects)[id := row]
    {
      assert forall i :: i in projects ==> i in ProjectsByName(projects[i].name);
      id := nextProject;
      projects, nextProject := projects[id := row], nextProject + 1;
    }

    method UpdateProject(id: nat, row: Project)
      requires Valid() && id in projects && row.name == projects[id].name
      modifies `projects
      ensures Valid() && projects == old(projects)[id := row]
    {
      projects := projects[id := row];
    }

    method InsertRight(row: Right) returns (id: nat)
      requires Valid() && row.userId in users && row.projectId in projects
      modifies `rights, `nextRight
      ensures Valid() && id !in old(rights) && rights == old(rights)[id := row]
    {
      id := nextRight;
      rights, nextRight := rights[id := row], nextRight + 1;
    }

    method ReplaceRight(id: nat, row: Right)
      requires Valid() && id in rights && row.userId in users && row.projectId in projects
      modifies `rights
      ensures Valid() && rights == old(rights)[id := row]
    {
      rights := rights[id := row];
    }
  }

  lemma AtMostOne(ids: set<nat>)
    requires forall i, j :: i in ids && j in ids ==> i == j
    ensures |ids| <= 1
  {
    if i :| i in ids {
      assert ids == {i};
    }
  }

  /** A set with one member has the member asked for. */
  lemma TheOne(ids: set<nat>, i: nat)
    requires |ids| <= 1 && i in ids
    ensures ids == {i}
  {
    assert |ids - {i}| == |ids| - 1;
  }
}
