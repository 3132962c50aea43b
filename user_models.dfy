/**
 * The user table of users/models.py:10-31 and the ORM queries the forms and views run
 * against it.  Rows are keyed by the UUID primary key; the model's Meta ordering is
 * `['-id']`, so `.first()` of a filter is the matching row with the largest id.
 */
module UserModels {
  import opened Wrappers

  type UserId = nat

  /** The columns of a user the account flow reads or writes. */
  datatype User = User(username: string, email: string, password: string, isActive: bool, avatar: string)

  type Table = map<UserId, User>

  /** The avatar column's default (users/models.py:17). */
  const DefaultAvatar := "default.jpg"

  /** The database's unique constraint on the username column of Django's user model. */
  ghost predicate UniqueUsernames(users: Table) {
    forall a, b :: a in users && b in users && users[a].username == users[b].username ==> a == b
  }

  /** `User.objects.filter(username=name).exists()` */
  predicate UsernameTaken(users: Table, name: string) {
    exists id :: id in users && users[id].username == name
  }

  /** `User.objects.filter(email=email).exists()` */
  predicate EmailTaken(users: Table, email: string) {
    exists id :: id in users && users[id].email == email
  }

  lemma {:induction false} MaxExists(s: set<nat>)
    requires s != {}
    ensures exists m :: m in s && forall x :: x in s ==> x <= m
  {
    var y :| y in s;
    if s != {y} {
      MaxExists(s - {y});
      var m :| m in s - {y} && forall x :: x in s - {y} ==> x <= m;
      var top := if m < y then y else m;
      forall x | x in s
        ensures x <= top
      {
        if x != y {
          assert x in s - {y};
        }
      }
      assert top in s;
    } else {
      assert forall x :: x in s ==> x <= y;
    }
  }

  /** The largest element of a non-empty set of ids. */
  function Largest(s: set<UserId>): (m: UserId)
    requires s != {}
    ensures m in s && forall x :: x in s ==> x <= m
  {
    MaxExists(s);
    var m :| m in s && forall x :: x in s ==> x <= m;
    m
  }

  /** The first row, in `-id` order, among those with the given ids. */
  function First(ids: set<UserId>): (r: Option<UserId>)
    ensures r.None? <==> ids == {}
    ensures r.Some? ==> r.value in ids && forall x :: x in ids ==> x <= r.value
  {
    if ids == {} then None else Some(Largest(ids))
  }

  /** `User.objects.filter(username=name).first()` */
  function FirstByUsername(users: Table, name: string): (r: Option<UserId>)
    ensures r.None? <==> !UsernameTaken(users, name)
    ensures r.Some? ==> r.value in users && users[r.value].username == name
  {
    var ids := set id | id in users && users[id].username == name;
    assert UsernameTaken(users, name) ==> ids != {} by {
      if UsernameTaken(users, name) {
        var id :| id in users && users[id].username == name;
        assert id in ids;
      }
    }
    First(ids)
  }

  /** `User.objects.filter(email=email).first()`: the newest-id user among those sharing the email. */
  function FirstByEmail(users: Table, email: string): (r: Option<UserId>)
    ensures r.None? <==> !EmailTaken(users, email)
    ensures r.Some? ==> r.value in users && users[r.value].email == email
    ensures r.Some? ==> forall id :: id in users && users[id].email == email ==> id <= r.value
  {
    var ids := set id | id in users && users[id].email == email;
    assert EmailTaken(users, email) ==> ids != {} by {
      if EmailTaken(users, email) {
        var id :| id in users && users[id].email == email;
        assert id in ids;
      }
    }
    assert forall id :: id in users && users[id].email == email ==> id in ids;
    First(ids)
  }

  /**
   * The login view's lookup (users/views.py:84): by username first, and only when no user
   * has that username, by email.
   */
  function FindAccount(users: Table, login: string): (r: Option<UserId>)
    ensures r.None? <==> !UsernameTaken(users, login) && !EmailTaken(users, login)
    ensures r.Some? ==> r.value in users
    ensures r.Some? ==> users[r.value].username == login || users[r.value].email == login
    ensures UsernameTaken(users, login) ==> r.Some? && users[r.value].username == login
  {
    match FirstByUsername(users, login)
    case Some(id) => Some(id)
    case None => FirstByEmail(users, login)
  }

  /** Under the unique constraint, a username names exactly the one user that holds it. */
  lemma FindAccountByOwnUsername(users: Table, id: UserId)
    requires UniqueUsernames(users) && id in users
    ensures FindAccount(users, users[id].username) == Some(id)
  {
  }
}
