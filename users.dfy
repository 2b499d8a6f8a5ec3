/**
 * The user table and the pure decisions made over it: the email lookups
 * `validate_email` and `get_auth_grade`, and the login check.
 * `filter_by(email=...).first()` is the first row, in table order, whose
 * email is exactly the given string.
 */
module Users {
  import opened Wrappers
  import Grades

  /** A row of the `User` table (the join date is not modelled). */
  datatype User = User(id: int, fullName: string, password: string, email: string, authGrade: int)

  /** Row `i` is the first row whose email is `email`. */
  predicate IsFirstWithEmail(users: seq<User>, i: int, email: string) {
    0 <= i < |users| && users[i].email == email &&
    forall j :: 0 <= j < i ==> users[j].email != email
  }

  /** Position of `User.query.filter_by(email=email).first()`, if there is such a row. */
  function FirstWithEmail(users: seq<User>, email: string): (r: Option<nat>)
    ensures r.None? <==> forall u :: u in users ==> u.email != email
    ensures r.Some? ==> IsFirstWithEmail(users, r.value, email)
  {
    if users == [] then None
    else if users[0].email == email then Some(0)
    else match FirstWithEmail(users[1..], email)
      case None =>
        assert users == [users[0]] + users[1..];
        None
      case Some(k) => Some(k + 1)
  }

  /** `validate_email`: the email is free exactly when no row carries it. */
  function ValidateEmail(users: seq<User>, email: string): (free: bool)
    ensures free <==> forall u :: u in users ==> u.email != email
  {
    FirstWithEmail(users, email).None?
  }

  /** `get_auth_grade`: the grade of the first row with this email, or NONE's code when there is none. */
  function GetAuthGrade(users: seq<User>, email: string): (g: int)
    ensures (forall u :: u in users ==> u.email != email) ==> g == Grades.NoGradeCode
    ensures forall i :: IsFirstWithEmail(users, i, email) ==> g == users[i].authGrade
  {
    match FirstWithEmail(users, email)
    case None => Grades.NoGradeCode
    case Some(k) => users[k].authGrade
  }

  /**
   * The login decision: the user a session is opened for, if any. Only the
   * first row with the email is tried, and its stored hash must pass
   * `check(stored_hash, password)` (bcrypt's `check_password_hash`).
   */
  function Login(users: seq<User>, email: string, password: string, check: (string, string) -> bool): (session: Option<User>)
    ensures session.Some? ==>
      session.value in users && session.value.email == email && check(session.value.password, password)
    ensures session.Some? ==> exists i :: IsFirstWithEmail(users, i, email) && session.value == users[i]
    ensures session.None? <==>
      (forall u :: u in users ==> u.email != email) ||
      (exists i :: IsFirstWithEmail(users, i, email) && !check(users[i].password, password))
  {
    match FirstWithEmail(users, email)
    case None => None
    case Some(k) => if check(users[k].password, password) then Some(users[k]) else None
  }

  /**
   * The table has no uniqueness constraint, so two rows may share an email;
   * login then opens a session for the earlier row, never the later one.
   */
  lemma DuplicateEmailLogsInFirstRow(password: string, check: (string, string) -> bool)
    requires check("h", password)
    ensures Login([User(1, "A", "h", "e", 1), User(2, "B", "h", "e", 2)], "e", password, check)
            == Some(User(1, "A", "h", "e", 1))
  {
    var users := [User(1, "A", "h", "e", 1), User(2, "B", "h", "e", 2)];
    assert IsFirstWithEmail(users, 0, "e");
  }

  /** No two rows share an email. */
  ghost predicate UniqueEmails(users: seq<User>) {
    forall i, j :: 0 <= i < j < |users| ==> users[i].email != users[j].email
  }

  /** With unique emails the row carrying an email is the first one carrying it. */
  lemma UniqueRowIsFirst(users: seq<User>, i: nat)
    requires UniqueEmails(users) && i < |users|
    ensures IsFirstWithEmail(users, i, users[i].email)
  {
  }

  /** Appending a row keeps emails unique exactly when `validate_email` accepts its email. */
  lemma AppendKeepsUnique(users: seq<User>, u: User)
    ensures UniqueEmails(users + [u]) <==> UniqueEmails(users) && ValidateEmail(users, u.email)
  {
    var s := users + [u];
    assert forall i :: 0 <= i < |users| ==> s[i] == users[i];
    if UniqueEmails(s) {
      forall v | v in users ensures v.email != u.email {
        var i :| 0 <= i < |users| && users[i] == v;
        assert s[i] == v && s[|users|] == u;
      }
    }
  }

  /** With unique emails, `get_auth_grade` returns the grade of the one row with that email. */
  lemma GradeOfRegisteredUser(users: seq<User>, u: User)
    requires UniqueEmails(users) && u in users
    ensures GetAuthGrade(users, u.email) == u.authGrade
  {
    var i :| 0 <= i < |users| && users[i] == u;
    UniqueRowIsFirst(users, i);
  }

  /**
   * With unique emails, login succeeds exactly when some user has this email
   * and the hash check of that user's stored hash against the password passes.
   */
  lemma LoginIffCredentialsMatch(users: seq<User>, email: string, password: string, check: (string, string) -> bool)
    requires UniqueEmails(users)
    ensures Login(users, email, password, check).Some? <==>
      exists u :: u in users && u.email == email && check(u.password, password)
  {
    if u :| u in users && u.email == email && check(u.password, password) {
      var i :| 0 <= i < |users| && users[i] == u;
      UniqueRowIsFirst(users, i);
      assert Login(users, email, password, check).Some?;
    }
  }

  /**
   * A user appended under a fresh email can log in with the password whose
   * hash is stored, provided the hash check accepts it.
   */
  lemma LoginAfterRegister(users: seq<User>, u: User, password: string, check: (string, string) -> bool)
    requires ValidateEmail(users, u.email)
    requires check(u.password, password)
    ensures Login(users + [u], u.email, password, check) == Some(u)
  {
    var s := users + [u];
    assert IsFirstWithEmail(s, |users|, u.email) by {
      forall j | 0 <= j < |users| ensures s[j].email != u.email {
        assert s[j] in users;
      }
    }
  }
}
