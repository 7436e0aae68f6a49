/**
 * The admin-user table with registration (unique e-mail) and the login
 * decision. BCrypt is represented by the parameters `hash` (a fresh salted
 * hash of a password) and `verify` (does a password match a stored hash);
 * the signed token is `issue(admin)`.
 */
module Auth {
  import Rows

  datatype AdminUser = AdminUser(id: int, username: string, email: string, password: string)

  function AdminId(u: AdminUser): int { u.id }

  /** The e-mail column, the key of the login lookup
      (`FirstOrDefaultAsync(u => u.Email == email)`). */
  function AdminEmail(u: AdminUser): string { u.email }

  /** `RegisterAsync`: `true`, or the "Email already exists" exception. */
  datatype RegisterResult = Registered | EmailConflict

  /** `LoginAsync`: a token, or the "Invalid email or password" exception. */
  datatype LoginResult = Token(token: string) | Unauthorized

  /** No two admins share an e-mail address. */
  ghost predicate DistinctEmails(users: seq<AdminUser>) {
    forall i, j :: 0 <= i < j < |users| ==> users[i].email != users[j].email
  }

  class AuthService {
    /** The admin-user table, in insertion (= ascending id) order. */
    var users: seq<AdminUser>
    /** The next value of the identity column. */
    var nextId: int

    ghost predicate Valid()
      reads this
    {
      && DistinctEmails(users)
      && Rows.IncreasingKeys(users, AdminId)
      && 0 < nextId
      && (forall k :: 0 <= k < |users| ==> 0 < users[k].id < nextId)
    }

    constructor ()
      ensures Valid() && users == [] && nextId == 1
    {
      users, nextId := [], 1;
    }

    /** Rejects an e-mail already registered, leaving the table as it was;
        otherwise adds one admin with the hashed password. E-mails stay
        distinct either way. */
    method Register(username: string, email: string, password: string, hash: string -> string)
      returns (r: RegisterResult)
      requires Valid()
      modifies this
      ensures Valid()
      ensures r == EmailConflict <==> Rows.HasKey(old(users), AdminEmail, email)
      ensures r == EmailConflict ==> users == old(users) && nextId == old(nextId)
      ensures r == Registered ==>
        && users == old(users) + [AdminUser(old(nextId), username, email, hash(password))]
        && nextId == old(nextId) + 1
    {
      if Rows.FindIndex(users, AdminEmail, email) != -1 {
        return EmailConflict;
      }
      var admin := AdminUser(nextId, username, email, hash(password));
      users := users + [admin];
      nextId := nextId + 1;
      r := Registered;
    }
  }

  /** `LoginAsync` on the admin table `users`: looks up the first admin with
      the e-mail address and checks the password against its stored hash;
      issues a token for that admin. */
  function Login(users: seq<AdminUser>, email: string, password: string,
                 verify: (string, string) -> bool, issue: AdminUser -> string): (r: LoginResult)
    ensures !Rows.HasKey(users, AdminEmail, email) ==> r == Unauthorized
    ensures r.Token? ==> exists k :: 0 <= k < |users| && users[k].email == email
                                     && verify(password, users[k].password) && r.token == issue(users[k])
    ensures forall k ::
      (&& 0 <= k < |users| && users[k].email == email && !verify(password, users[k].password)
       && (forall j :: 0 <= j < k ==> users[j].email != email))
      ==> r == Unauthorized
  {
    var k := Rows.FindIndex(users, AdminEmail, email);
    if k == -1 || !verify(password, users[k].password) then Unauthorized
    else Token(issue(users[k]))
  }

  /** With e-mails unique, login succeeds exactly when some admin has the
      e-mail and the password verifies against that admin's hash, and the
      token is that admin's. */
  lemma LoginSucceedsIff(users: seq<AdminUser>, email: string, password: string,
                         verify: (string, string) -> bool, issue: AdminUser -> string)
    requires DistinctEmails(users)
    ensures Login(users, email, password, verify, issue).Token? <==>
      exists k :: 0 <= k < |users| && users[k].email == email && verify(password, users[k].password)
    ensures forall k :: 0 <= k < |users| && users[k].email == email && verify(password, users[k].password) ==>
      Login(users, email, password, verify, issue) == Token(issue(users[k]))
  {
    var first := Rows.FindIndex(users, AdminEmail, email);
    forall k | 0 <= k < |users| && users[k].email == email
      ensures k == first
    {
      assert first != -1;
    }
  }

  /** After a successful registration, logging in with the same e-mail and
      password yields a token for the new admin, provided `verify` accepts
      a password against a fresh hash of it. */
  lemma LoginAfterRegister(users: seq<AdminUser>, id: int, username: string, email: string, password: string,
                           hash: string -> string, verify: (string, string) -> bool, issue: AdminUser -> string)
    requires !Rows.HasKey(users, AdminEmail, email)
    requires verify(password, hash(password))
    ensures Login(users + [AdminUser(id, username, email, hash(password))], email, password, verify, issue)
            == Token(issue(AdminUser(id, username, email, hash(password))))
  {
    var added := AdminUser(id, username, email, hash(password));
    var after := users + [added];
    assert after[|users|] == added;
    assert forall k :: 0 <= k < |users| ==> after[k] == users[k];
    assert Rows.FindIndex(after, AdminEmail, email) == |users|;
  }
}
