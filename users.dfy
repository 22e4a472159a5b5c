/**
  The `users` table and the read-only lookups on it: `is_name_taken`,
  `is_email_registered` and `login`, plus the registration rule that decides
  what `register` does. The table is a sequence of rows in insertion order;
  a `SELECT id ... WHERE ...` followed by `fetchone()` returns the id of the
  first matching row, or nothing.
 */
module Accounts {
  import opened Wrappers
  import opened EmailValidation

  /** One row of `users(id INTEGER PRIMARY KEY, name, email, password)`; the password is stored as given. */
  datatype User = User(id: int, name: string, email: string, password: string)

  /** The `WHERE` clauses the lookups use. */
  datatype Where =
    | NameIs(name: string)
    | EmailIs(email: string)
    | Credentials(email: string, password: string)

  /** Exact, case-sensitive comparison of the stored text, as `=` does. */
  predicate Matches(u: User, w: Where) {
    match w
    case NameIs(n) => u.name == n
    case EmailIs(e) => u.email == e
    case Credentials(e, p) => u.email == e && u.password == p
  }

  /** Position of the first row the clause selects, if any. */
  function FirstMatch(users: seq<User>, w: Where): (r: Option<nat>)
    ensures r.None? <==> forall i :: 0 <= i < |users| ==> !Matches(users[i], w)
    ensures r.Some? ==> r.value < |users| && Matches(users[r.value], w)
    ensures r.Some? ==> forall j :: 0 <= j < r.value ==> !Matches(users[j], w)
  {
    if users == [] then None
    else if Matches(users[0], w) then Some(0)
    else match FirstMatch(users[1..], w)
      case None => None
      case Some(k) => Some(k + 1)
  }

  /** `SELECT id FROM users WHERE ...` followed by `fetchone()`. */
  function SelectId(users: seq<User>, w: Where): (id: Option<int>)
    ensures id.Some? <==> exists i :: 0 <= i < |users| && Matches(users[i], w)
    ensures id.Some? ==> exists i :: 0 <= i < |users| && Matches(users[i], w) && users[i].id == id.value
  {
    match FirstMatch(users, w)
    case None => None
    case Some(i) => Some(users[i].id)
  }

  /** `is_name_taken`: some stored user has exactly this name. */
  predicate IsNameTaken(users: seq<User>, name: string)
  {
    SelectId(users, NameIs(name)).Some?
  }

  /** `is_email_registered`: some stored user has exactly this email. */
  predicate IsEmailRegistered(users: seq<User>, email: string)
  {
    SelectId(users, EmailIs(email)).Some?
  }

  /** The lookups answer yes exactly when a row with that name, resp. email, is stored. */
  lemma TakenIffStored(users: seq<User>, name: string, email: string)
    ensures IsNameTaken(users, name) <==> exists i :: 0 <= i < |users| && users[i].name == name
    ensures IsEmailRegistered(users, email) <==> exists i :: 0 <= i < |users| && users[i].email == email
  {
    if exists i :: 0 <= i < |users| && users[i].name == name {
      var i :| 0 <= i < |users| && users[i].name == name;
      assert Matches(users[i], NameIs(name));
    }
    if exists i :: 0 <= i < |users| && users[i].email == email {
      var i :| 0 <= i < |users| && users[i].email == email;
      assert Matches(users[i], EmailIs(email));
    }
  }

  /**
    `login`: the id of a stored user whose email and password both equal the
    input exactly, or nothing when there is none.
   */
  function Login(users: seq<User>, email: string, password: string): (id: Option<int>)
    ensures id.Some? <==> exists i :: 0 <= i < |users| && users[i].email == email && users[i].password == password
    ensures id.Some? ==> exists i :: 0 <= i < |users| && users[i].email == email && users[i].password == password
                                   && users[i].id == id.value
  {
    var r := SelectId(users, Credentials(email, password));
    assert forall i :: 0 <= i < |users| ==>
             (Matches(users[i], Credentials(email, password)) <==> users[i].email == email && users[i].password == password);
    r
  }

  /** Largest id in a non-empty table. */
  function MaxId(users: seq<User>): (m: int)
    requires |users| > 0
    ensures forall i :: 0 <= i < |users| ==> users[i].id <= m
    ensures exists i :: 0 <= i < |users| && users[i].id == m
  {
    if |users| == 1 then users[0].id
    else
      var m := MaxId(users[1..]);
      assert exists i :: 1 <= i < |users| && users[i].id == m by {
        var k :| 0 <= k < |users[1..]| && users[1..][k].id == m;
        assert users[k + 1].id == m;
      }
      if users[0].id > m then users[0].id else m
  }

  /**
    The id an `INTEGER PRIMARY KEY` row receives when the insert names none:
    one more than the largest id present, 1 in an empty table. It is at least
    1 whenever no stored id is negative, as in every table `register` builds.
   */
  function NextId(users: seq<User>): (id: int)
    ensures users == [] ==> id == 1
    ensures forall i :: 0 <= i < |users| ==> users[i].id < id
    ensures users != [] ==> exists i :: 0 <= i < |users| && users[i].id == id - 1
    ensures (forall i :: 0 <= i < |users| ==> users[i].id >= 0) ==> id >= 1
  {
    if users == [] then 1 else MaxId(users) + 1
  }

  /** What `register` returns; `Message` gives the text `register` returns for each. */
  datatype Outcome = Success | InvalidEmailFormat | NameAlreadyTaken | EmailAlreadyRegistered

  function Message(o: Outcome): string {
    match o
    case Success => "Success"
    case InvalidEmailFormat => "Invalid email format!"
    case NameAlreadyTaken => "Name already taken! Please choose another."
    case EmailAlreadyRegistered => "Email already registered!"
  }

  /** The form tells success from failure by comparing the text with "Success". */
  lemma MessageIsSuccessOnlyForSuccess(o: Outcome)
    ensures Message(o) == "Success" <==> o == Success
  {
    match o
    case Success =>
    case InvalidEmailFormat => assert |Message(o)| != |"Success"|;
    case NameAlreadyTaken => assert |Message(o)| != |"Success"|;
    case EmailAlreadyRegistered => assert |Message(o)| != |"Success"|;
  }

  /** The result of `register`: its outcome and the table afterwards. */
  datatype Registration = Registration(outcome: Outcome, table: seq<User>)

  /**
    `register`: the email check, then the name lookup, then the email lookup;
    the first that fails decides the outcome and nothing is inserted.
    Otherwise one row is appended with the next free id. `Database.Register`
    runs these steps on the table it holds and is proved equal to this
    function; the function exists so that lemmas, which cannot call a method,
    can speak of several registrations in a row.
   */
  function Register(users: seq<User>, name: string, email: string, password: string): Registration
  {
    if !IsValidEmail(email) then Registration(InvalidEmailFormat, users)
    else if IsNameTaken(users, name) then Registration(NameAlreadyTaken, users)
    else if IsEmailRegistered(users, email) then Registration(EmailAlreadyRegistered, users)
    else Registration(Success, users + [User(NextId(users), name, email, password)])
  }

  /** No two rows share a name, an email or an id. */
  ghost predicate UniqueAccounts(users: seq<User>) {
    forall i, j :: 0 <= i < j < |users| ==>
      users[i].name != users[j].name && users[i].email != users[j].email && users[i].id != users[j].id
  }

  /**
    The table carries no UNIQUE constraint on name or email: under sequential
    calls, uniqueness holds only because `register` is the one insert path and
    checks before it inserts. Two registrations interleaved between their
    lookups and their inserts are not covered.
   */
  lemma RegisterKeepsAccountsUnique(users: seq<User>, name: string, email: string, password: string)
    requires UniqueAccounts(users)
    ensures UniqueAccounts(Register(users, name, email, password).table)
  {
    var reg := Register(users, name, email, password);
    if reg.outcome == Success {
      TakenIffStored(users, name, email);
      var t := reg.table;
      forall i, j | 0 <= i < j < |t|
        ensures t[i].name != t[j].name && t[i].email != t[j].email && t[i].id != t[j].id
      {
        if j == |users| {
          assert t[i] == users[i];
        }
      }
    }
  }

  /** Registration never stores an id below 1 in a table that held none. */
  lemma RegisterKeepsIdsPositive(users: seq<User>, name: string, email: string, password: string)
    requires forall i :: 0 <= i < |users| ==> users[i].id >= 1
    ensures var t := Register(users, name, email, password).table;
            forall i :: 0 <= i < |t| ==> t[i].id >= 1
  {
  }

  /** A table whose ids are all negative continues from its largest id, as SQLite does. */
  lemma NextIdAfterNegativeIds()
    ensures NextId([User(-5, "a", "a@b.co", "p"), User(-9, "b", "b@b.co", "q")]) == -4
  {
  }

  /**
    A successful registration appends exactly one user with the given name,
    email and password under an id no stored user had; a failed one leaves the
    table as it was.
   */
  lemma RegisterAppendsOneFreshUser(users: seq<User>, name: string, email: string, password: string)
    ensures var reg := Register(users, name, email, password);
            if reg.outcome == Success then
              && |reg.table| == |users| + 1
              && reg.table[..|users|] == users
              && var u := reg.table[|users|];
                 u.name == name && u.email == email && u.password == password
                 && forall i :: 0 <= i < |users| ==> users[i].id != u.id
            else reg.table == users
  {
    var reg := Register(users, name, email, password);
    if reg.outcome == Success {
      assert reg.table[..|users|] == users;
    }
  }

  /** Logging in with the credentials just registered yields the new user's id. */
  lemma LoginAfterRegister(users: seq<User>, name: string, email: string, password: string)
    requires Register(users, name, email, password).outcome == Success
    ensures Login(Register(users, name, email, password).table, email, password) == Some(NextId(users))
  {
    var t := Register(users, name, email, password).table;
    TakenIffStored(users, name, email);
    var w := Credentials(email, password);
    assert Matches(t[|users|], w);
    forall j | 0 <= j < |users| ensures !Matches(t[j], w) {
      assert t[j] == users[j];
    }
    var r := FirstMatch(t, w);
    assert r == Some(|users|);
  }

  /**
    When emails are unique, the stored credentials of a user log in as that
    user, and any other password for that email is refused.
   */
  lemma LoginFindsOwner(users: seq<User>, i: nat, password: string)
    requires UniqueAccounts(users)
    requires i < |users|
    ensures Login(users, users[i].email, password) ==
              if password == users[i].password then Some(users[i].id) else None
  {
    var w := Credentials(users[i].email, password);
    forall j | 0 <= j < |users| && j != i ensures !Matches(users[j], w) {
      assert users[j].email != users[i].email;
    }
    if password == users[i].password {
      assert FirstMatch(users, w) == Some(i);
    } else {
      assert !Matches(users[i], w);
    }
  }

  /**
    After a successful registration, registering the same name again is
    refused as a taken name (whatever the email, once it is well formed), and
    registering the same email under a name nobody has is refused as a
    registered email.
   */
  lemma SecondRegistrationRefused(users: seq<User>, name: string, email: string, password: string,
                                  otherName: string, otherEmail: string, otherPassword: string)
    requires Register(users, name, email, password).outcome == Success
    ensures var t := Register(users, name, email, password).table;
            && (IsValidEmail(otherEmail) ==>
                  Register(t, name, otherEmail, otherPassword).outcome == NameAlreadyTaken)
            && (!IsNameTaken(t, otherName) ==>
                  Register(t, otherName, email, otherPassword).outcome == EmailAlreadyRegistered)
  {
    var t := Register(users, name, email, password).table;
    TakenIffStored(t, name, email);
    assert t[|users|].name == name && t[|users|].email == email;
  }
}
