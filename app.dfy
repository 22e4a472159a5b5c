/**
  The application's database connection: the two tables it keeps and the
  operations that change them (`register`, `add_expense`) or read them to
  build the report (`get_expenses`). The SQL text, the driver and `commit`
  are not modelled; each operation acts on the tables directly.
 */
module App {
  import opened Wrappers
  import opened EmailValidation
  import opened Accounts
  import opened Ledger
  import opened Collation

  class Database {
    var users: seq<User>
    var expenses: seq<Expense>

    /** Both tables, as `CREATE TABLE IF NOT EXISTS` leaves them on a fresh database file. */
    constructor ()
      ensures users == [] && expenses == []
    {
      users := [];
      expenses := [];
    }

    /**
      `register(name, email, password)`. The checks run in a fixed order and
      the first failure decides the outcome; only a success inserts. Under
      sequential calls, the uniqueness of names and emails is kept by this
      method alone; it runs as one step, with no other registration between
      its lookups and its insert.
     */
    method Register(name: string, email: string, password: string) returns (outcome: Outcome)
      modifies this
      ensures !IsValidEmail(email) ==> outcome == InvalidEmailFormat
      ensures IsValidEmail(email) && IsNameTaken(old(users), name) ==> outcome == NameAlreadyTaken
      ensures (IsValidEmail(email) && !IsNameTaken(old(users), name) && IsEmailRegistered(old(users), email))
                ==> outcome == EmailAlreadyRegistered
      ensures outcome != Success ==> users == old(users)
      ensures outcome == Success ==>
                users == old(users) + [User(NextId(old(users)), name, email, password)]
      ensures Registration(outcome, users) == Accounts.Register(old(users), name, email, password)
      ensures old(UniqueAccounts(users)) ==> UniqueAccounts(users)
      ensures expenses == old(expenses)
    {
      if UniqueAccounts(users) {
        RegisterKeepsAccountsUnique(users, name, email, password);
      }
      if !IsValidEmail(email) {
        return InvalidEmailFormat;
      }
      if IsNameTaken(users, name) {
        return NameAlreadyTaken;
      }
      if IsEmailRegistered(users, email) {
        return EmailAlreadyRegistered;
      }
      users := users + [User(NextId(users), name, email, password)];
      outcome := Success;
    }

    /** `add_expense`: appends exactly one row, unconditionally. */
    method AddExpense(userId: int, date: string, item: string, amount: real)
      modifies this
      ensures expenses == old(expenses) + [Expense(userId, date, item, amount)]
      ensures users == old(users)
    {
      expenses := expenses + [Expense(userId, date, item, amount)];
    }

    /**
      `get_expenses(user_id, start_date, end_date)`: the owner filter always,
      the date range only when both bounds are truthy. Reads the table only.
     */
    method GetExpenses(userId: int, startDate: Option<string>, endDate: Option<string>)
      returns (rows: seq<Row>)
      ensures forall r :: r in rows <==>
                exists i :: 0 <= i < |expenses| && expenses[i].userId == userId
                            && (Truthy(startDate) && Truthy(endDate) ==>
                                  TextLe(startDate.value, expenses[i].date) && TextLe(expenses[i].date, endDate.value))
                            && Project(expenses[i]) == r
      ensures !(Truthy(startDate) && Truthy(endDate)) ==> rows == Select(expenses, Query(userId, None))
      ensures Truthy(startDate) && Truthy(endDate) ==>
                rows == Select(expenses, Query(userId, Some(DateRange(startDate.value, endDate.value))))
    {
      var query := Query(userId, None);
      if Truthy(startDate) && Truthy(endDate) {
        query := Query(userId, Some(DateRange(startDate.value, endDate.value)));
      }
      rows := Select(expenses, query);
      assert forall i :: 0 <= i < |expenses| ==>
               (Selects(query, expenses[i]) <==>
                  expenses[i].userId == userId
                  && (Truthy(startDate) && Truthy(endDate) ==>
                        TextLe(startDate.value, expenses[i].date) && TextLe(expenses[i].date, endDate.value)));
    }
  }

  /**
    Registration as the form drives it, for any well-formed emails: a first
    registration succeeds, a second one with the same name or the same email
    is refused, and the registered credentials log in as the new user while
    another password does not.
   */
  method RegistrationScenario(name: string, email: string, password: string,
                              otherName: string, otherEmail: string, otherPassword: string)
    requires IsValidEmail(email) && IsValidEmail(otherEmail)
    requires otherName != name && otherPassword != password
  {
    var db := new Database();
    var first := db.Register(name, email, password);
    TakenIffStored([], name, email);
    assert first == Success;
    assert NextId([]) == 1;
    var table := db.users;
    assert table == [User(1, name, email, password)];
    SecondRegistrationRefused([], name, email, password, otherName, otherEmail, otherPassword);
    TakenIffStored(table, otherName, email);
    var sameName := db.Register(name, otherEmail, otherPassword);
    assert sameName == NameAlreadyTaken;
    var sameEmail := db.Register(otherName, email, otherPassword);
    assert sameEmail == EmailAlreadyRegistered;
    assert db.users == table;
    LoginAfterRegister([], name, email, password);
    assert Login(db.users, email, password) == Some(1);
    LoginFindsOwner(db.users, 0, otherPassword);
    assert Login(db.users, email, otherPassword) == None;
  }

  /** The report as the form drives it: one expense, then queries over two ranges and without one. */
  method ReportScenario(id: int)
  {
    var db := new Database();
    db.AddExpense(id, "2024-01-01", "coffee", 3.5);
    FirstExpenseExample([], id);
    var january := db.GetExpenses(id, Some("2024-01-01"), Some("2024-01-31"));
    assert january == [Row("2024-01-01", "coffee", 3.5)];
    var february := db.GetExpenses(id, Some("2024-02-01"), Some("2024-02-28"));
    assert february == [];
    var unbounded := db.GetExpenses(id, Some(""), Some("2024-01-31"));
    assert Row("2024-01-01", "coffee", 3.5) in unbounded;
  }
}
