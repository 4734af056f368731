/** The insert-if-absent logic on the configuration tables: registration
    (app.py:50-57), login (app.py:65-68), the company list (app.py:32) and
    adding a company (app.py:133-136). */
module Accounts {
  import opened Wrappers
  import opened Records
  import opened Tables

  /** Some row of `users` carries `email`. */
  predicate EmailRegistered(users: seq<User>, email: string) {
    exists i :: 0 <= i < |users| && users[i].email == email
  }

  /** No two rows of `users` share an email. */
  ghost predicate EmailsUnique(users: seq<User>) {
    forall i, j :: 0 <= i < j < |users| ==> users[i].email != users[j].email
  }

  /** Registering `u`. `users_df['email']` raises KeyError on a column-less
      frame, so a missing users.csv lets nobody register. A taken email only
      warns and writes nothing; otherwise the row is appended. */
  function Register(users: Table<User>, u: User): (r: Result<Table<User>, Error>)
    ensures r.Failure? <==> users.NoFile? || EmailRegistered(users.rows, u.email)
    ensures r.Failure? ==> r.error == (if users.NoFile? then MissingEmailColumn else EmailTaken)
    ensures r.Success? ==> r.value.Rows() == users.Rows() + [u]
    ensures r.Success? ==> EmailRegistered(r.value.Rows(), u.email)
  {
    if users.NoFile? then Failure(MissingEmailColumn)
    else if EmailRegistered(users.rows, u.email) then Failure(EmailTaken)
    else
      var users' := Append(users, u);
      assert users'.Rows()[|users.Rows()|] == u;
      Success(users')
  }

  /** Registering the same email a second time is refused. */
  lemma RegisterTwice(users: Table<User>, u: User, v: User)
    requires Register(users, u).Success?
    requires v.email == u.email
    ensures Register(Register(users, u).value, v) == Failure(EmailTaken)
  {
  }

  /** Registration keeps emails unique. */
  lemma RegisterKeepsEmailsUnique(users: Table<User>, u: User)
    requires EmailsUnique(users.Rows())
    requires Register(users, u).Success?
    ensures EmailsUnique(Register(users, u).value.Rows())
  {
    var rows, rows' := users.Rows(), Register(users, u).value.Rows();
    forall i, j | 0 <= i < j < |rows'|
      ensures rows'[i].email != rows'[j].email
    {
      assert rows'[i] == rows[i];
      if j < |rows| {
        assert rows'[j] == rows[j];
      }
    }
  }

  /** Does row `x` match the typed email and password? */
  predicate Matches(x: User, email: string, password: string) {
    x.email == email && x.password == password
  }

  /** The position of the first row matching both email and password, the
      row `match.iloc[0]` of app.py:68 reads. */
  function FirstMatch(users: seq<User>, email: string, password: string): (r: Option<nat>)
    ensures r.Some? ==> r.value < |users| && Matches(users[r.value], email, password)
    ensures r.Some? ==> forall j :: 0 <= j < r.value ==> !Matches(users[j], email, password)
    ensures r.None? ==> forall j :: 0 <= j < |users| ==> !Matches(users[j], email, password)
  {
    if |users| == 0 then None
    else if Matches(users[0], email, password) then Some(0)
    else match FirstMatch(users[1..], email, password)
      case None => None
      case Some(k) => Some(k + 1)
  }

  /** Logging in. The session keeps the typed email and the company of the
      first matching row; a missing users.csv raises KeyError. */
  function Login(users: Table<User>, email: string, password: string): (r: Result<Session, Error>)
    ensures users.NoFile? ==> r == Failure(MissingEmailColumn)
    ensures users.Csv? ==>
      (r.Success? <==> exists i :: 0 <= i < |users.rows| && Matches(users.rows[i], email, password))
    ensures r.Failure? && users.Csv? ==> r.error == InvalidCredentials
    ensures r.Success? ==> r.value.email == email
    ensures r.Success? ==>
      exists i :: 0 <= i < |users.rows| && Matches(users.rows[i], email, password) &&
        r.value.company == users.rows[i].company &&
        (forall j :: 0 <= j < i ==> !Matches(users.rows[j], email, password))
  {
    if users.NoFile? then Failure(MissingEmailColumn)
    else match FirstMatch(users.rows, email, password)
      case None => Failure(InvalidCredentials)
      case Some(i) => Success(Session(email, users.rows[i].company))
  }

  /** A freshly registered user can log in with the password they chose,
      provided nobody registered under that email before. */
  lemma RegisterThenLogin(users: Table<User>, u: User)
    requires Register(users, u).Success?
    ensures Login(Register(users, u).value, u.email, u.password) == Success(Session(u.email, u.company))
  {
    var rows' := Register(users, u).value.Rows();
    var i := |users.Rows()|;
    assert Matches(rows'[i], u.email, u.password);
    forall j | 0 <= j < i
      ensures !Matches(rows'[j], u.email, u.password)
    {
      assert rows'[j] == users.rows[j];
    }
    assert FirstMatch(rows', u.email, u.password) == Some(i);
  }

  /** `dropna()`: the company cells that hold a value, in table order
      (`PresentConcat`). */
  function Present(cells: seq<Option<string>>): (names: seq<string>)
    ensures |names| <= |cells|
    ensures forall c :: c in names <==> Some(c) in cells
  {
    if |cells| == 0 then []
    else
      var last := cells[|cells| - 1];
      Present(cells[..|cells| - 1]) + (if last.Some? then [last.value] else [])
  }

  /** No value occurs twice. */
  predicate Distinct(s: seq<string>) {
    forall i, j :: 0 <= i < j < |s| ==> s[i] != s[j]
  }

  /** `unique()`: each value once, in order of first occurrence
      (`DedupPrefix`). */
  function Dedup(s: seq<string>): (d: seq<string>)
    ensures Distinct(d)
    ensures forall c :: c in d <==> c in s
  {
    if |s| == 0 then []
    else
      var init, last := Dedup(s[..|s| - 1]), s[|s| - 1];
      assert forall c :: c in s <==> c in s[..|s| - 1] || c == last by {
        assert s == s[..|s| - 1] + [last];
      }
      if last in init then init else init + [last]
  }

  /** Dropping blanks from a concatenation drops them from each part, so
      table order is kept. */
  lemma {:induction false} PresentConcat(a: seq<Option<string>>, b: seq<Option<string>>)
    ensures Present(a + b) == Present(a) + Present(b)
    decreases |b|
  {
    if |b| == 0 {
      assert a + b == a;
    } else {
      assert (a + b)[..|a + b| - 1] == a + b[..|b| - 1];
      PresentConcat(a, b[..|b| - 1]);
    }
  }

  /** Deduplicating a prefix of `s` gives a prefix of `Dedup(s)`. With the
      contract of `Dedup` applied to every prefix, this fixes the result as
      the values of `s` in order of their first occurrence. */
  lemma {:induction false} DedupPrefix(s: seq<string>, k: nat)
    requires k <= |s|
    ensures Dedup(s[..k]) <= Dedup(s)
    decreases |s| - k
  {
    if k < |s| {
      DedupPrefix(s, k + 1);
      var t := s[..k + 1];
      assert t[..|t| - 1] == s[..k];
      assert Dedup(s[..k]) <= Dedup(t);
    } else {
      assert s[..k] == s;
    }
  }

  /** `Dedup` leaves a sequence without repeats as it is. */
  lemma {:induction false} DedupDistinct(s: seq<string>)
    requires Distinct(s)
    ensures Dedup(s) == s
    decreases |s|
  {
    if |s| > 0 {
      DedupDistinct(s[..|s| - 1]);
      assert s[|s| - 1] !in s[..|s| - 1];
      assert s == s[..|s| - 1] + [s[|s| - 1]];
    }
  }

  /** Deduplicating twice is deduplicating once. */
  lemma DedupIdempotent(s: seq<string>)
    ensures Dedup(Dedup(s)) == Dedup(s)
  {
    DedupDistinct(Dedup(s));
  }

  /** `company_list` of app.py:32: an empty list for an empty frame,
      otherwise the distinct non-missing company names in table order. */
  function CompanyList(companies: Table<Option<string>>): (names: seq<string>)
    ensures Distinct(names)
    ensures forall c :: c in names <==> Some(c) in companies.Rows()
  {
    if companies.IsEmpty() then [] else Dedup(Present(companies.rows))
  }

  /** Adding a company from the manager portal: refused when the name is
      already listed, otherwise one row is appended. */
  function AddCompany(companies: Table<Option<string>>, name: string): (r: Result<Table<Option<string>>, Error>)
    ensures r.Failure? <==> name in CompanyList(companies)
    ensures r.Failure? ==> r.error == CompanyExists
    ensures r.Success? ==> r.value.Rows() == companies.Rows() + [Some(name)]
    ensures r.Success? ==> CompanyList(r.value) == CompanyList(companies) + [name]
  {
    if name in CompanyList(companies) then Failure(CompanyExists)
    else
      var companies' := Append(companies, Some(name));
      var rows := companies.Rows();
      assert companies'.Rows() == rows + [Some(name)];
      assert companies'.Rows()[..|rows|] == rows;
      assert CompanyList(companies) == Dedup(Present(rows));
      Success(companies')
  }

  /** Adding the same company twice in a row is refused the second time. */
  lemma AddCompanyTwice(companies: Table<Option<string>>, name: string)
    requires AddCompany(companies, name).Success?
    ensures AddCompany(AddCompany(companies, name).value, name) == Failure(CompanyExists)
  {
  }
}
