/**
 * `UserRepository` over the `Users` table: account creation with its ordered
 * refusals, e-mail normalisation, lookup by e-mail and password sign-in.
 *
 * The table is the sequence of its rows in insertion order. SQLite's
 * `AUTOINCREMENT` id and `CURRENT_TIMESTAMP` clock, the random salt bytes and
 * the hashing primitives are parameters.
 */
module UserRepository {
  import opened Wrappers
  import opened Text
  import opened Calendar
  import opened Seqs
  import PasswordHasher

  /** A row of `Users`; `createdAt` is the text SQLite keeps. */
  datatype UserRow = UserRow(
    id: nat, firstName: string, lastName: string, email: string,
    passwordHash: string, passwordSalt: string, createdAt: string)

  /** `UserRecord`: a row as the application reads it. */
  datatype UserRecord = UserRecord(
    id: nat, firstName: string, lastName: string, email: string,
    passwordHash: string, passwordSalt: string, createdAt: DateTime)

  const NamesRequired := "First and last name are required."
  const EmailRequired := "A valid email address is required."
  const EmailTaken := "An account with this email already exists."

  /**
   * The table's own guarantees: ids increase in insertion order
   * (`INTEGER PRIMARY KEY AUTOINCREMENT`) and no e-mail occurs twice (`UNIQUE`).
   */
  ghost predicate Valid(users: seq<UserRow>) {
    && (forall i, j :: 0 <= i < j < |users| ==> users[i].id < users[j].id)
    && (forall i, j :: 0 <= i < j < |users| ==> users[i].email != users[j].email)
  }

  /** `rowId` is larger than every id in the table, as `AUTOINCREMENT` hands out. */
  ghost predicate FreshId(users: seq<UserRow>, rowId: nat) {
    forall i :: 0 <= i < |users| ==> users[i].id < rowId
  }

  /** `NormalizeEmail`: blank (or null) becomes empty, anything else is trimmed and lower-cased. */
  function NormalizeEmail(email: Option<string>): (r: string)
    ensures r == [] <==> IsNullOrWhiteSpace(email)
    ensures IsTrimmed(r)
    ensures forall i :: 0 <= i < |r| ==> !('A' <= r[i] <= 'Z')
  {
    if IsNullOrWhiteSpace(email) then []
    else
      ToLowerPreservesBlank(Trim(email.value));
      ToLower(Trim(email.value))
  }

  /** Normalising a normalised address changes nothing. */
  lemma NormalizeEmailIdempotent(email: Option<string>)
    ensures NormalizeEmail(Some(NormalizeEmail(email))) == NormalizeEmail(email)
  {
    var n := NormalizeEmail(email);
    if n != [] {
      var t := Trim(email.value);
      TrimOfTrimmed(n);
      ToLowerIdempotent(t);
    }
  }

  /** Normalisation sees an address only through its trimmed text. */
  lemma NormalizeEmailByTrim(a: string, b: string)
    requires Trim(a) == Trim(b)
    ensures NormalizeEmail(Some(a)) == NormalizeEmail(Some(b))
  {
    assert IsBlank(a) <==> IsBlank(b);
  }

  /** Trimming an address before normalising it changes nothing. */
  lemma NormalizeEmailOfTrim(s: string)
    ensures NormalizeEmail(Some(Trim(s))) == NormalizeEmail(Some(s))
  {
    TrimIdempotent(s);
    NormalizeEmailByTrim(Trim(s), s);
  }

  /** Surrounding white space does not change the normalised address. */
  lemma NormalizeEmailIgnoresPadding(pre: string, s: string, post: string)
    requires IsBlank(pre) && IsBlank(post)
    ensures NormalizeEmail(Some(pre + s + post)) == NormalizeEmail(Some(s))
  {
    TrimPadding(pre, s, post);
  }

  /** ASCII letter case does not change the normalised address. */
  lemma NormalizeEmailIgnoresCase(s: string)
    ensures NormalizeEmail(Some(ToLower(s))) == NormalizeEmail(Some(s))
  {
    ToLowerPreservesBlank(s);
    if !IsBlank(s) {
      ToLowerOfTrim(s);
      ToLowerIdempotent(Trim(s));
    }
  }

  /** Case and surrounding white space together: both normalise to the same address. */
  lemma NormalizeEmailIgnoresCaseAndPadding(pre: string, s: string, post: string)
    requires IsBlank(pre) && IsBlank(post)
    ensures NormalizeEmail(Some(pre + ToLower(s) + post)) == NormalizeEmail(Some(s))
  {
    NormalizeEmailIgnoresPadding(pre, ToLower(s), post);
    NormalizeEmailIgnoresCase(s);
  }

  /** `EmailExists`: `SELECT 1 FROM Users WHERE Email = @email LIMIT 1` found a row. */
  function EmailExists(users: seq<UserRow>, normalizedEmail: string): (r: bool)
    ensures r <==> exists i :: 0 <= i < |users| && users[i].email == normalizedEmail
  {
    var hits := Filter(users, (u: UserRow) => u.email == normalizedEmail);
    if hits != [] then
      assert hits[0] in users;
      true
    else
      false
  }

  /** `WHERE Email = @email LIMIT 1`: the first row with that address. */
  function SelectByEmail(users: seq<UserRow>, normalizedEmail: string): (r: Option<UserRow>)
    ensures r.Some? <==> EmailExists(users, normalizedEmail)
    ensures r.Some? ==> r.value in users && r.value.email == normalizedEmail
    ensures r.Some? && Valid(users) ==>
      forall i :: 0 <= i < |users| && users[i].email == normalizedEmail ==> users[i] == r.value
  {
    var hits := Filter(users, (u: UserRow) => u.email == normalizedEmail);
    if hits == [] then None
    else
      assert hits[0] in users;
      Some(hits[0])
  }

  /** `MapUser`: `CreatedAt` is read back, or the current UTC time when it cannot be. */
  function MapUser(row: UserRow, utcNow: DateTime): (r: UserRecord)
    ensures r.id == row.id && r.email == row.email
    ensures r.firstName == row.firstName && r.lastName == row.lastName
    ensures r.passwordHash == row.passwordHash && r.passwordSalt == row.passwordSalt
    ensures ParseDateTime(row.createdAt).None? ==> r.createdAt == utcNow
    ensures ParseDateTime(row.createdAt).Some? ==> r.createdAt == ParseDateTime(row.createdAt).value
  {
    UserRecord(row.id, row.firstName, row.lastName, row.email, row.passwordHash, row.passwordSalt,
      ParseOr(row.createdAt, utcNow))
  }

  /** `GetByEmail`: null for a blank address, otherwise the row stored under its normalised form. */
  function GetByEmail(users: seq<UserRow>, email: Option<string>, utcNow: DateTime): (r: Option<UserRecord>)
    ensures IsNullOrWhiteSpace(email) ==> r.None?
    ensures r.Some? <==> !IsNullOrWhiteSpace(email) && EmailExists(users, NormalizeEmail(email))
    ensures r.Some? ==> r.value.email == NormalizeEmail(email)
    ensures r.Some? ==> exists i :: 0 <= i < |users| && users[i].id == r.value.id && users[i].email == r.value.email
  {
    var normalized := NormalizeEmail(email);
    if IsBlank(normalized) then None
    else
      match SelectByEmail(users, normalized)
      case None => None
      case Some(row) => Some(MapUser(row, utcNow))
  }

  /** An `INSERT`, which the `UNIQUE` constraint on `Email` refuses (`None`) when the address is taken. */
  function InsertRow(users: seq<UserRow>, row: UserRow): (r: Option<seq<UserRow>>)
    ensures r.None? <==> EmailExists(users, row.email)
    ensures r.Some? ==> |r.value| == |users| + 1 && r.value[..|users|] == users && r.value[|users|] == row
  {
    if EmailExists(users, row.email) then None else Some(users + [row])
  }

  /** An insert with a fresh id and an unused address keeps the table valid. */
  lemma InsertRowKeepsValid(users: seq<UserRow>, row: UserRow)
    requires Valid(users) && FreshId(users, row.id)
    ensures InsertRow(users, row).Some? ==> Valid(InsertRow(users, row).value)
  {
  }

  /** What `TryCreateUser` ends in: the new table, a refusal with its message, or an exception. */
  datatype CreateOutcome = Created(users: seq<UserRow>) | Rejected(message: string) | CreateFaulted

  /** Both names are present and the address is not blank: the first two refusals do not apply. */
  predicate FieldsPresent(firstName: Option<string>, lastName: Option<string>, email: Option<string>) {
    !IsNullOrWhiteSpace(firstName) && !IsNullOrWhiteSpace(lastName) && !IsNullOrWhiteSpace(email)
  }

  /**
   * `TryCreateUser`. The refusals come in order: a missing name, a blank
   * address, an address already registered (after normalisation). Otherwise
   * the trimmed names, the normalised address and the password's hash and
   * salt are inserted with `createdAt` set by the column default.
   */
  function TryCreateUser(
    users: seq<UserRow>, firstName: Option<string>, lastName: Option<string>, email: Option<string>,
    password: string, p: PasswordHasher.Primitives, saltBytes: seq<PasswordHasher.byte>,
    rowId: nat, now: DateTime): (r: CreateOutcome)
    requires |saltBytes| == PasswordHasher.SaltSize
    ensures r == Rejected(NamesRequired) <==> IsNullOrWhiteSpace(firstName) || IsNullOrWhiteSpace(lastName)
    ensures r == Rejected(EmailRequired) <==>
      !IsNullOrWhiteSpace(firstName) && !IsNullOrWhiteSpace(lastName) && IsNullOrWhiteSpace(email)
    ensures r == Rejected(EmailTaken) <==>
      FieldsPresent(firstName, lastName, email) && EmailExists(users, NormalizeEmail(email))
    ensures r.Rejected? ==> r.message in {NamesRequired, EmailRequired, EmailTaken}
    ensures r.Created? <==>
      FieldsPresent(firstName, lastName, email) && !EmailExists(users, NormalizeEmail(email)) &&
      PasswordHasher.HashPassword(p, password, saltBytes).Some?
    ensures PasswordHasher.WellBehaved(p) ==> !r.CreateFaulted?
    ensures r.Created? ==>
      var h := PasswordHasher.HashPassword(p, password, saltBytes).value;
      r.users == users + [UserRow(rowId, Trim(firstName.value), Trim(lastName.value), NormalizeEmail(email),
                                  h.hash, h.salt, FormatTimestamp(now))]
  {
    CreateNormalized(
      users, IsNullOrWhiteSpace(firstName) || IsNullOrWhiteSpace(lastName),
      Trim(OrEmpty(firstName)), Trim(OrEmpty(lastName)), NormalizeEmail(email),
      password, p, saltBytes, rowId, now)
  }

  /** `TryCreateUser` looks at its inputs only through the blankness of the names, the trimmed names and the normalised address. */
  lemma CreateDependsOnNormalized(
    users: seq<UserRow>, firstName: Option<string>, lastName: Option<string>, email: Option<string>,
    firstName2: Option<string>, lastName2: Option<string>, email2: Option<string>,
    password: string, p: PasswordHasher.Primitives, saltBytes: seq<PasswordHasher.byte>, rowId: nat, now: DateTime)
    requires |saltBytes| == PasswordHasher.SaltSize
    requires IsNullOrWhiteSpace(firstName) == IsNullOrWhiteSpace(firstName2)
    requires IsNullOrWhiteSpace(lastName) == IsNullOrWhiteSpace(lastName2)
    requires Trim(OrEmpty(firstName)) == Trim(OrEmpty(firstName2)) && Trim(OrEmpty(lastName)) == Trim(OrEmpty(lastName2))
    requires NormalizeEmail(email) == NormalizeEmail(email2)
    ensures TryCreateUser(users, firstName, lastName, email, password, p, saltBytes, rowId, now)
         == TryCreateUser(users, firstName2, lastName2, email2, password, p, saltBytes, rowId, now)
  {
  }

  /** `TryCreateUser` once the names are checked and trimmed and the address is normalised. */
  function CreateNormalized(
    users: seq<UserRow>, namesMissing: bool, firstName: string, lastName: string, normalizedEmail: string,
    password: string, p: PasswordHasher.Primitives, saltBytes: seq<PasswordHasher.byte>,
    rowId: nat, now: DateTime): (r: CreateOutcome)
    requires |saltBytes| == PasswordHasher.SaltSize
    ensures r == Rejected(NamesRequired) <==> namesMissing
    ensures r == Rejected(EmailRequired) <==> !namesMissing && IsBlank(normalizedEmail)
    ensures r == Rejected(EmailTaken) <==> !namesMissing && !IsBlank(normalizedEmail) && EmailExists(users, normalizedEmail)
    ensures r.Rejected? ==> r.message in {NamesRequired, EmailRequired, EmailTaken}
    ensures r.Created? <==>
      !namesMissing && !IsBlank(normalizedEmail) && !EmailExists(users, normalizedEmail) &&
      PasswordHasher.HashPassword(p, password, saltBytes).Some?
    ensures PasswordHasher.WellBehaved(p) ==> !r.CreateFaulted?
    ensures r.Created? ==>
      var h := PasswordHasher.HashPassword(p, password, saltBytes).value;
      r.users == users + [UserRow(rowId, firstName, lastName, normalizedEmail, h.hash, h.salt, FormatTimestamp(now))]
  {
    if namesMissing then Rejected(NamesRequired)
    else if IsBlank(normalizedEmail) then Rejected(EmailRequired)
    else if EmailExists(users, normalizedEmail) then Rejected(EmailTaken)
    else
      match PasswordHasher.HashPassword(p, password, saltBytes)
      case None => CreateFaulted
      case Some(h) =>
        var row := UserRow(rowId, firstName, lastName, normalizedEmail, h.hash, h.salt, FormatTimestamp(now));
        match InsertRow(users, row)
        case None => CreateFaulted
        case Some(t) => Created(t)
  }

  /** Creating an account keeps the table's guarantees; in particular the `UNIQUE` constraint never fires. */
  lemma CreateKeepsValid(
    users: seq<UserRow>, firstName: Option<string>, lastName: Option<string>, email: Option<string>,
    password: string, p: PasswordHasher.Primitives, saltBytes: seq<PasswordHasher.byte>,
    rowId: nat, now: DateTime)
    requires |saltBytes| == PasswordHasher.SaltSize
    requires Valid(users) && FreshId(users, rowId)
    ensures var r := TryCreateUser(users, firstName, lastName, email, password, p, saltBytes, rowId, now);
      r.Created? ==> Valid(r.users)
  {
    var r := TryCreateUser(users, firstName, lastName, email, password, p, saltBytes, rowId, now);
    if r.Created? {
      var row := r.users[|users|];
      assert r.users == users + [row];
      assert row.id == rowId && row.email == NormalizeEmail(email);
      InsertRowKeepsValid(users, row);
    }
  }

  /** What `TryAuthenticate` ends in: the signed-in user, a refusal (`user = null`), or an exception. */
  datatype AuthOutcome = Authenticated(user: UserRecord) | Denied | AuthFaulted

  /**
   * `TryAuthenticate`: look the address up, then check the password against
   * the stored hash and salt; either failure leaves no user.
   */
  function TryAuthenticate(
    users: seq<UserRow>, email: Option<string>, password: string,
    p: PasswordHasher.Primitives, utcNow: DateTime): (r: AuthOutcome)
    ensures var found := GetByEmail(users, email, utcNow);
      r.Authenticated? <==>
        found.Some? && PasswordHasher.Verify(p, password, found.value.passwordHash, found.value.passwordSalt) == Some(true)
    ensures r.Authenticated? ==> GetByEmail(users, email, utcNow) == Some(r.user)
    ensures var found := GetByEmail(users, email, utcNow);
      r == Denied <==>
        found.None? || PasswordHasher.Verify(p, password, found.value.passwordHash, found.value.passwordSalt) == Some(false)
    ensures var found := GetByEmail(users, email, utcNow);
      r.AuthFaulted? <==>
        found.Some? && PasswordHasher.Verify(p, password, found.value.passwordHash, found.value.passwordSalt).None?
  {
    match GetByEmail(users, email, utcNow)
    case None => Denied
    case Some(user) =>
      match PasswordHasher.Verify(p, password, user.passwordHash, user.passwordSalt)
      case None => AuthFaulted
      case Some(ok) => if ok then Authenticated(user) else Denied
  }

  /** In a valid table, any address that normalises to a row's address finds that row. */
  lemma FoundByAddress(users: seq<UserRow>, k: nat, email: Option<string>, utcNow: DateTime)
    requires Valid(users) && k < |users|
    requires users[k].email != [] && NormalizeEmail(email) == users[k].email
    ensures GetByEmail(users, email, utcNow) == Some(MapUser(users[k], utcNow))
  {
    assert EmailExists(users, users[k].email);
    var found := SelectByEmail(users, users[k].email);
    assert found == Some(users[k]);
  }

  /** The address written when an account was created, under any case and padding, finds that account. */
  lemma CreatedRowIsFound(users: seq<UserRow>, row: UserRow, utcNow: DateTime, pre: string, s: string, post: string)
    requires Valid(users + [row]) && row.email == NormalizeEmail(Some(s))
    requires IsBlank(pre) && IsBlank(post) && !IsBlank(s)
    ensures GetByEmail(users + [row], Some(pre + ToLower(s) + post), utcNow) == Some(MapUser(row, utcNow))
  {
    NormalizeEmailIgnoresCaseAndPadding(pre, s, post);
    var t := users + [row];
    assert t[|users|] == row;
    FoundByAddress(t, |users|, Some(pre + ToLower(s) + post), utcNow);
  }

  /** The row a successful sign-up appends, field by field. */
  lemma CreatedRow(
    users: seq<UserRow>, firstName: string, lastName: string, email: string,
    password: string, p: PasswordHasher.Primitives, saltBytes: seq<PasswordHasher.byte>,
    rowId: nat, now: DateTime) returns (row: UserRow)
    requires |saltBytes| == PasswordHasher.SaltSize
    requires TryCreateUser(users, Some(firstName), Some(lastName), Some(email), password, p, saltBytes, rowId, now).Created?
    ensures TryCreateUser(users, Some(firstName), Some(lastName), Some(email), password, p, saltBytes, rowId, now).users == users + [row]
    ensures row.id == rowId && row.firstName == Trim(firstName) && row.lastName == Trim(lastName)
    ensures row.email == NormalizeEmail(Some(email)) && row.email != []
    ensures row.createdAt == FormatTimestamp(now)
    ensures PasswordHasher.WellBehaved(p) ==>
      PasswordHasher.Verify(p, password, row.passwordHash, row.passwordSalt) == Some(true)
  {
    var t := TryCreateUser(users, Some(firstName), Some(lastName), Some(email), password, p, saltBytes, rowId, now).users;
    row := t[|users|];
    assert t == users + [row];
    if PasswordHasher.WellBehaved(p) {
      PasswordHasher.HashThenVerify(p, password, saltBytes);
    }
  }

  /**
   * Sign-in after sign-up: with working primitives, the password an account
   * was created with authenticates that account, and the record read back
   * carries the trimmed names, the normalised address and the creation time.
   */
  lemma CreateThenAuthenticate(
    users: seq<UserRow>, firstName: string, lastName: string, email: string,
    password: string, p: PasswordHasher.Primitives, saltBytes: seq<PasswordHasher.byte>,
    rowId: nat, now: DateTime, utcNow: DateTime)
    requires |saltBytes| == PasswordHasher.SaltSize && PasswordHasher.WellBehaved(p)
    requires Valid(users) && FreshId(users, rowId)
    requires TryCreateUser(users, Some(firstName), Some(lastName), Some(email), password, p, saltBytes, rowId, now).Created?
    ensures var t := TryCreateUser(users, Some(firstName), Some(lastName), Some(email), password, p, saltBytes, rowId, now).users;
      var a := TryAuthenticate(t, Some(email), password, p, utcNow);
      && a.Authenticated?
      && a.user.id == rowId
      && a.user.firstName == Trim(firstName) && a.user.lastName == Trim(lastName)
      && a.user.email == NormalizeEmail(Some(email))
      && a.user.createdAt == now
  {
    var row := CreatedRow(users, firstName, lastName, email, password, p, saltBytes, rowId, now);
    CreateKeepsValid(users, Some(firstName), Some(lastName), Some(email), password, p, saltBytes, rowId, now);
    var t := users + [row];
    FoundByAddress(t, |users|, Some(email), utcNow);
    ParseFormatTimestamp(now);
  }

  /** A second sign-up with the same address, in any letter case or padding, is refused as taken. */
  lemma DuplicateEmailRejected(
    users: seq<UserRow>, firstName: string, lastName: string, email: string,
    password: string, p: PasswordHasher.Primitives, saltBytes: seq<PasswordHasher.byte>,
    rowId: nat, now: DateTime,
    firstName2: string, lastName2: string, pre: string, post: string,
    password2: string, saltBytes2: seq<PasswordHasher.byte>, rowId2: nat, now2: DateTime)
    requires |saltBytes| == PasswordHasher.SaltSize && |saltBytes2| == PasswordHasher.SaltSize
    requires IsBlank(pre) && IsBlank(post) && !IsBlank(firstName2) && !IsBlank(lastName2)
    requires TryCreateUser(users, Some(firstName), Some(lastName), Some(email), password, p, saltBytes, rowId, now).Created?
    ensures var t := TryCreateUser(users, Some(firstName), Some(lastName), Some(email), password, p, saltBytes, rowId, now).users;
      TryCreateUser(t, Some(firstName2), Some(lastName2), Some(pre + ToLower(email) + post),
                    password2, p, saltBytes2, rowId2, now2) == Rejected(EmailTaken)
  {
    var row := CreatedRow(users, firstName, lastName, email, password, p, saltBytes, rowId, now);
    var t := users + [row];
    var e2 := pre + ToLower(email) + post;
    NormalizeEmailIgnoresCaseAndPadding(pre, email, post);
    assert t[|users|] == row;
    assert EmailExists(t, NormalizeEmail(Some(e2)));
    assert FieldsPresent(Some(firstName2), Some(lastName2), Some(e2));
  }

  /** A password whose derived key differs from the account's is refused and leaves no user. */
  lemma WrongPasswordDenied(
    users: seq<UserRow>, firstName: string, lastName: string, email: string,
    password: string, other: string, p: PasswordHasher.Primitives, saltBytes: seq<PasswordHasher.byte>,
    rowId: nat, now: DateTime, utcNow: DateTime)
    requires |saltBytes| == PasswordHasher.SaltSize && PasswordHasher.WellBehaved(p)
    requires Valid(users) && FreshId(users, rowId)
    requires p.derive(other, saltBytes, PasswordHasher.Iterations, PasswordHasher.KeySize)
          != p.derive(password, saltBytes, PasswordHasher.Iterations, PasswordHasher.KeySize)
    requires TryCreateUser(users, Some(firstName), Some(lastName), Some(email), password, p, saltBytes, rowId, now).Created?
    ensures var t := TryCreateUser(users, Some(firstName), Some(lastName), Some(email), password, p, saltBytes, rowId, now).users;
      TryAuthenticate(t, Some(email), other, p, utcNow) == Denied
  {
    var row := CreatedRow(users, firstName, lastName, email, password, p, saltBytes, rowId, now);
    CreateKeepsValid(users, Some(firstName), Some(lastName), Some(email), password, p, saltBytes, rowId, now);
    var t := users + [row];
    FoundByAddress(t, |users|, Some(email), utcNow);
    PasswordHasher.VerifyRejectsOtherKey(p, password, other, saltBytes);
  }
}
