/**
 * The sign-up screen (`CreateAccountForm`): the Create button trims the
 * names and the address (not the passwords), checks that every field is
 * filled, that the two passwords agree and that the terms are accepted, in
 * that order, and only then asks `UserRepository.TryCreateUser`.
 *
 * Each message box becomes the message it shows; opening the login screen
 * and closing this one is the `AccountCreated` outcome.
 */
module CreateAccountForm {
  import opened Wrappers
  import opened Text
  import opened Calendar
  import opened UserRepository
  import PasswordHasher

  const MissingFields := "Please fill in all required fields:\nFirst name, Last name, Email, Password, Confirm Password."
  const PasswordsDiffer := "Passwords do not match."
  const TermsRequired := "Please agree to the Terms and Conditions."
  const AccountCreatedMessage := "Account created successfully. You can now log in."

  /** The text boxes and the terms check box; WinForms text is never null. */
  datatype SignUp = SignUp(firstName: string, lastName: string, email: string, password: string, confirm: string, termsAccepted: bool)

  /** What a click on Create ends in: a warning box, the success box and the login screen, or an exception. */
  datatype ClickOutcome = Warning(message: string) | AccountCreated(users: seq<UserRow>) | ClickFaulted

  /** No field is blank (the first three after trimming, which does not change blankness). */
  predicate Filled(f: SignUp) {
    !IsBlank(f.firstName) && !IsBlank(f.lastName) && !IsBlank(f.email) && !IsBlank(f.password) && !IsBlank(f.confirm)
  }

  /** The form's own checks all pass. */
  predicate FormAccepts(f: SignUp) {
    Filled(f) && f.password == f.confirm && f.termsAccepted
  }

  /** `btnCreate_Click`. */
  function CreateClick(users: seq<UserRow>, f: SignUp, p: PasswordHasher.Primitives, saltBytes: seq<PasswordHasher.byte>, rowId: nat, now: DateTime): (r: ClickOutcome)
    requires |saltBytes| == PasswordHasher.SaltSize
    ensures !Filled(f) ==> r == Warning(MissingFields)
    ensures Filled(f) && f.password != f.confirm ==> r == Warning(PasswordsDiffer)
    ensures Filled(f) && f.password == f.confirm && !f.termsAccepted ==> r == Warning(TermsRequired)
    ensures r.AccountCreated? <==>
      FormAccepts(f) && !EmailExists(users, NormalizeEmail(Some(f.email))) &&
      PasswordHasher.HashPassword(p, f.password, saltBytes).Some?
    ensures r.Warning? ==> r.message in {MissingFields, PasswordsDiffer, TermsRequired, EmailTaken}
    ensures FormAccepts(f) && EmailExists(users, NormalizeEmail(Some(f.email))) ==> r == Warning(EmailTaken)
    ensures PasswordHasher.WellBehaved(p) ==> !r.ClickFaulted?
    ensures r.AccountCreated? ==>
      r.users == TryCreateUser(users, Some(f.firstName), Some(f.lastName), Some(f.email), f.password, p, saltBytes, rowId, now).users
  {
    var firstName := Trim(f.firstName);
    var lastName := Trim(f.lastName);
    var email := Trim(f.email);
    TrimKeepsBlankness(f.firstName);
    TrimKeepsBlankness(f.lastName);
    TrimKeepsBlankness(f.email);
    if IsBlank(firstName) || IsBlank(lastName) || IsBlank(email) || IsBlank(f.password) || IsBlank(f.confirm) then
      Warning(MissingFields)
    else if f.password != f.confirm then Warning(PasswordsDiffer)
    else if !f.termsAccepted then Warning(TermsRequired)
    else
      TrimmedInputs(users, f, p, saltBytes, rowId, now);
      var o := TryCreateUser(users, Some(firstName), Some(lastName), Some(email), f.password, p, saltBytes, rowId, now);
      assert !IsNullOrWhiteSpace(Some(f.firstName)) && !IsNullOrWhiteSpace(Some(f.lastName));
      assert FieldsPresent(Some(f.firstName), Some(f.lastName), Some(f.email));
      assert o == TryCreateUser(users, Some(f.firstName), Some(f.lastName), Some(f.email), f.password, p, saltBytes, rowId, now);
      ShowOutcome(o)
  }

  /** The message box `TryCreateUser`'s answer leads to. */
  function ShowOutcome(o: CreateOutcome): (r: ClickOutcome)
    ensures r.AccountCreated? <==> o.Created?
    ensures r.AccountCreated? ==> r.users == o.users
    ensures r.Warning? <==> o.Rejected?
    ensures r.Warning? ==> r.message == o.message
  {
    match o
    case Created(t) => AccountCreated(t)
    case Rejected(message) => Warning(message)
    case CreateFaulted => ClickFaulted
  }

  /** Trimming the three text inputs first changes nothing the repository decides: it checks, trims and normalises again. */
  lemma TrimmedInputs(users: seq<UserRow>, f: SignUp, p: PasswordHasher.Primitives, saltBytes: seq<PasswordHasher.byte>, rowId: nat, now: DateTime)
    requires |saltBytes| == PasswordHasher.SaltSize
    ensures TryCreateUser(users, Some(Trim(f.firstName)), Some(Trim(f.lastName)), Some(Trim(f.email)), f.password, p, saltBytes, rowId, now)
         == TryCreateUser(users, Some(f.firstName), Some(f.lastName), Some(f.email), f.password, p, saltBytes, rowId, now)
  {
    TrimIdempotent(f.firstName);
    TrimIdempotent(f.lastName);
    TrimKeepsBlankness(f.firstName);
    TrimKeepsBlankness(f.lastName);
    NormalizeEmailOfTrim(f.email);
    CreateDependsOnNormalized(
      users, Some(Trim(f.firstName)), Some(Trim(f.lastName)), Some(Trim(f.email)),
      Some(f.firstName), Some(f.lastName), Some(f.email), f.password, p, saltBytes, rowId, now);
  }

  /**
   * Signing up, then signing in with the same address and password: the new
   * account is the one authenticated.
   */
  lemma SignUpThenSignIn(users: seq<UserRow>, f: SignUp, p: PasswordHasher.Primitives, saltBytes: seq<PasswordHasher.byte>, rowId: nat, now: DateTime, utcNow: DateTime)
    requires |saltBytes| == PasswordHasher.SaltSize && PasswordHasher.WellBehaved(p)
    requires Valid(users) && FreshId(users, rowId)
    requires CreateClick(users, f, p, saltBytes, rowId, now).AccountCreated?
    ensures var t := CreateClick(users, f, p, saltBytes, rowId, now).users;
      var a := TryAuthenticate(t, Some(f.email), f.password, p, utcNow);
      a.Authenticated? && a.user.id == rowId && a.user.email == NormalizeEmail(Some(f.email))
  {
    CreateThenAuthenticate(users, f.firstName, f.lastName, f.email, f.password, p, saltBytes, rowId, now, utcNow);
  }
}
