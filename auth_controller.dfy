/** Registration, sign-in and the claims of the issued token (`api/auth`). ASP.NET
    Identity and the token signer are outside this model: Identity's normaliser,
    password hasher, validators and sign-in gates are the parameters in
    `IdentityServices`, and a token is its claim set, unsigned. */
module AuthController {
  import opened Base

  // ---------------------------------------------------------------------------
  // Users and the Identity user store

  /** `ApplicationUser` as Identity stores it. */
  datatype User = User(id: string, userName: string, email: string, passwordHash: string)

  /** An `IdentityError`: a machine-readable code and a description. */
  datatype IdentityError = IdentityError(code: string, description: string)

  datatype IdentityResult = Succeeded | Failed(errors: seq<IdentityError>)

  /** What ASP.NET Identity is configured with, taken as given: the lookup
      normaliser (case folding of user names and e-mails), the password validators,
      the user validators other than user-name uniqueness, the password hasher and
      its check, and the sign-in gates (lockout, confirmation, two-factor). */
  datatype IdentityServices = IdentityServices(
    normalize: string -> string,
    passwordErrors: string -> seq<IdentityError>,
    userErrors: (seq<User>, User) -> seq<IdentityError>,
    hash: string -> string,
    verify: (string, string) -> bool,
    canSignIn: User -> bool)

  /** `FindByNameAsync`: the user whose normalised user name matches. */
  function FindByName(users: seq<User>, normalize: string -> string, name: string): (r: Option<User>)
    ensures r.Some? ==> r.value in users && normalize(r.value.userName) == normalize(name)
    ensures r.None? <==> forall u :: u in users ==> normalize(u.userName) != normalize(name)
  {
    if users == [] then None
    else if normalize(users[0].userName) == normalize(name) then Some(users[0])
    else FindByName(users[1..], normalize, name)
  }

  /** `FindByEmailAsync`: the user whose normalised e-mail matches. */
  function FindByEmail(users: seq<User>, normalize: string -> string, email: string): (r: Option<User>)
    ensures r.Some? ==> r.value in users && normalize(r.value.email) == normalize(email)
    ensures r.None? <==> forall u :: u in users ==> normalize(u.email) != normalize(email)
  {
    if users == [] then None
    else if normalize(users[0].email) == normalize(email) then Some(users[0])
    else FindByEmail(users[1..], normalize, email)
  }

  function DuplicateUserName(name: string): IdentityError
  {
    IdentityError("DuplicateUserName", "Username '" + name + "' is already taken.")
  }

  /** The errors `CreateAsync(user, password)` reports: the password validators run
      first and, when they fail, alone; then the user validators, among them the
      check that no user has the same normalised user name. */
  function CreationErrors(identity: IdentityServices, users: seq<User>, user: User, password: string): (errs: seq<IdentityError>)
    ensures identity.passwordErrors(password) != [] ==> errs == identity.passwordErrors(password)
    ensures
      (&& identity.passwordErrors(password) == []
       && exists u :: u in users && identity.normalize(u.userName) == identity.normalize(user.userName))
      ==> errs == [DuplicateUserName(user.userName)] + identity.userErrors(users, user)
    ensures
      (&& identity.passwordErrors(password) == []
       && forall u :: u in users ==> identity.normalize(u.userName) != identity.normalize(user.userName))
      ==> errs == identity.userErrors(users, user)
  {
    var passwordErrors := identity.passwordErrors(password);
    if passwordErrors != [] then passwordErrors
    else
      (if FindByName(users, identity.normalize, user.userName).Some? then [DuplicateUserName(user.userName)] else [])
      + identity.userErrors(users, user)
  }

  /** The `UserManager` over the users table. */
  class UserManager {
    var users: seq<User>
    const identity: IdentityServices

    /** Ids are unique and so are normalised user names. */
    ghost predicate Valid()
      reads this
    {
      && (forall i, j :: 0 <= i < j < |users| ==> users[i].id != users[j].id)
      && (forall i, j :: 0 <= i < j < |users| ==>
            identity.normalize(users[i].userName) != identity.normalize(users[j].userName))
    }

    constructor (identity: IdentityServices)
      ensures Valid() && users == [] && this.identity == identity
    {
      users := [];
      this.identity := identity;
    }

    /** `CreateAsync(user, password)`: stores the user with the hash of the password
        when no validator objects, and reports the objections otherwise.
        `user.id` is a fresh GUID. */
    method CreateAsync(user: User, password: string) returns (result: IdentityResult)
      requires Valid()
      requires forall u :: u in users ==> u.id != user.id
      modifies this
      ensures Valid()
      ensures var errors := CreationErrors(identity, old(users), user, password);
        && (errors == [] ==> result == Succeeded && users == old(users) + [user.(passwordHash := identity.hash(password))])
        && (errors != [] ==> result == Failed(errors) && users == old(users))
    {
      var errors := CreationErrors(identity, users, user, password);
      if errors != [] {
        return Failed(errors);
      }
      ghost var before := users;
      users := users + [user.(passwordHash := identity.hash(password))];
      forall i | 0 <= i < |before|
        ensures identity.normalize(users[i].userName) != identity.normalize(user.userName)
      {
        assert users[i] in before;
      }
      result := Succeeded;
    }
  }

  /** `PasswordSignInAsync(email, password, false, false)` succeeds: a user with that
      user name exists, may sign in, and the password matches its hash. */
  predicate PasswordSignIn(identity: IdentityServices, users: seq<User>, userName: string, password: string)
    ensures PasswordSignIn(identity, users, userName, password) ==>
      exists u :: u in users && identity.normalize(u.userName) == identity.normalize(userName)
        && identity.canSignIn(u) && identity.verify(u.passwordHash, password)
    ensures (forall u :: u in users ==> identity.normalize(u.userName) != identity.normalize(userName)) ==>
      !PasswordSignIn(identity, users, userName, password)
  {
    match FindByName(users, identity.normalize, userName)
    case None => false
    case Some(u) => identity.canSignIn(u) && identity.verify(u.passwordHash, password)
  }

  /** When `u` is the only user with that normalised name, as the users table
      guarantees, signing in succeeds exactly when `u` may sign in and the password
      matches its hash. */
  lemma SignInOwnUser(identity: IdentityServices, users: seq<User>, userName: string, password: string, u: User)
    requires u in users && identity.normalize(u.userName) == identity.normalize(userName)
    requires forall v :: v in users && identity.normalize(v.userName) == identity.normalize(userName) ==> v == u
    ensures PasswordSignIn(identity, users, userName, password) <==>
      identity.canSignIn(u) && identity.verify(u.passwordHash, password)
  {
  }

  // ---------------------------------------------------------------------------
  // Request models and their validation attributes

  datatype RegisterModel = RegisterModel(email: Option<string>, password: Option<string>, confirmPassword: Option<string>)

  datatype LoginModel = LoginModel(email: Option<string>, password: Option<string>)

  const EmailRequired := "Email is required"
  const InvalidEmailFormat := "Invalid email format"
  const PasswordRequired := "Password is required"
  /** `"The {0} must be at least {2} characters long."` formatted with the property
      name, the maximum and the minimum. The two long messages are written in
      pieces only so that the verifier can look inside them. */
  const PasswordLength := "The " + "Password must be at least " + "6 characters long."
  const ConfirmRequired := "Confirm password is required"
  const PasswordMismatch := "The password and confirmation " + "password do not match."

  const PasswordMinLength := 6
  const PasswordMaxLength := 100

  /** The number of occurrences of `c` in `s`. */
  function Occurrences(s: string, c: char): (n: nat)
    ensures n <= |s|
    ensures n == 0 <==> c !in s
  {
    if s == [] then 0 else (if s[0] == c then 1 else 0) + Occurrences(s[1..], c)
  }

  /** `c` occurs exactly once in `s` when there is a position holding `c` with no
      other `c` before or after it. */
  lemma {:induction false} OccursOnce(s: string, c: char)
    ensures Occurrences(s, c) == 1 <==>
      exists i :: 0 <= i < |s| && s[i] == c && c !in s[..i] && c !in s[i + 1..]
  {
    if s != [] {
      OccursOnce(s[1..], c);
      if s[0] == c {
        if Occurrences(s, c) == 1 {
          assert s[0] == c && c !in s[..0] && c !in s[1..];
        }
        forall i | 0 < i < |s|
          ensures c in s[..i]
        {
          assert s[..i][0] == c;
        }
      } else {
        if Occurrences(s, c) == 1 {
          var j :| 0 <= j < |s[1..]| && s[1..][j] == c && c !in s[1..][..j] && c !in s[1..][j + 1..];
          assert s[..j + 1] == [s[0]] + s[1..][..j];
          assert s[j + 2..] == s[1..][j + 1..];
          assert s[j + 1] == c;
        }
        if exists i :: 0 <= i < |s| && s[i] == c && c !in s[..i] && c !in s[i + 1..] {
          var i :| 0 <= i < |s| && s[i] == c && c !in s[..i] && c !in s[i + 1..];
          assert s[1..][..i - 1] == s[1..i];
          assert s[1..][i - 1 + 1..] == s[i + 1..];
          assert s[1..][i - 1] == c;
        }
      }
    }
  }

  /** `[EmailAddress]`'s check, as .NET's `EmailAddressAttribute` makes it with
      full domain literals off (the default): no carriage return or line feed, and
      exactly one '@', neither first nor last. So an address is a non-empty local
      part without '@', the '@', and a non-empty domain without '@', all on one line
      (`EmailAddressShape`). */
  predicate IsEmailAddress(s: string)
  {
    '\r' !in s && '\n' !in s && Occurrences(s, '@') == 1 && s[0] != '@' && s[|s| - 1] != '@'
  }

  /** A well-formed address is a single line split by its only '@' into a non-empty
      local part and a non-empty domain. */
  lemma EmailAddressShape(s: string)
    ensures IsEmailAddress(s) <==>
      && '\r' !in s && '\n' !in s
      && exists i :: 0 < i < |s| - 1 && s[i] == '@' && '@' !in s[..i] && '@' !in s[i + 1..]
  {
    OccursOnce(s, '@');
  }

  /** A carriage return or line feed anywhere makes an address ill-formed. */
  lemma LineBreakRejected(s: string, i: int)
    requires 0 <= i < |s| && (s[i] == '\r' || s[i] == '\n')
    ensures !IsEmailAddress(s)
  {
    assert s[i] in s;
  }

  /** `[Required]` and `[EmailAddress]` on `Email`; the format check passes a null. */
  function EmailErrors(email: Option<string>): (errs: seq<string>)
    ensures EmailRequired in errs <==> IsNullOrWhiteSpace(email)
    ensures InvalidEmailFormat in errs <==> email.Some? && !IsEmailAddress(email.value)
    ensures forall m :: m in errs ==> m == EmailRequired || m == InvalidEmailFormat
  {
    (if IsNullOrWhiteSpace(email) then [EmailRequired] else [])
    + (if email.Some? && !IsEmailAddress(email.value) then [InvalidEmailFormat] else [])
  }

  /** `[Required]` on `Password`. */
  function PasswordRequiredErrors(password: Option<string>): (errs: seq<string>)
    ensures PasswordRequired in errs <==> IsNullOrWhiteSpace(password)
    ensures forall m :: m in errs ==> m == PasswordRequired
  {
    if IsNullOrWhiteSpace(password) then [PasswordRequired] else []
  }

  /** `[Required]` and `[StringLength(100, MinimumLength = 6)]` on the registration
      password; the length check passes a null and counts UTF-16 code units. */
  function PasswordErrors(password: Option<string>): (errs: seq<string>)
    ensures PasswordRequired in errs <==> IsNullOrWhiteSpace(password)
    ensures PasswordLength in errs <==>
      password.Some? && !(PasswordMinLength <= Utf16Length(password.value) <= PasswordMaxLength)
    ensures forall m :: m in errs ==> m == PasswordRequired || m == PasswordLength
  {
    assert PasswordRequired[0] != PasswordLength[0];
    PasswordRequiredErrors(password)
    + (if password.Some? && !(PasswordMinLength <= Utf16Length(password.value) <= PasswordMaxLength)
       then [PasswordLength] else [])
  }

  /** `[Required]` and `[Compare("Password")]` on `ConfirmPassword`; the comparison
      fails whenever the two values differ, a null included. */
  function ConfirmErrors(confirmPassword: Option<string>, password: Option<string>): (errs: seq<string>)
    ensures ConfirmRequired in errs <==> IsNullOrWhiteSpace(confirmPassword)
    ensures PasswordMismatch in errs <==> confirmPassword != password
    ensures forall m :: m in errs ==> m == ConfirmRequired || m == PasswordMismatch
  {
    assert ConfirmRequired[0] != PasswordMismatch[0];
    (if IsNullOrWhiteSpace(confirmPassword) then [ConfirmRequired] else [])
    + (if confirmPassword != password then [PasswordMismatch] else [])
  }

  /** The six messages of `RegisterModel` are pairwise different. */
  lemma RegisterMessagesDistinct()
    ensures EmailRequired != PasswordRequired && EmailRequired != PasswordLength
    ensures EmailRequired != ConfirmRequired && EmailRequired != PasswordMismatch
    ensures InvalidEmailFormat != PasswordRequired && InvalidEmailFormat != PasswordLength
    ensures InvalidEmailFormat != ConfirmRequired && InvalidEmailFormat != PasswordMismatch
    ensures PasswordRequired != ConfirmRequired && PasswordRequired != PasswordMismatch
    ensures PasswordLength != ConfirmRequired && PasswordLength != PasswordMismatch
  {
    assert EmailRequired[0] == 'E' && InvalidEmailFormat[0] == 'I';
    assert PasswordRequired[0] == 'P' && ConfirmRequired[0] == 'C';
    assert PasswordLength[0] == 'T' && PasswordMismatch[0] == 'T';
    assert |PasswordLength| != |PasswordMismatch|;
  }

  /** The messages of the attributes on `RegisterModel` that fail, in declaration
      order: every attribute is evaluated. */
  function RegisterErrors(m: RegisterModel): (errs: seq<string>)
    ensures EmailRequired in errs <==> IsNullOrWhiteSpace(m.email)
    ensures InvalidEmailFormat in errs <==> m.email.Some? && !IsEmailAddress(m.email.value)
    ensures PasswordRequired in errs <==> IsNullOrWhiteSpace(m.password)
    ensures PasswordLength in errs <==>
      m.password.Some? && !(PasswordMinLength <= Utf16Length(m.password.value) <= PasswordMaxLength)
    ensures ConfirmRequired in errs <==> IsNullOrWhiteSpace(m.confirmPassword)
    ensures PasswordMismatch in errs <==> m.confirmPassword != m.password
  {
    RegisterMessagesDistinct();
    EmailErrors(m.email) + PasswordErrors(m.password) + ConfirmErrors(m.confirmPassword, m.password)
  }

  /** Only the six declared messages ever appear. */
  lemma RegisterErrorsDeclared(m: RegisterModel)
    ensures forall e :: e in RegisterErrors(m) ==>
      || e == EmailRequired || e == InvalidEmailFormat || e == PasswordRequired
      || e == PasswordLength || e == ConfirmRequired || e == PasswordMismatch
  {
    var a, b, c := EmailErrors(m.email), PasswordErrors(m.password), ConfirmErrors(m.confirmPassword, m.password);
    assert RegisterErrors(m) == a + b + c;
    forall e | e in a + b + c
      ensures || e == EmailRequired || e == InvalidEmailFormat || e == PasswordRequired
              || e == PasswordLength || e == ConfirmRequired || e == PasswordMismatch
    {
      if e in a {} else if e in b {} else {}
    }
  }

  /** The messages of the attributes on `LoginModel` that fail. */
  function LoginErrors(m: LoginModel): (errs: seq<string>)
    ensures EmailRequired in errs <==> IsNullOrWhiteSpace(m.email)
    ensures InvalidEmailFormat in errs <==> m.email.Some? && !IsEmailAddress(m.email.value)
    ensures PasswordRequired in errs <==> IsNullOrWhiteSpace(m.password)
    ensures forall e :: e in errs ==> e == EmailRequired || e == InvalidEmailFormat || e == PasswordRequired
    ensures errs == [] <==>
      m.email.Some? && !IsBlank(m.email.value) && IsEmailAddress(m.email.value)
      && m.password.Some? && !IsBlank(m.password.value)
  {
    RegisterMessagesDistinct();
    var e := EmailErrors(m.email);
    var p := PasswordRequiredErrors(m.password);
    assert e != [] ==> e[0] in e;
    assert p != [] ==> p[0] in p;
    e + p
  }

  /** A registration passes validation exactly when the e-mail is present, not blank
      and well-formed, the password is present, not blank and 6 to 100 code units
      long, and the confirmation is present and equal to it. */
  lemma RegisterValidIff(m: RegisterModel)
    ensures RegisterErrors(m) == [] <==>
      && m.email.Some? && !IsBlank(m.email.value) && IsEmailAddress(m.email.value)
      && m.password.Some? && !IsBlank(m.password.value)
      && PasswordMinLength <= Utf16Length(m.password.value) <= PasswordMaxLength
      && m.confirmPassword == m.password
  {
    var errs := RegisterErrors(m);
    if errs != [] {
      assert errs[0] in errs;
    }
  }

  // ---------------------------------------------------------------------------
  // The error-field mappings of Register

  /** The `field` of a validation message: the first keyword it contains, matched
      case-sensitively, decides. */
  function FieldOfRegisterMessage(message: string): (field: string)
    ensures field == "email" <==> Contains(message, "Email")
    ensures field == "password" <==> !Contains(message, "Email") && Contains(message, "Password")
    ensures field == "confirmPassword" <==>
      !Contains(message, "Email") && !Contains(message, "Password") && Contains(message, "Confirm")
    ensures field == "" <==>
      !Contains(message, "Email") && !Contains(message, "Password") && !Contains(message, "Confirm")
  {
    if Contains(message, "Email") then "email"
    else if Contains(message, "Password") then "password"
    else if Contains(message, "Confirm") then "confirmPassword"
    else ""
  }

  /** The `field` of an Identity error, chosen by its code. */
  function FieldOfIdentityCode(code: string): (field: string)
    ensures field == "email" <==> Contains(code, "Email")
    ensures field == "password" <==> !Contains(code, "Email") && Contains(code, "Password")
    ensures field == "" <==> !Contains(code, "Email") && !Contains(code, "Password")
  {
    if Contains(code, "Email") then "email"
    else if Contains(code, "Password") then "password"
    else ""
  }

  /** The `Select` over `result.Errors`: field from the code, message from the description. */
  function IdentityFieldErrors(errors: seq<IdentityError>): (r: seq<FieldError>)
    ensures |r| == |errors|
    ensures forall i :: 0 <= i < |errors| ==>
      r[i] == FieldError(FieldOfIdentityCode(errors[i].code), errors[i].description)
  {
    if errors == [] then []
    else [FieldError(FieldOfIdentityCode(errors[0].code), errors[0].description)] + IdentityFieldErrors(errors[1..])
  }

  // The keyword tests below are stated for any text that has or lacks the
  // capital letters the keywords begin with.

  lemma RegisterFieldPassword(message: string)
    requires 'E' !in message && Contains(message, "Password")
    ensures FieldOfRegisterMessage(message) == "password"
  {
    ContainsNeedsFirstChar(message, "Email");
  }

  lemma RegisterFieldConfirm(message: string)
    requires 'E' !in message && 'P' !in message && Contains(message, "Confirm")
    ensures FieldOfRegisterMessage(message) == "confirmPassword"
  {
    ContainsNeedsFirstChar(message, "Email");
    ContainsNeedsFirstChar(message, "Password");
  }

  lemma RegisterFieldNone(message: string)
    requires 'E' !in message && 'P' !in message && 'C' !in message
    ensures FieldOfRegisterMessage(message) == ""
  {
    ContainsNeedsFirstChar(message, "Email");
    ContainsNeedsFirstChar(message, "Password");
    ContainsNeedsFirstChar(message, "Confirm");
  }

  lemma IdentityFieldPassword(code: string)
    requires 'E' !in code && Contains(code, "Password")
    ensures FieldOfIdentityCode(code) == "password"
  {
    ContainsNeedsFirstChar(code, "Email");
  }

  lemma IdentityFieldNone(code: string)
    requires 'E' !in code && 'P' !in code
    ensures FieldOfIdentityCode(code) == ""
  {
    ContainsNeedsFirstChar(code, "Email");
    ContainsNeedsFirstChar(code, "Password");
  }

  // The capitals and keywords of each message, shown one message at a time.

  lemma EmailRequiredText()
    ensures Contains(EmailRequired, "Email")
  {
    OccursContains(EmailRequired, "Email", 0);
  }

  lemma InvalidEmailFormatText()
    ensures 'E' !in InvalidEmailFormat && 'P' !in InvalidEmailFormat && 'C' !in InvalidEmailFormat
  {
  }

  lemma PasswordRequiredText()
    ensures 'E' !in PasswordRequired && Contains(PasswordRequired, "Password")
  {
    OccursContains(PasswordRequired, "Password", 0);
  }

  lemma PasswordLengthLacksE() ensures 'E' !in PasswordLength {}

  lemma PasswordLengthText()
    ensures 'E' !in PasswordLength && Contains(PasswordLength, "Password")
  {
    PasswordLengthLacksE();
    OccursContains("Password must be at least ", "Password", 0);
    ContainsInSuffix("The ", "Password must be at least ", "Password");
    ContainsInPrefix("The " + "Password must be at least ", "6 characters long.", "Password");
  }

  lemma ConfirmRequiredText()
    ensures 'E' !in ConfirmRequired && 'P' !in ConfirmRequired && Contains(ConfirmRequired, "Confirm")
  {
    OccursContains(ConfirmRequired, "Confirm", 0);
  }

  lemma MismatchLacksE() ensures 'E' !in PasswordMismatch {}
  lemma MismatchLacksP() ensures 'P' !in PasswordMismatch {}
  lemma MismatchLacksC() ensures 'C' !in PasswordMismatch {}

  /** Where each validation message of `RegisterModel` lands. The mapping is
      case-sensitive, so the format error, which says "email", and the mismatch
      error, which says "password" and "confirmation", fall through to the empty
      field. */
  lemma RegisterMessageFields()
    ensures FieldOfRegisterMessage(EmailRequired) == "email"
    ensures FieldOfRegisterMessage(InvalidEmailFormat) == ""
    ensures FieldOfRegisterMessage(PasswordRequired) == "password"
    ensures FieldOfRegisterMessage(PasswordLength) == "password"
    ensures FieldOfRegisterMessage(ConfirmRequired) == "confirmPassword"
    ensures FieldOfRegisterMessage(PasswordMismatch) == ""
  {
    EmailRequiredText();
    InvalidEmailFormatText();
    RegisterFieldNone(InvalidEmailFormat);
    PasswordRequiredText();
    RegisterFieldPassword(PasswordRequired);
    PasswordLengthText();
    RegisterFieldPassword(PasswordLength);
    ConfirmRequiredText();
    RegisterFieldConfirm(ConfirmRequired);
    MismatchLacksE();
    MismatchLacksP();
    MismatchLacksC();
    RegisterFieldNone(PasswordMismatch);
  }

  lemma IdentityCodesText()
    ensures 'E' !in "DuplicateUserName" && 'P' !in "DuplicateUserName"
    ensures Contains("DuplicateEmail", "Email")
    ensures 'E' !in "PasswordTooShort" && Contains("PasswordTooShort", "Password")
  {
    OccursContains("DuplicateEmail", "Email", 9);
    OccursContains("PasswordTooShort", "Password", 0);
  }

  /** Where Identity's usual error codes land. A taken e-mail is reported, because
      the user name is the e-mail, as "DuplicateUserName", which has no field. */
  lemma IdentityCodeFields()
    ensures FieldOfIdentityCode("DuplicateUserName") == ""
    ensures FieldOfIdentityCode("DuplicateEmail") == "email"
    ensures FieldOfIdentityCode("PasswordTooShort") == "password"
  {
    IdentityCodesText();
    IdentityFieldNone("DuplicateUserName");
    IdentityFieldPassword("PasswordTooShort");
  }

  // ---------------------------------------------------------------------------
  // Tokens

  datatype ClaimType = Sub | Jti | NameIdentifier

  datatype Claim = Claim(claimType: ClaimType, value: string)

  /** The `Jwt:*` configuration entries; `Jwt:Key` only feeds the signer. */
  datatype JwtConfig = JwtConfig(issuer: string, audience: string, durationInMinutes: int)

  /** A token as its claim set; `expires` is a UTC instant in ticks. */
  datatype Token = Token(issuer: string, audience: string, claims: seq<Claim>, expires: int)

  const TicksPerMinute := 600_000_000

  /** `ClaimsPrincipal.FindFirstValue(type)`: the value of the first claim of that type. */
  function FindFirstValue(claims: seq<Claim>, claimType: ClaimType): (r: Option<string>)
    ensures r.Some? ==> exists i ::
      && 0 <= i < |claims| && claims[i] == Claim(claimType, r.value)
      && forall j :: 0 <= j < i ==> claims[j].claimType != claimType
    ensures r.None? <==> forall c :: c in claims ==> c.claimType != claimType
  {
    if claims == [] then None
    else if claims[0].claimType == claimType then Some(claims[0].value)
    else
      assert forall k :: 0 <= k < |claims[1..]| ==> claims[1..][k] == claims[k + 1];
      FindFirstValue(claims[1..], claimType)
  }

  /** GenerateJwtToken: subject = the e-mail, a fresh token id, NameIdentifier = the
      user id, expiring the configured number of minutes after `now`. */
  function GenerateJwtToken(config: JwtConfig, user: User, jti: string, now: int): (t: Token)
    ensures FindFirstValue(t.claims, Sub) == Some(user.email)
    ensures FindFirstValue(t.claims, Jti) == Some(jti)
    ensures FindFirstValue(t.claims, NameIdentifier) == Some(user.id)
    ensures |t.claims| == 3
    ensures t.issuer == config.issuer && t.audience == config.audience
    ensures t.expires == now + config.durationInMinutes * TicksPerMinute
  {
    var claims := [Claim(Sub, user.email), Claim(Jti, jti), Claim(NameIdentifier, user.id)];
    assert claims[1..] == [Claim(Jti, jti), Claim(NameIdentifier, user.id)];
    assert claims[1..][1..] == [Claim(NameIdentifier, user.id)];
    Token(config.issuer, config.audience, claims, now + config.durationInMinutes * TicksPerMinute)
  }

  /** The identity the notes controller acts for: `User.FindFirstValue(ClaimTypes.NameIdentifier)`. */
  function CallerId(t: Token): (r: Option<string>)
    ensures r.Some? ==> Claim(NameIdentifier, r.value) in t.claims
    ensures r.None? <==> forall c :: c in t.claims ==> c.claimType != NameIdentifier
    ensures forall config, user, jti, now :: t == GenerateJwtToken(config, user, jti, now) ==> r == Some(user.id)
  {
    FindFirstValue(t.claims, NameIdentifier)
  }

  /** The claim-type mapping a bearer handler applies when it maps inbound claims:
      the registered `sub` claim becomes a NameIdentifier claim. */
  function MapInbound(claims: seq<Claim>): (r: seq<Claim>)
    ensures |r| == |claims|
    ensures forall i :: 0 <= i < |claims| ==>
      r[i] == (if claims[i].claimType == Sub then Claim(NameIdentifier, claims[i].value) else claims[i])
  {
    if claims == [] then []
    else
      [if claims[0].claimType == Sub then Claim(NameIdentifier, claims[0].value) else claims[0]]
      + MapInbound(claims[1..])
  }

  /** Under that mapping the first NameIdentifier claim of a token from
      GenerateJwtToken is the e-mail, since the subject claim comes first; the
      user id is only the second. */
  lemma MappedCallerIsEmail(config: JwtConfig, user: User, jti: string, now: int)
    ensures FindFirstValue(MapInbound(GenerateJwtToken(config, user, jti, now).claims), NameIdentifier) == Some(user.email)
  {
    var mapped := MapInbound(GenerateJwtToken(config, user, jti, now).claims);
    assert mapped[0] == Claim(NameIdentifier, user.email);
  }

  // ---------------------------------------------------------------------------
  // The controller

  const UserCreationFailed := "User creation failed"
  const InvalidLoginAttempt := "Invalid login attempt."
  const InternalErrorMessage := "An error occurred while processing your request."

  datatype RegisterResult =
    | RegisterOk(token: Token)
      // 400 `{ message, errors: [{ field, message }] }`
    | RegisterRejected(message: string, errors: seq<FieldError>)
      // 400 `{ message, errors: [string] }`, the explicit mismatch check
    | RegisterMismatch(message: string, reasons: seq<string>)

  datatype LoginResult =
    | LoginOk(token: Token)
    | LoginInvalid(errors: seq<string>)
    | Unauthorized(message: string)
    | ServerError(message: string)

  class AuthController {
    const userManager: UserManager
    const jwt: JwtConfig

    /** Every user has come in through Register, so its user name is its e-mail. */
    ghost predicate Valid()
      reads this, userManager
    {
      && userManager.Valid()
      && forall i :: 0 <= i < |userManager.users| ==> userManager.users[i].userName == userManager.users[i].email
    }

    constructor (userManager: UserManager, jwt: JwtConfig)
      requires userManager.Valid()
      requires forall u :: u in userManager.users ==> u.userName == u.email
      ensures Valid()
      ensures this.userManager == userManager && this.jwt == jwt
    {
      this.userManager := userManager;
      this.jwt := jwt;
    }

    /** Register. `newId` is the GUID of the new user, `jti` the GUID of its token. */
    method Register(model: RegisterModel, newId: string, jti: string, now: int) returns (r: RegisterResult)
      requires Valid()
      requires forall u :: u in userManager.users ==> u.id != newId
      modifies userManager
      ensures Valid()
      ensures !r.RegisterOk? ==> userManager.users == old(userManager.users)
      ensures RegisterErrors(model) != [] ==>
        r == RegisterRejected(ValidationFailedMessage, FieldErrors(RegisterErrors(model), FieldOfRegisterMessage))
      ensures RegisterErrors(model) == [] ==>
        var email, password := model.email.value, model.password.value;
        var user := User(newId, email, email, "");
        var errors := CreationErrors(userManager.identity, old(userManager.users), user, password);
        && (errors == [] ==>
              && r == RegisterOk(GenerateJwtToken(jwt, user, jti, now))
              && userManager.users == old(userManager.users) + [user.(passwordHash := userManager.identity.hash(password))])
        && (errors != [] ==> r == RegisterRejected(UserCreationFailed, IdentityFieldErrors(errors)))
      ensures r.RegisterOk? ==> CallerId(r.token) == Some(newId) && FindFirstValue(r.token.claims, Sub) == model.email
    {
      var errors := RegisterErrors(model);
      if errors != [] {
        return RegisterRejected(ValidationFailedMessage, FieldErrors(errors, FieldOfRegisterMessage));
      }
      if model.password != model.confirmPassword {
        return RegisterMismatch(ValidationFailedMessage, [PasswordMismatch]);
      }
      var email, password := model.email.value, model.password.value;
      var user := User(newId, email, email, "");
      ghost var before := userManager.users;
      var result := userManager.CreateAsync(user, password);
      forall i | 0 <= i < |userManager.users|
        ensures userManager.users[i].userName == userManager.users[i].email
      {
        if i < |before| {
          assert userManager.users[i] == before[i];
        }
      }
      if result.Succeeded? {
        return RegisterOk(GenerateJwtToken(jwt, user, jti, now));
      }
      r := RegisterRejected(UserCreationFailed, IdentityFieldErrors(result.errors));
    }

    /** Login. Every failed sign-in, whatever its cause, is the same Unauthorized. */
    method Login(model: LoginModel, jti: string, now: int) returns (r: LoginResult)
      requires Valid()
      ensures LoginErrors(model) != [] ==> r == LoginInvalid(LoginErrors(model))
      ensures LoginErrors(model) == [] ==>
        var identity, users := userManager.identity, userManager.users;
        var email, password := model.email.value, model.password.value;
        && (!PasswordSignIn(identity, users, email, password) ==> r == Unauthorized(InvalidLoginAttempt))
        && (PasswordSignIn(identity, users, email, password) ==>
              var user := FindByName(users, identity.normalize, email).value;
              r == LoginOk(GenerateJwtToken(jwt, user, jti, now)))
    {
      var errors := LoginErrors(model);
      if errors != [] {
        return LoginInvalid(errors);
      }
      var email, password := model.email.value, model.password.value;
      if PasswordSignIn(userManager.identity, userManager.users, email, password) {
        var user := FindByEmail(userManager.users, userManager.identity.normalize, email);
        if user.None? {
          // GenerateJwtToken(null) throws, and the catch-all answers 500.
          return ServerError(InternalErrorMessage);
        }
        SignedInUserFoundByEmail(userManager.identity.normalize, userManager.users, email);
        return LoginOk(GenerateJwtToken(jwt, user.value, jti, now));
      }
      r := Unauthorized(InvalidLoginAttempt);
    }
  }

  /** When every user name is the user's e-mail, looking a user up by e-mail finds
      the user that looking up by user name finds. So the user a successful sign-in
      found always gets its token, and the 500 answer of Login is never given. */
  lemma {:induction false} SignedInUserFoundByEmail(normalize: string -> string, users: seq<User>, email: string)
    requires forall i :: 0 <= i < |users| ==> users[i].userName == users[i].email
    ensures FindByEmail(users, normalize, email) == FindByName(users, normalize, email)
  {
    if users != [] {
      SignedInUserFoundByEmail(normalize, users[1..], email);
    }
  }

  /** The explicit password check of Register (lines 51-54) is never reached: the
      `[Compare]` attribute already puts a mismatch into the validation errors.
      Either way a mismatch is a "Validation failed" that creates no user. */
  lemma MismatchCaughtByValidation(m: RegisterModel)
    requires m.password != m.confirmPassword
    ensures RegisterErrors(m) != []
    ensures FieldError("", PasswordMismatch) in FieldErrors(RegisterErrors(m), FieldOfRegisterMessage)
  {
    RegisterMessageFields();
    var errs := RegisterErrors(m);
    var i :| 0 <= i < |errs| && errs[i] == PasswordMismatch;
    assert FieldErrors(errs, FieldOfRegisterMessage)[i] == FieldError("", PasswordMismatch);
  }

  /** Looking a name up in a table that gains one user at the end. */
  lemma {:induction false} FindByNameAppend(users: seq<User>, normalize: string -> string, name: string, u: User)
    requires FindByName(users, normalize, name).None?
    ensures FindByName(users + [u], normalize, name) ==
      if normalize(u.userName) == normalize(name) then Some(u) else None
  {
    if users == [] {
      assert users + [u] == [u];
    } else {
      assert (users + [u])[1..] == users[1..] + [u];
      FindByNameAppend(users[1..], normalize, name, u);
    }
  }

  /** Registering and then signing in with the same credentials: both answers carry
      a token, and both tokens identify the new user to the notes controller. What
      Identity must allow is taken as given: the password passes its validators,
      no other user validator objects, the stored hash verifies the password, and
      nothing bars the new user from signing in. */
  method RegisterThenLogin(auth: AuthController, email: string, password: string,
                           newId: string, jti: string, jti2: string, now: int)
      returns (registered: RegisterResult, loggedIn: LoginResult)
    requires auth.Valid()
    requires forall u :: u in auth.userManager.users ==> u.id != newId
    requires RegisterErrors(RegisterModel(Some(email), Some(password), Some(password))) == []
    requires FindByName(auth.userManager.users, auth.userManager.identity.normalize, email).None?
    requires auth.userManager.identity.passwordErrors(password) == []
    requires auth.userManager.identity.userErrors(auth.userManager.users, User(newId, email, email, "")) == []
    requires auth.userManager.identity.verify(auth.userManager.identity.hash(password), password)
    requires auth.userManager.identity.canSignIn(User(newId, email, email, auth.userManager.identity.hash(password)))
    modifies auth.userManager
    ensures auth.Valid()
    ensures registered.RegisterOk? && loggedIn.LoginOk?
    ensures CallerId(registered.token) == Some(newId) && CallerId(loggedIn.token) == Some(newId)
  {
    ghost var before := auth.userManager.users;
    ghost var identity := auth.userManager.identity;
    registered := auth.Register(RegisterModel(Some(email), Some(password), Some(password)), newId, jti, now);
    RegisterValidIff(RegisterModel(Some(email), Some(password), Some(password)));
    var user := User(newId, email, email, identity.hash(password));
    assert auth.userManager.users == before + [user];
    FindByNameAppend(before, identity.normalize, email, user);
    loggedIn := auth.Login(LoginModel(Some(email), Some(password)), jti2, now);
  }
}
