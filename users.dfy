/** The credential rules of the user service and the decisions `registerUser`
    and `signInUser` take before (and instead of) hashing, authentication and
    token generation. */
module Users {
  import opened Text
  import opened Store
  import opened Notes

  predicate IsAsciiLetter(c: char) {
    'A' <= c <= 'Z' || 'a' <= c <= 'z'
  }

  predicate IsAsciiDigit(c: char) {
    '0' <= c <= '9'
  }

  predicate AllChars(s: string, p: char -> bool) {
    forall i :: 0 <= i < |s| ==> p(s[i])
  }

  /** The class `[A-Za-z'\-]` of a name. */
  predicate NameChar(c: char) {
    IsAsciiLetter(c) || c == '\'' || c == '-'
  }

  /** The class `[A-Za-z0-9._%+-]` of the part before the `@`. */
  predicate LocalChar(c: char) {
    IsAsciiLetter(c) || IsAsciiDigit(c) || c == '.' || c == '_' || c == '%' || c == '+' || c == '-'
  }

  /** The class `[A-Za-z0-9.-]` of the domain before its last dot. */
  predicate DomainChar(c: char) {
    IsAsciiLetter(c) || IsAsciiDigit(c) || c == '.' || c == '-'
  }

  /** The class `[!@#$%^&*(),.?":{}|<>]` a password must draw on. */
  predicate SpecialChar(c: char) {
    c in "!@#$%^&*(),.?\":{}|<>"
  }

  /** The characters a regular-expression `.` does not match. */
  predicate LineTerminator(c: char) {
    c == '\n' || c == '\r' || c == '\U{0085}' || c == '\U{2028}' || c == '\U{2029}'
  }

  /** `isValidName`: not blank and matching `^[A-Za-z'\-]{1,50}$`. */
  predicate IsValidName(name: string) {
    !IsBlank(name) && 1 <= |name| <= 50 && AllChars(name, NameChar)
  }

  /** A valid name is 1 to 50 letters, apostrophes and hyphens; the blank test
      in front of the pattern never decides anything. */
  lemma ValidNameExact(name: string)
    ensures IsValidName(name) <==> 1 <= |name| <= 50 && AllChars(name, NameChar)
  {
    if 1 <= |name| && AllChars(name, NameChar) {
      assert !IsWhitespace(name[0]);
    }
  }

  /** The position of the last occurrence of `c`. */
  function LastIndexOf(s: string, c: char): (i: nat)
    requires c in s
    ensures i < |s| && s[i] == c && c !in s[i + 1..]
  {
    if s[|s| - 1] == c then |s| - 1
    else
      assert c in s[..|s| - 1] by {
        var k :| 0 <= k < |s| && s[k] == c;
        assert s[..|s| - 1][k] == c;
      }
      var i := LastIndexOf(s[..|s| - 1], c);
      assert s[i + 1..] == s[..|s| - 1][i + 1..] + [s[|s| - 1]];
      i
  }

  lemma LastIndexOfUnique(s: string, c: char, i: nat)
    requires i < |s| && s[i] == c && c !in s[i + 1..]
    ensures LastIndexOf(s, c) == i
  {
  }

  /** The e-mail pattern split at `at` and `dot`: a non-empty local part, the
      `@`, a non-empty domain, the `.`, and at least two letters to the end. */
  predicate EmailSplit(email: string, at: int, dot: int) {
    0 < at && at + 1 < dot && dot + 2 < |email|
    && email[at] == '@' && email[dot] == '.'
    && AllChars(email[..at], LocalChar)
    && AllChars(email[at + 1..dot], DomainChar)
    && AllChars(email[dot + 1..], IsAsciiLetter)
  }

  /** The language of `^[A-Za-z0-9._%+-]+@[A-Za-z0-9.-]+\.[A-Za-z]{2,}$`: some
      way of cutting the text into the pattern's pieces. */
  ghost predicate MatchesEmailPattern(email: string) {
    exists at, dot :: EmailSplit(email, at, dot)
  }

  /** `isValidEmail`. The pattern leaves one cut to try: no piece after the
      `@` may hold another `@`, and the top-level domain holds no dot, so the
      cut is at the first `@` and the last `.`. */
  predicate IsValidEmail(email: string) {
    !IsBlank(email) && '@' in email && '.' in email
    && EmailSplit(email, IndexOf(email, '@'), LastIndexOf(email, '.'))
  }

  /** An e-mail is accepted exactly when it matches the pattern. */
  lemma ValidEmailMatchesPattern(email: string)
    ensures IsValidEmail(email) ==> MatchesEmailPattern(email)
  {
    if IsValidEmail(email) {
      assert EmailSplit(email, IndexOf(email, '@'), LastIndexOf(email, '.'));
    }
  }

  lemma PatternEmailIsValid(email: string, at: int, dot: int)
    requires EmailSplit(email, at, dot)
    ensures IsValidEmail(email)
  {
    assert email[..at][at - 1] == email[at - 1];
    assert '@' !in email[..at] by {
      forall k | 0 <= k < at
        ensures email[..at][k] != '@'
      {
        assert LocalChar(email[..at][k]);
      }
    }
    IndexOfUnique(email, '@', at);
    assert '.' !in email[dot + 1..] by {
      var tld := email[dot + 1..];
      forall k | 0 <= k < |tld|
        ensures tld[k] != '.'
      {
        assert IsAsciiLetter(tld[k]);
      }
    }
    LastIndexOfUnique(email, '.', dot);
    assert !IsWhitespace(email[at]);
  }

  /** The two e-mails the pattern separates by its last piece. */
  lemma EmailExamples()
    ensures IsValidEmail("ann.lee@mail.example.com")
    ensures !IsValidEmail("ann@mail.c")
  {
    PatternEmailIsValid("ann.lee@mail.example.com", 7, 20);
    if IsValidEmail("ann@mail.c") {
      assert LastIndexOf("ann@mail.c", '.') == 8 by {
        LastIndexOfUnique("ann@mail.c", '.', 8);
      }
    }
  }

  predicate HasUpper(s: string) {
    exists i :: 0 <= i < |s| && 'A' <= s[i] <= 'Z'
  }

  predicate HasLower(s: string) {
    exists i :: 0 <= i < |s| && 'a' <= s[i] <= 'z'
  }

  predicate HasDigit(s: string) {
    exists i :: 0 <= i < |s| && IsAsciiDigit(s[i])
  }

  /** `matches(".*[…].*")`: a special character, with no line terminator
      before or after it. */
  predicate MatchesSpecialPattern(s: string) {
    exists i :: 0 <= i < |s| && SpecialChar(s[i])
      && !(exists j :: 0 <= j < i && LineTerminator(s[j]))
      && !(exists j :: i < j < |s| && LineTerminator(s[j]))
  }

  /** `isValidPassword`. */
  predicate IsValidPassword(password: string) {
    !IsBlank(password) && 8 <= |password| <= 16
    && HasUpper(password) && HasLower(password) && HasDigit(password)
    && MatchesSpecialPattern(password)
  }

  /** The password rule as the message to the user states it, plus the one
      thing the pattern adds: the password holds no line terminator. */
  lemma ValidPasswordExact(password: string)
    ensures IsValidPassword(password) <==>
      8 <= |password| <= 16
      && HasUpper(password) && HasLower(password) && HasDigit(password)
      && (exists i :: 0 <= i < |password| && SpecialChar(password[i]))
      && forall j :: 0 <= j < |password| ==> !LineTerminator(password[j])
  {
    if HasUpper(password) {
      var i :| 0 <= i < |password| && 'A' <= password[i] <= 'Z';
      assert !IsWhitespace(password[i]);
    }
    if MatchesSpecialPattern(password) {
      var i :| 0 <= i < |password| && SpecialChar(password[i])
        && !(exists j :: 0 <= j < i && LineTerminator(password[j]))
        && !(exists j :: i < j < |password| && LineTerminator(password[j]));
      forall j | 0 <= j < |password|
        ensures !LineTerminator(password[j])
      {
        if j == i {
          assert SpecialChar(password[i]);
        }
      }
    }
  }

  /** A password of eight characters with one of each kind is accepted. */
  lemma PasswordAccepted()
    ensures IsValidPassword("Passw0rd!")
  {
    var p := "Passw0rd!";
    assert 'A' <= p[0] <= 'Z' && 'a' <= p[1] <= 'z' && IsAsciiDigit(p[5]);
    assert SpecialChar(p[8]);
    assert !(exists j :: 0 <= j < 8 && LineTerminator(p[j]));
    assert !IsWhitespace(p[0]);
  }

  /** The same password is refused once it ends in a newline. */
  lemma PasswordNewlineRefused()
    ensures !IsValidPassword("Passw0rd!\n")
  {
    var q := "Passw0rd!\n";
    ValidPasswordExact(q);
    assert LineTerminator(q[9]);
  }

  datatype SignupRequest = SignupRequest(firstName: string, lastName: string, email: string, password: string)

  /** What the checks of `registerUser` decide: an error reply, or the role the
      new user record is written with. */
  datatype Registration = Refused(code: int, note: Note) | Register(role: string)

  /** `checkIfWaiter`: a user record under that e-mail with role "WAITER" in
      any case. */
  predicate IsListedWaiter(users: map<string, User>, email: string) {
    email in users && Lower(users[email].role) == "waiter"
  }

  /** A stored password (a missing one counts as blank) marks a registered user. */
  predicate HasAccount(users: map<string, User>, email: string) {
    email in users && !IsBlank(users[email].password)
  }

  /** The checks of `registerUser` in order: first name, last name, e-mail and
      password (400 each, with its own message), an account already there
      (409); then the role. */
  function RegisterDecision(users: map<string, User>, req: SignupRequest): (r: Registration)
    ensures r == Refused(400, InvalidFirstName) <==> !IsValidName(req.firstName)
    ensures r == Refused(400, InvalidLastName) <==> IsValidName(req.firstName) && !IsValidName(req.lastName)
    ensures r == Refused(400, InvalidEmail) <==>
      IsValidName(req.firstName) && IsValidName(req.lastName) && !IsValidEmail(req.email)
    ensures r == Refused(400, WeakPassword) <==>
      IsValidName(req.firstName) && IsValidName(req.lastName) && IsValidEmail(req.email)
      && !IsValidPassword(req.password)
    ensures r.Refused? && r.code == 409 <==>
      IsValidName(req.firstName) && IsValidName(req.lastName) && IsValidEmail(req.email)
      && IsValidPassword(req.password) && HasAccount(users, req.email)
    ensures r.Refused? ==> r.code == 400 || r == Refused(409, UserExists)
    ensures r.Register? ==> (r.role == "WAITER" <==> IsListedWaiter(users, req.email))
    ensures r.Register? ==> r.role == "WAITER" || r.role == "CUSTOMER"
  {
    if !IsValidName(req.firstName) then Refused(400, InvalidFirstName)
    else if !IsValidName(req.lastName) then Refused(400, InvalidLastName)
    else if !IsValidEmail(req.email) then Refused(400, InvalidEmail)
    else if !IsValidPassword(req.password) then Refused(400, WeakPassword)
    else if HasAccount(users, req.email) then Refused(409, UserExists)
    else if IsListedWaiter(users, req.email) then Register("WAITER")
    else Register("CUSTOMER")
  }

  /** The user record `registerUser` writes, with the encoded password the
      hashing produced. The waiter record it also touches is not modelled. */
  function RegisteredUsers(users: map<string, User>, req: SignupRequest, encoded: string): map<string, User>
    requires RegisterDecision(users, req).Register?
  {
    users[req.email := User(req.firstName, req.lastName, encoded, RegisterDecision(users, req).role)]
  }

  /** Registering the same e-mail again is refused with 409 once the first
      registration stored a (non-blank) password. */
  lemma RegisterTwiceConflicts(users: map<string, User>, req: SignupRequest, again: SignupRequest, encoded: string)
    requires RegisterDecision(users, req).Register?
    requires !IsBlank(encoded)
    requires again.email == req.email && IsValidName(again.firstName) && IsValidName(again.lastName)
    requires IsValidPassword(again.password)
    ensures RegisterDecision(RegisteredUsers(users, req, encoded), again) == Refused(409, UserExists)
  {
    assert HasAccount(RegisteredUsers(users, req, encoded), again.email);
  }

  /** A user record left without a password (a waiter entered by staff) is
      registered over, and keeps the waiter role. */
  lemma RegisterOverPasswordless(users: map<string, User>, req: SignupRequest)
    requires IsValidName(req.firstName) && IsValidName(req.lastName)
    requires IsValidEmail(req.email) && IsValidPassword(req.password)
    requires IsListedWaiter(users, req.email) && IsBlank(users[req.email].password)
    ensures RegisterDecision(users, req) == Register("WAITER")
  {
  }

  datatype SigninRequest = SigninRequest(email: string, password: string)

  /** The body of a successful sign-in, without its access token. */
  datatype Session = Session(username: string, role: string, locationId: Option<string>)

  /** `signInUser`. `authenticated` is the outcome of the password check the
      authentication manager makes; when it fails it throws, and the service
      answers 400 "Error while signing". */
  function SignIn(users: map<string, User>, waiters: map<string, Waiter>, req: SigninRequest, authenticated: bool): (r: Reply<Session>)
    ensures r.Message? ==> r.code == 400 || r.code == 403
    ensures r == Message(400, EmailNotValid) <==> !IsValidEmail(req.email)
    ensures r == Message(400, PasswordEmpty) <==> IsValidEmail(req.email) && IsBlank(req.password)
    ensures r.Body? ==>
      r.code == 200 && IsValidEmail(req.email) && !IsBlank(req.password) && authenticated
      && HasAccount(users, req.email)
      && r.value.username == users[req.email].firstName + " " + users[req.email].lastName
      && r.value.role == users[req.email].role
      && (r.value.locationId.Some? <==> IsListedWaiter(users, req.email))
      && (r.value.locationId.Some? ==>
            req.email in waiters && r.value.locationId.value == waiters[req.email].locationId)
    ensures !r.Thrown?
  {
    if !IsValidEmail(req.email) then Message(400, EmailNotValid)
    else if IsBlank(req.password) then Message(400, PasswordEmpty)
    else if !HasAccount(users, req.email) then Message(403, BadCredentials)
    else if !authenticated then Message(400, SignInFailed)
    else
      var u := users[req.email];
      var name := u.firstName + " " + u.lastName;
      if IsListedWaiter(users, req.email) then
        if req.email !in waiters then Message(403, BadCredentials)
        else Body(200, Session(name, u.role, Some(waiters[req.email].locationId)))
      else Body(200, Session(name, u.role, None))
  }

  /** Sign-in succeeds exactly for a valid e-mail, a non-blank password that
      authenticates, an account with a stored password and, for a waiter, a
      waiter record. */
  lemma SignInAccepted(users: map<string, User>, waiters: map<string, Waiter>, req: SigninRequest, authenticated: bool)
    ensures SignIn(users, waiters, req, authenticated).Body? <==>
      IsValidEmail(req.email) && !IsBlank(req.password) && HasAccount(users, req.email) && authenticated
      && (IsListedWaiter(users, req.email) ==> req.email in waiters)
  {
  }

  /** A customer who has just registered, with a non-blank encoded password,
      signs in under the name and role registration stored. */
  lemma RegisterThenSignIn(users: map<string, User>, waiters: map<string, Waiter>, req: SignupRequest, encoded: string)
    requires RegisterDecision(users, req) == Register("CUSTOMER")
    requires !IsBlank(encoded)
    ensures SignIn(RegisteredUsers(users, req, encoded), waiters, SigninRequest(req.email, req.password), true)
      == Body(200, Session(req.firstName + " " + req.lastName, "CUSTOMER", None))
  {
    var after := RegisteredUsers(users, req, encoded);
    assert IsValidEmail(req.email) && !IsBlank(req.password);
    assert HasAccount(after, req.email);
    assert |Lower("CUSTOMER")| == 8;
    assert !IsListedWaiter(after, req.email);
  }
}
