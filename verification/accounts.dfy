/**
 * The account collection of `backend/models/User.js` and the decisions taken over it
 * by `backend/routes/auth.js` (signup, login reply, `/me`) and `backend/passportConfig.js`
 * (the local strategy, the Google strategy, session serialisation). Accounts are a
 * sequence in natural order, so `findOne` is "the first match". bcrypt is an abstract
 * `Hasher`; the salt, the fresh ObjectId and the clock are parameters.
 */
module Accounts {
  import opened Wrappers
  import Text

  type Id = string

  /** A `UserSchema` document (`timestamps: true` adds the two dates). */
  datatype User = User(
    id: Id,
    email: Option<string>,
    passwordHash: Option<string>,
    displayName: Option<string>,
    googleId: Option<string>,
    createdAt: int,
    updatedAt: int)

  datatype Directory = Directory(users: seq<User>)

  /** `email: { unique: true, sparse: true }`: accounts without an email do not collide. */
  predicate UniqueEmails(us: seq<User>) {
    forall i, j :: 0 <= i < j < |us| && us[i].email.Some? ==> us[i].email != us[j].email
  }

  predicate DistinctIds(us: seq<User>) {
    forall i, j :: 0 <= i < j < |us| ==> us[i].id != us[j].id
  }

  predicate Valid(d: Directory) {
    UniqueEmails(d.users) && DistinctIds(d.users)
  }

  predicate HasId(d: Directory, id: Id) {
    exists i :: 0 <= i < |d.users| && d.users[i].id == id
  }

  /** bcrypt: `hash(password, salt)` and `compare(password, hash)`. */
  datatype Hasher = Hasher(hash: (string, string) -> string, compare: (string, string) -> bool)

  /** A hash is never empty, and a password always matches a hash made from it. */
  ghost predicate Consistent(h: Hasher) {
    forall p, salt :: |h.hash(p, salt)| > 0 && h.compare(p, h.hash(p, salt))
  }

  const SaltRounds := 10

  /** The only account fields a reply carries: `{ id, email, displayName }`. */
  datatype PublicUser = PublicUser(id: Id, email: Option<string>, displayName: Option<string>)

  function View(u: User): PublicUser {
    PublicUser(u.id, u.email, u.displayName)
  }

  /** A reply never depends on the password hash or the Google id of the account. */
  lemma ViewHidesSecrets(u: User, hash: Option<string>, googleId: Option<string>)
    ensures View(u.(passwordHash := hash, googleId := googleId)) == View(u)
  {
  }

  datatype Body = Message(text: string) | Problem(error: string) | Account(user: PublicUser)

  datatype Reply = Reply(status: int, body: Body)

  datatype Step = Step(directory: Directory, reply: Reply)

  /** `User.findOne({ email })`. */
  function FindByEmail(us: seq<User>, email: string): (k: Option<nat>)
    ensures k.Some? ==> k.value < |us| && us[k.value].email == Some(email)
    ensures k.Some? ==> forall i :: 0 <= i < k.value ==> us[i].email != Some(email)
    ensures k.None? ==> forall i :: 0 <= i < |us| ==> us[i].email != Some(email)
  {
    if |us| == 0 then None
    else if us[0].email == Some(email) then Some(0)
    else match FindByEmail(us[1..], email)
      case None => None
      case Some(k) => Some(k + 1)
  }

  const CredentialsRequired := Reply(400, Message("Email & password required"))
  const EmailTaken := Reply(400, Message("Email already exists"))

  /** POST `/signup`: validate, refuse a taken email, store a salted hash, reply with the view. */
  function Signup(d: Directory, email: Option<string>, password: Option<string>, displayName: Option<string>,
                  salt: string, freshId: Id, now: int, h: Hasher): (s: Step)
    ensures !Text.Truthy(email) || !Text.Truthy(password) ==> s == Step(d, CredentialsRequired)
    ensures Text.Truthy(email) && Text.Truthy(password) && FindByEmail(d.users, email.value).Some? ==>
      s == Step(d, EmailTaken)
    ensures s.reply.status == 200 ==>
      && Text.Truthy(email) && Text.Truthy(password)
      && FindByEmail(d.users, email.value).None?
      && var u := User(freshId, email, Some(h.hash(password.value, salt)), displayName, None, now, now);
         s.directory.users == d.users + [u] && s.reply == Reply(200, Account(View(u)))
    ensures s.reply.status == 200 || s.directory == d
  {
    if !Text.Truthy(email) || !Text.Truthy(password) then Step(d, CredentialsRequired)
    else if FindByEmail(d.users, email.value).Some? then Step(d, EmailTaken)
    else
      var u := User(freshId, email, Some(h.hash(password.value, salt)), displayName, None, now, now);
      Step(Directory(d.users + [u]), Reply(200, Account(View(u))))
  }

  lemma SignupPreservesValid(d: Directory, email: Option<string>, password: Option<string>,
                             displayName: Option<string>, salt: string, freshId: Id, now: int, h: Hasher)
    requires Valid(d) && !HasId(d, freshId)
    ensures Valid(Signup(d, email, password, displayName, salt, freshId, now, h).directory)
  {
  }

  /** The outcome of a passport strategy: `done(err)`, `done(null, false, info)` or `done(null, user)`. */
  datatype Verdict = Errored | Rejected(info: Option<string>) | Authenticated(user: User)

  /** The LocalStrategy verify callback: "No user", "Use Google login", "Wrong password", or the user. */
  function LocalVerify(d: Directory, email: string, password: string, h: Hasher): (v: Verdict)
    ensures v.Authenticated? <==>
      && FindByEmail(d.users, email).Some?
      && var u := d.users[FindByEmail(d.users, email).value];
         Text.Truthy(u.passwordHash) && h.compare(password, u.passwordHash.value)
    ensures v.Authenticated? ==> v.user == d.users[FindByEmail(d.users, email).value]
    ensures FindByEmail(d.users, email).None? ==> v == Rejected(Some("No user"))
    ensures FindByEmail(d.users, email).Some? && !Text.Truthy(d.users[FindByEmail(d.users, email).value].passwordHash) ==>
      v == Rejected(Some("Use Google login"))
    ensures FindByEmail(d.users, email).Some? ==>
      var u := d.users[FindByEmail(d.users, email).value];
      Text.Truthy(u.passwordHash) && !h.compare(password, u.passwordHash.value) ==>
      v == Rejected(Some("Wrong password"))
  {
    match FindByEmail(d.users, email)
    case None => Rejected(Some("No user"))
    case Some(k) =>
      var u := d.users[k];
      if !Text.Truthy(u.passwordHash) then Rejected(Some("Use Google login"))
      else if !h.compare(password, u.passwordHash.value) then Rejected(Some("Wrong password"))
      else Authenticated(u)
  }

  /** The `/login` callback: an error goes to the error handler (500), a rejection is a 400. */
  function LoginReply(v: Verdict): (r: Reply)
    ensures v.Rejected? ==> r.status == 400 && r.body.Message?
    ensures v.Rejected? && Text.Truthy(v.info) ==> r.body.text == v.info.value
    ensures v.Rejected? && !Text.Truthy(v.info) ==> r.body.text == "Invalid credentials"
    ensures v.Authenticated? ==> r == Reply(200, Account(View(v.user)))
    ensures v.Errored? ==> r.status == 500
  {
    match v
    case Errored => Reply(500, Message("Server error"))
    case Rejected(info) =>
      Reply(400, Message(if Text.Truthy(info) then info.value else "Invalid credentials"))
    case Authenticated(u) => Reply(200, Account(View(u)))
  }

  /**
   * POST `/login` through passport-local: an empty or missing `email` or `password` fails with
   * "Missing credentials" before the verify callback runs; otherwise the callback decides.
   */
  function Login(d: Directory, email: Option<string>, password: Option<string>, h: Hasher): (r: Reply)
    ensures !Text.Truthy(email) || !Text.Truthy(password) ==> r == Reply(400, Message("Missing credentials"))
    ensures Text.Truthy(email) && Text.Truthy(password) ==>
      r == LoginReply(LocalVerify(d, email.value, password.value, h))
  {
    if !Text.Truthy(email) || !Text.Truthy(password) then LoginReply(Rejected(Some("Missing credentials")))
    else LoginReply(LocalVerify(d, email.value, password.value, h))
  }

  /** A login without both credentials is refused the same way whatever accounts exist. */
  lemma MissingCredentialsIgnoreAccounts(d: Directory, e: Directory, email: Option<string>,
                                         password: Option<string>, h: Hasher, g: Hasher)
    requires !Text.Truthy(email) || !Text.Truthy(password)
    ensures Login(d, email, password, h) == Login(e, email, password, g)
    ensures Login(d, email, password, h).status == 400
  {
  }

  /** Someone who just signed up can log in with the same email and password. */
  lemma SignupThenLogin(d: Directory, email: string, password: string, displayName: Option<string>,
                        salt: string, freshId: Id, now: int, h: Hasher)
    requires Consistent(h)
    requires |email| > 0 && |password| > 0
    requires FindByEmail(d.users, email).None?
    ensures var s := Signup(d, Some(email), Some(password), displayName, salt, freshId, now, h);
      && s.reply.status == 200
      && Login(s.directory, Some(email), Some(password), h) == s.reply
  {
    var s := Signup(d, Some(email), Some(password), displayName, salt, freshId, now, h);
    var u := User(freshId, Some(email), Some(h.hash(password, salt)), displayName, None, now, now);
    assert s == Step(Directory(d.users + [u]), Reply(200, Account(View(u))));
    FindAppended(d.users, u, email);
    assert |u.passwordHash.value| > 0 && h.compare(password, u.passwordHash.value);
    assert LocalVerify(s.directory, email, password, h) == Authenticated(u);
  }

  /** Appending an account with a new email makes it the one `findOne` returns. */
  lemma FindAppended(us: seq<User>, u: User, email: string)
    requires FindByEmail(us, email).None? && u.email == Some(email)
    ensures FindByEmail(us + [u], email) == Some(|us|)
  {
    var k := FindByEmail(us + [u], email);
    assert (us + [u])[|us|] == u;
    assert forall i :: 0 <= i < |us| ==> (us + [u])[i] == us[i];
  }

  /** The wrong password for an account with a hash is refused with "Wrong password". */
  lemma WrongPasswordRefused(d: Directory, email: string, password: string, h: Hasher)
    requires |email| > 0 && |password| > 0
    requires FindByEmail(d.users, email).Some?
    requires var u := d.users[FindByEmail(d.users, email).value];
      Text.Truthy(u.passwordHash) && !h.compare(password, u.passwordHash.value)
    ensures Login(d, Some(email), Some(password), h) == Reply(400, Message("Wrong password"))
  {
  }

  /** GET `/me`: 401 without a session user, otherwise the view of that user. */
  function Me(sessionUser: Option<User>): (r: Reply)
    ensures sessionUser.None? <==> r == Reply(401, Problem("unauthenticated"))
    ensures sessionUser.Some? ==> r == Reply(200, Account(View(sessionUser.value)))
  {
    match sessionUser
    case None => Reply(401, Problem("unauthenticated"))
    case Some(u) => Reply(200, Account(View(u)))
  }

  /** The parts of a Google profile the strategy reads. */
  datatype Profile = Profile(id: string, emails: seq<string>, displayName: Option<string>)

  /** `profile.emails?.[0]?.value`. */
  function ProfileEmail(p: Profile): Option<string> {
    if |p.emails| > 0 then Some(p.emails[0]) else None
  }

  /**
   * One branch of `$or: [{ googleId }, { email }]`. A profile without an email puts
   * `{ email: undefined }` in the filter, which goes to the server as `{ email: null }`
   * and so matches every account that has no email.
   */
  predicate GoogleMatch(u: User, googleId: string, email: Option<string>) {
    u.googleId == Some(googleId) || u.email == email
  }

  /** `User.findOne({ $or: [{ googleId }, { email }] })`. */
  function FindForGoogle(us: seq<User>, googleId: string, email: Option<string>): (k: Option<nat>)
    ensures k.Some? ==> k.value < |us| && GoogleMatch(us[k.value], googleId, email)
    ensures k.Some? ==> forall i :: 0 <= i < k.value ==> !GoogleMatch(us[i], googleId, email)
    ensures k.None? ==> forall i :: 0 <= i < |us| ==> !GoogleMatch(us[i], googleId, email)
  {
    if |us| == 0 then None
    else if GoogleMatch(us[0], googleId, email) then Some(0)
    else match FindForGoogle(us[1..], googleId, email)
      case None => None
      case Some(k) => Some(k + 1)
  }

  datatype GoogleResult = GoogleResult(directory: Directory, user: User)

  /** The GoogleStrategy verify callback: find by Google id or email, else create; link when unlinked. */
  function GoogleVerify(d: Directory, p: Profile, freshId: Id, now: int): (r: GoogleResult)
    ensures FindForGoogle(d.users, p.id, ProfileEmail(p)).None? ==>
      && r.user == User(freshId, ProfileEmail(p), None, p.displayName, Some(p.id), now, now)
      && r.directory.users == d.users + [r.user]
    ensures FindForGoogle(d.users, p.id, ProfileEmail(p)).Some? ==>
      var k := FindForGoogle(d.users, p.id, ProfileEmail(p)).value;
      var u := d.users[k];
      && |r.directory.users| == |d.users|
      && r.directory.users[k] == r.user
      && (forall i :: 0 <= i < |d.users| && i != k ==> r.directory.users[i] == d.users[i])
      && (Text.Truthy(u.googleId) ==> r.user == u)
      && (!Text.Truthy(u.googleId) ==> r.user == u.(googleId := Some(p.id), updatedAt := now))
  {
    var email := ProfileEmail(p);
    match FindForGoogle(d.users, p.id, email)
    case None =>
      var u := User(freshId, email, None, p.displayName, Some(p.id), now, now);
      GoogleResult(Directory(d.users + [u]), u)
    case Some(k) =>
      var u := d.users[k];
      if !Text.Truthy(u.googleId) then
        var linked := u.(googleId := Some(p.id), updatedAt := now);
        GoogleResult(Directory(d.users[k := linked]), linked)
      else GoogleResult(d, u)
  }

  /** Google sign-in never creates a second account for an email. */
  lemma GooglePreservesValid(d: Directory, p: Profile, freshId: Id, now: int)
    requires Valid(d) && !HasId(d, freshId)
    ensures Valid(GoogleVerify(d, p, freshId, now).directory)
  {
    var r := GoogleVerify(d, p, freshId, now);
    var k := FindForGoogle(d.users, p.id, ProfileEmail(p));
    if k.Some? {
      var us := r.directory.users;
      forall i, j | 0 <= i < j < |us| && us[i].email.Some?
        ensures us[i].email != us[j].email
      {
        assert us[i].email == d.users[i].email && us[j].email == d.users[j].email;
      }
      forall i, j | 0 <= i < j < |us|
        ensures us[i].id != us[j].id
      {
        assert us[i].id == d.users[i].id && us[j].id == d.users[j].id;
      }
    }
  }

  /** Signing in twice with the same Google profile changes nothing the second time. */
  lemma GoogleIdempotent(d: Directory, p: Profile, freshId: Id, otherId: Id, t0: int, t1: int)
    requires |p.id| > 0
    ensures var first := GoogleVerify(d, p, freshId, t0);
      var second := GoogleVerify(first.directory, p, otherId, t1);
      second.directory == first.directory && second.user == first.user
  {
    var first := GoogleVerify(d, p, freshId, t0);
    var us := first.directory.users;
    var email := ProfileEmail(p);
    match FindForGoogle(d.users, p.id, email)
    case None =>
      assert GoogleMatch(us[|d.users|], p.id, email);
      assert forall i :: 0 <= i < |d.users| ==> us[i] == d.users[i];
      assert FindForGoogle(us, p.id, email) == Some(|d.users|);
    case Some(k) =>
      assert GoogleMatch(us[k], p.id, email);
      assert forall i :: 0 <= i < k ==> us[i] == d.users[i];
      assert FindForGoogle(us, p.id, email) == Some(k);
  }

  /**
   * Two people whose Google profiles carry no email: the second is signed in to the
   * account created for the first, because the lookup's email branch matches it.
   */
  lemma EmailLessProfilesShareAccount(a: Profile, b: Profile, id1: Id, id2: Id, t0: int, t1: int)
    requires |a.emails| == 0 && |b.emails| == 0 && |a.id| > 0 && a.id != b.id
    ensures var first := GoogleVerify(Directory([]), a, id1, t0);
      var second := GoogleVerify(first.directory, b, id2, t1);
      && first.user.googleId == Some(a.id)
      && second.user == first.user
      && second.user.googleId != Some(b.id)
  {
    var first := GoogleVerify(Directory([]), a, id1, t0);
    assert first.directory.users == [first.user];
    assert GoogleMatch(first.directory.users[0], b.id, ProfileEmail(b));
  }

  /** The lookup as intended: the email branch only takes part when the profile has an email. */
  predicate GoogleMatchIntended(u: User, googleId: string, email: Option<string>) {
    u.googleId == Some(googleId) || (email.Some? && u.email == email)
  }

  function FindForGoogleIntended(us: seq<User>, googleId: string, email: Option<string>): (k: Option<nat>)
    ensures k.Some? ==> k.value < |us| && GoogleMatchIntended(us[k.value], googleId, email)
    ensures k.Some? ==> forall i :: 0 <= i < k.value ==> !GoogleMatchIntended(us[i], googleId, email)
    ensures k.None? ==> forall i :: 0 <= i < |us| ==> !GoogleMatchIntended(us[i], googleId, email)
  {
    if |us| == 0 then None
    else if GoogleMatchIntended(us[0], googleId, email) then Some(0)
    else match FindForGoogleIntended(us[1..], googleId, email)
      case None => None
      case Some(k) => Some(k + 1)
  }

  /** With the intended lookup a profile without an email only ever finds the account linked to it. */
  lemma IntendedLookupKeepsAccountsApart(us: seq<User>, googleId: string)
    ensures FindForGoogleIntended(us, googleId, None).Some? ==>
      us[FindForGoogleIntended(us, googleId, None).value].googleId == Some(googleId)
    ensures FindForGoogleIntended(us, googleId, None).None? ==>
      forall i :: 0 <= i < |us| ==> us[i].googleId != Some(googleId)
  {
  }

  /** The two lookups differ only for a profile without an email. */
  lemma LookupsAgreeWithEmail(us: seq<User>, googleId: string, email: string)
    ensures FindForGoogle(us, googleId, Some(email)) == FindForGoogleIntended(us, googleId, Some(email))
  {
  }

  /** `serializeUser`: the session keeps only the account id. */
  function Serialize(u: User): Id {
    u.id
  }

  /** `deserializeUser`: `User.findById(id).select("-passwordHash")`. */
  function Deserialize(d: Directory, id: Id): (r: Option<User>)
    ensures r.Some? ==> r.value.passwordHash.None? && r.value.id == id
    ensures r.None? <==> !HasId(d, id)
  {
    FindById(d.users, id)
  }

  function FindById(us: seq<User>, id: Id): (r: Option<User>)
    ensures r.Some? ==> r.value.passwordHash.None? && r.value.id == id
    ensures r.Some? ==> exists i :: 0 <= i < |us| && us[i].id == id && r.value == us[i].(passwordHash := None)
    ensures r.None? <==> forall i :: 0 <= i < |us| ==> us[i].id != id
  {
    if |us| == 0 then None
    else if us[0].id == id then Some(us[0].(passwordHash := None))
    else
      var r := FindById(us[1..], id);
      assert forall i :: 1 <= i < |us| ==> us[i] == us[1..][i - 1];
      r
  }

  /** The session round trip returns the account itself, minus its password hash. */
  lemma SessionRoundTrip(d: Directory, u: User)
    requires DistinctIds(d.users)
    requires u in d.users
    ensures Deserialize(d, Serialize(u)) == Some(u.(passwordHash := None))
  {
    var r := Deserialize(d, Serialize(u));
    var j :| 0 <= j < |d.users| && d.users[j] == u;
    var i :| 0 <= i < |d.users| && d.users[i].id == u.id && r.value == d.users[i].(passwordHash := None);
    assert i == j;
  }

  /**
   * After a successful login the session's `/me` answers exactly what the login answered,
   * although the account it reads back has lost its password hash.
   */
  lemma MeAfterLogin(d: Directory, email: string, password: string, h: Hasher)
    requires DistinctIds(d.users)
    requires LocalVerify(d, email, password, h).Authenticated?
    ensures var u := LocalVerify(d, email, password, h).user;
      Me(Deserialize(d, Serialize(u))) == LoginReply(Authenticated(u))
  {
    var u := LocalVerify(d, email, password, h).user;
    assert u == d.users[FindByEmail(d.users, email).value];
    SessionRoundTrip(d, u);
    ViewHidesSecrets(u, None, u.googleId);
  }
}
