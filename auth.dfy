/**
 * The login and registration decisions of server/auth.ts: the LocalStrategy
 * verify callback (lines 64-88), the session serializer and deserializer
 * (lines 92-113) and the `/api/register` handler (lines 115-159). The users
 * table of db/schema.ts (lines 5-10) is a sequence of rows owned by
 * `UserTable`; its serial id counter is a field.
 */
module Auth {
  import opened Wrappers
  import opened PasswordHash

  /** A row of the users table; `createdAt` is not modelled. */
  datatype User = User(id: nat, email: string, password: string)

  // ---------------------------------------------------------------------
  // Lookups
  // ---------------------------------------------------------------------

  /** The column a `where` clause compares, with the value it looks for. */
  datatype Key = ByEmail(email: string) | ById(id: nat)

  predicate Matches(u: User, key: Key) {
    match key
    case ByEmail(email) => u.email == email
    case ById(id) => u.id == id
  }

  /**
   * `select ... where <column> = ?`, taking the first row: none exactly when
   * no row matches, and otherwise a matching row of the table.
   */
  function Find(users: seq<User>, key: Key): (r: Option<User>)
    ensures r.None? <==> forall u :: u in users ==> !Matches(u, key)
    ensures r.Some? ==> r.value in users && Matches(r.value, key)
  {
    if users == [] then None
    else if Matches(users[0], key) then Some(users[0])
    else Find(users[1..], key)
  }

  ghost predicate UniqueEmails(users: seq<User>) {
    forall i, j :: 0 <= i < j < |users| ==> users[i].email != users[j].email
  }

  ghost predicate UniqueIds(users: seq<User>) {
    forall i, j :: 0 <= i < j < |users| ==> users[i].id != users[j].id
  }

  /** A row that is the only one matching a key is the one the lookup finds. */
  lemma {:induction false} FindOnlyMatch(users: seq<User>, u: User, key: Key)
    requires u in users && Matches(u, key)
    requires forall v :: v in users && Matches(v, key) ==> v == u
    ensures Find(users, key) == Some(u)
  {
    if users[0] != u {
      assert u in users[1..] by {
        var k :| 0 <= k < |users| && users[k] == u;
        assert users[1..][k - 1] == u;
      }
      assert forall v :: v in users[1..] ==> v in users;
      FindOnlyMatch(users[1..], u, key);
    }
  }

  /** In a column whose values are unique, a user is the only row matching their own value. */
  lemma OnlyMatch(users: seq<User>, u: User, key: Key)
    requires u in users && Matches(u, key)
    requires key.ByEmail? ==> UniqueEmails(users)
    requires key.ById? ==> UniqueIds(users)
    ensures forall v :: v in users && Matches(v, key) ==> v == u
  {
    forall v | v in users && Matches(v, key) ensures v == u {
      var i :| 0 <= i < |users| && users[i] == v;
      var j :| 0 <= j < |users| && users[j] == u;
    }
  }

  /** Appending a row whose email and id are new keeps both unique. */
  lemma AppendFresh(users: seq<User>, u: User)
    requires UniqueEmails(users) && UniqueIds(users)
    requires forall v :: v in users ==> v.email != u.email && v.id != u.id
    ensures UniqueEmails(users + [u]) && UniqueIds(users + [u])
  {
    assert forall i :: 0 <= i < |users| ==> users[i] in users;
  }

  // ---------------------------------------------------------------------
  // Login
  // ---------------------------------------------------------------------

  /** How the verify callback calls `done`. */
  datatype LoginOutcome =
    | LoggedIn(user: User)          // done(null, user)
    | Rejected(message: string)     // done(null, false, { message })
    | Errored                       // done(err): crypto.compare threw

  /** The LocalStrategy verify callback (lines 64-88). */
  function Verify(users: seq<User>, email: string, password: string, kdf: Kdf): (r: LoginOutcome)
    ensures r.LoggedIn? ==> r.user in users && r.user.email == email
    ensures r == Rejected("Incorrect email.") <==> forall u :: u in users ==> u.email != email
  {
    match Find(users, ByEmail(email))
    case None => Rejected("Incorrect email.")
    case Some(user) =>
      match Compare(password, user.password, kdf)
      case Failure(_) => Errored
      case Success(false) => Rejected("Incorrect password.")
      case Success(true) => LoggedIn(user)
  }

  /**
   * For an email that is in the table, login succeeds exactly when the
   * stored record matches the password, is refused with "Incorrect
   * password." when it does not, and errs when the record cannot be compared.
   */
  lemma VerifyKnownEmail(users: seq<User>, u: User, password: string, kdf: Kdf)
    requires UniqueEmails(users)
    requires u in users
    ensures Verify(users, u.email, password, kdf) == LoggedIn(u)
      <==> Compare(password, u.password, kdf) == Success(true)
    ensures Verify(users, u.email, password, kdf) == Rejected("Incorrect password.")
      <==> Compare(password, u.password, kdf) == Success(false)
    ensures Verify(users, u.email, password, kdf) == Errored
      <==> Compare(password, u.password, kdf).Failure?
  {
    OnlyMatch(users, u, ByEmail(u.email));
    FindOnlyMatch(users, u, ByEmail(u.email));
  }

  // ---------------------------------------------------------------------
  // Session
  // ---------------------------------------------------------------------

  /** `serializeUser`: the session keeps only the id. */
  function SerializeUser(u: User): nat {
    u.id
  }

  /** `deserializeUser`: the row with that id, or `None` where the source passes `false`. */
  function DeserializeUser(users: seq<User>, id: nat): Option<User> {
    Find(users, ById(id))
  }

  /** A user stored in the session comes back unchanged while they are in the table. */
  lemma SessionRoundTrip(users: seq<User>, u: User)
    requires UniqueIds(users)
    requires u in users
    ensures DeserializeUser(users, SerializeUser(u)) == Some(u)
  {
    OnlyMatch(users, u, ById(u.id));
    FindOnlyMatch(users, u, ById(u.id));
  }

  // ---------------------------------------------------------------------
  // Registration
  // ---------------------------------------------------------------------

  /** A property of the parsed JSON body: absent, a string, or another JSON type. */
  datatype Field = Absent | Text(s: string) | NotText(typeName: string)

  datatype RegisterBody = RegisterBody(email: Field, password: Field)

  datatype RegisterOutcome =
    | InvalidInput(message: string)   // 400 "Invalid input: ..."
    | EmailTaken(message: string)     // 400 "Email already exists"
    | Registered(user: User)          // the inserted row

  /** The zod issue message for a `z.string()` field. */
  function FieldIssues(f: Field): (r: seq<string>)
    ensures r == [] <==> f.Text?
  {
    match f
    case Absent => ["Required"]
    case Text(_) => []
    case NotText(t) => ["Expected string, received " + t]
  }

  /** The number of characters in some messages together. */
  function TotalLength(messages: seq<string>): nat {
    if messages == [] then 0 else |messages[0]| + TotalLength(messages[1..])
  }

  /** `issues.map(i => i.message).join(", ")`. */
  function JoinMessages(messages: seq<string>): string {
    if messages == [] then ""
    else if |messages| == 1 then messages[0]
    else messages[0] + ", " + JoinMessages(messages[1..])
  }

  /**
   * The joined text is the messages in order with ", " between neighbours:
   * its length is theirs plus two per separator, it starts with the first
   * message and ends with the last.
   */
  lemma {:induction false} JoinMessagesLayout(messages: seq<string>)
    requires messages != []
    ensures |JoinMessages(messages)| == TotalLength(messages) + 2 * (|messages| - 1)
    ensures JoinMessages(messages)[..|messages[0]|] == messages[0]
    ensures |messages[|messages| - 1]| <= |JoinMessages(messages)|
    ensures var last := messages[|messages| - 1];
      JoinMessages(messages)[|JoinMessages(messages)| - |last|..] == last
  {
    if |messages| > 1 {
      var rest := messages[1..];
      JoinMessagesLayout(rest);
      var tail := JoinMessages(rest);
      var r := messages[0] + ", " + tail;
      assert JoinMessages(messages) == r;
      assert r[..|messages[0]|] == messages[0];
      var last := rest[|rest| - 1];
      assert last == messages[|messages| - 1];
      assert r[|r| - |last|..] == tail[|tail| - |last|..];
    }
  }

  /** `insertUserSchema.safeParse(body)`: the email and password, or the joined issue messages. */
  function ParseRegister(body: RegisterBody): (r: Result<(string, string), string>)
    ensures r.Success? <==> body.email.Text? && body.password.Text?
    ensures r.Success? ==> r.value == (body.email.s, body.password.s)
  {
    var issues := FieldIssues(body.email) + FieldIssues(body.password);
    if issues == [] then Success((body.email.s, body.password.s))
    else Failure("Invalid input: " + JoinMessages(issues))
  }

  /** An empty body reports both fields as required, email first. */
  lemma EmptyBodyMessage()
    ensures ParseRegister(RegisterBody(Absent, Absent)) == Failure("Invalid input: Required, Required")
  {
    var issues := FieldIssues(Absent) + FieldIssues(Absent);
    assert issues == ["Required", "Required"];
    assert JoinMessages(issues) == "Required" + ", " + JoinMessages(["Required"]);
    assert "Invalid input: " + ("Required" + ", " + "Required") == "Invalid input: Required, Required";
  }

  /**
   * The users table. Emails and ids are unique (the `unique()` and
   * `primaryKey()` constraints) and every id was handed out by the serial
   * counter `nextId`.
   */
  class UserTable {
    var users: seq<User>
    var nextId: nat
    const kdf: Kdf

    ghost predicate Valid()
      reads this
    {
      && UniqueEmails(users)
      && UniqueIds(users)
      && nextId >= 1
      && forall u :: u in users ==> 1 <= u.id < nextId
    }

    constructor(kdf: Kdf)
      ensures Valid()
      ensures users == [] && nextId == 1 && this.kdf == kdf
    {
      users := [];
      nextId := 1;
      this.kdf := kdf;
    }

    /**
     * The `/api/register` handler with `randomBytes(16)` returning `salt`:
     * rejects a malformed body or a taken email and leaves the table alone,
     * and otherwise appends exactly one row holding the hashed password.
     */
    method Register(body: RegisterBody, salt: seq<byte>) returns (r: RegisterOutcome)
      requires Valid()
      modifies this
      ensures Valid()
      ensures ParseRegister(body).Failure? ==>
        r == InvalidInput(ParseRegister(body).error) && users == old(users) && nextId == old(nextId)
      ensures ParseRegister(body).Success? && Find(old(users), ByEmail(body.email.s)).Some? ==>
        r == EmailTaken("Email already exists") && users == old(users) && nextId == old(nextId)
      ensures ParseRegister(body).Success? && Find(old(users), ByEmail(body.email.s)).None? ==>
        && r == Registered(User(old(nextId), body.email.s, Hash(body.password.s, salt, kdf)))
        && users == old(users) + [r.user]
        && nextId == old(nextId) + 1
      ensures r.Registered? ==>
        && Verify(users, body.email.s, body.password.s, kdf) == LoggedIn(r.user)
        && |r.user.password| == 2 * 64 + 1 + 2 * |salt|
        && (|body.password.s| != |r.user.password| ==> r.user.password != body.password.s)
    {
      var parsed := ParseRegister(body);
      if parsed.Failure? {
        return InvalidInput(parsed.error);
      }
      var (email, password) := parsed.value;
      var existing := Find(users, ByEmail(email));
      if existing.Some? {
        return EmailTaken("Email already exists");
      }
      var hashed := Hash(password, salt, kdf);
      var newUser := User(nextId, email, hashed);
      AppendFresh(users, newUser);
      LoginAfterRegister(users, nextId, email, password, salt, kdf);
      users := users + [newUser];
      nextId := nextId + 1;
      return Registered(newUser);
    }
  }

  /**
   * After a registration adds a row, logging in with the same email and
   * password succeeds with that row, and the session finds it by its id.
   */
  lemma LoginAfterRegister(users: seq<User>, id: nat, email: string, password: string,
                           salt: seq<byte>, kdf: Kdf)
    requires UniqueEmails(users) && UniqueIds(users)
    requires Find(users, ByEmail(email)).None?
    requires forall u :: u in users ==> u.id < id
    ensures var u := User(id, email, Hash(password, salt, kdf));
      && Verify(users + [u], email, password, kdf) == LoggedIn(u)
      && DeserializeUser(users + [u], SerializeUser(u)) == Some(u)
  {
    var u := User(id, email, Hash(password, salt, kdf));
    var after := users + [u];
    AppendFresh(users, u);
    assert u == after[|users|];
    VerifyKnownEmail(after, u, password, kdf);
    CompareOwnHash(password, salt, kdf);
    SessionRoundTrip(after, u);
  }

  /**
   * The record a registration stores from a 16-byte salt is the 161-character
   * hash record, so it is never a plaintext password of any other length.
   */
  lemma RegisteredRecordFormat(email: string, password: string, salt: seq<byte>, kdf: Kdf, id: nat)
    requires |salt| == 16
    ensures var stored := User(id, email, Hash(password, salt, kdf)).password;
      && |stored| == 161
      && Split(stored, Separator) == [Hex(kdf(password, Hex(salt))), Hex(salt)]
      && (|password| != 161 ==> stored != password)
  {
    HashFormat(password, salt, kdf);
  }
}
