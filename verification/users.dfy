/** The account endpoints (`POST /auth/login`, `POST /auth/register`) and
    the start-up seeding of the master administrator, over an abstract
    `users` table keyed by email. Password hashing and comparison are
    oracles: `hash` stands for `bcrypt.hash`, `matches` for `bcrypt.compare`,
    `sign` for `signToken`'s signature. */
module Users {
  import opened Options
  import opened Strings
  import opened Entities
  import opened Auth

  const CredentialsRequired: string := "email e senha são obrigatórios"
  const BadCredentials: string := "Credenciais inválidas"
  const FieldsRequired: string := "name, email e password são obrigatórios"
  const EmailTaken: string := "Email já existe"

  /** The table's rows by email, and the next autoincrement id. */
  datatype UserStore = UserStore(byEmail: map<string, User>, nextId: nat)

  const EmptyUsers: UserStore := UserStore(map[], 1)

  /** The hard-wired account `seedMaster` creates. */
  datatype SeedAccount = SeedAccount(email: string, name: string, password: string)

  /** Every row sits under its own email, ids are positive, below the counter
      and pairwise distinct. */
  predicate Valid(s: UserStore)
  {
    && s.nextId >= 1
    && (forall e :: e in s.byEmail ==> s.byEmail[e].email == e && 1 <= s.byEmail[e].id < s.nextId)
    && (forall e1, e2 :: e1 in s.byEmail && e2 in s.byEmail && e1 != e2 ==> s.byEmail[e1].id != s.byEmail[e2].id)
  }

  predicate NoUppercase(s: string)
  {
    forall k :: 0 <= k < |s| ==> !('A' <= s[k] <= 'Z')
  }

  /** `String(email || "").trim().toLowerCase()`, as both the server and the
      browser client compute it: the trimmed input with every ASCII capital
      folded to its small letter. */
  function NormalizeEmail(raw: Option<string>): (e: string)
    ensures e == "" <==> AllSpace(OrElse(raw, ""))
    ensures IsTrimmed(e) && NoUppercase(e)
    ensures |e| == |Trim(OrElse(raw, ""))|
    ensures forall k :: 0 <= k < |e| ==> e[k] == LowerChar(Trim(OrElse(raw, ""))[k])
  {
    var t := Trim(OrElse(raw, ""));
    var e := ToLower(t);
    assert |e| > 0 ==> e[0] == LowerChar(t[0]) && e[|e| - 1] == LowerChar(t[|t| - 1]);
    e
  }

  /** Normalising a normalised email changes nothing. */
  lemma NormalizeEmailIdempotent(raw: Option<string>)
    ensures NormalizeEmail(Some(NormalizeEmail(raw))) == NormalizeEmail(raw)
  {
    var e := NormalizeEmail(raw);
    assert OrElse(Some(e), "") == e;
    assert ToLower(e) == e;
  }

  /** The user object of a login response: no password hash, the master flag
      as a boolean. */
  function View(u: User): (v: UserView)
    ensures v.id == u.id && v.email == u.email && v.name == u.name && v.role == u.role
    ensures v.isMaster <==> u.isMaster != 0
  {
    UserView(u.id, u.email, u.name, u.role, u.isMaster != 0)
  }

  /** `POST /auth/login`: 400 for an email that normalises to empty or an
      empty password; 401 with one and the same message for an unknown email
      and for a wrong password; otherwise a token for the user's claims and
      the user's public fields. */
  function Login(s: UserStore, email: Option<string>, password: Option<string>,
                 matches: (string, string) -> bool, sign: Claims -> string): (r: Response)
    ensures var e := NormalizeEmail(email); var pw := OrElse(password, "");
      && (r.status == 400 <==> e == "" || pw == "")
      && (r.status == 400 ==> r == Reject(400, CredentialsRequired))
      && (r.status == 401 <==> e != "" && pw != "" && (e !in s.byEmail || !matches(pw, s.byEmail[e].passwordHash)))
      && (r.status == 401 ==> r == Reject(401, BadCredentials))
      && (r.status == 200 <==> e != "" && pw != "" && e in s.byEmail && matches(pw, s.byEmail[e].passwordHash))
      && (r.status == 200 ==>
            r.body == LoginBody(sign(SignedClaims(s.byEmail[e])), View(s.byEmail[e])))
  {
    var e := NormalizeEmail(email);
    var pw := OrElse(password, "");
    if e == "" || pw == "" then Reject(400, CredentialsRequired)
    else if e !in s.byEmail then Reject(401, BadCredentials)
    else
      var u := s.byEmail[e];
      if !matches(pw, u.passwordHash) then Reject(401, BadCredentials)
      else Response(200, LoginBody(sign(SignedClaims(u)), View(u)))
  }

  /** A caller cannot tell an unregistered email from a registered one with
      the wrong password: both answers are identical. */
  lemma UnknownEmailAndWrongPasswordLookAlike(
    s: UserStore, t: UserStore, email: Option<string>, password: Option<string>,
    matches: (string, string) -> bool, sign: Claims -> string)
    requires NormalizeEmail(email) !in s.byEmail
    requires NormalizeEmail(email) in t.byEmail
    requires !matches(OrElse(password, ""), t.byEmail[NormalizeEmail(email)].passwordHash)
    ensures Login(s, email, password, matches, sign) == Login(t, email, password, matches, sign)
  {
  }

  /** The row `register` inserts: the next id, role `ADMIN`, not master, the
      password's hash, both timestamps `now`. */
  function NewAdmin(s: UserStore, email: string, name: string, password: string,
                    hash: string -> string, now: string): (u: User)
    ensures u.id == s.nextId && u.email == email && u.name == name
    ensures u.passwordHash == hash(password) && u.role == AdminRole && u.isMaster == 0
    ensures u.createdAt == now && u.updatedAt == now
  {
    User(s.nextId, email, name, hash(password), AdminRole, 0, now, now)
  }

  /** `POST /auth/register` past the token and role gates: 400 when the
      normalised email, the trimmed name or the password is empty; 409 when
      the email is taken; otherwise exactly one new admin under the
      normalised email and nothing else changes. */
  function Register(s: UserStore, email: Option<string>, name: Option<string>, password: Option<string>,
                    hash: string -> string, now: string): (out: (Response, UserStore))
    ensures var e := NormalizeEmail(email); var n := Trim(OrElse(name, "")); var pw := OrElse(password, "");
      && (e == "" || n == "" || pw == "" ==> out == (Reject(400, FieldsRequired), s))
      && (e != "" && n != "" && pw != "" && e in s.byEmail ==> out == (Reject(409, EmailTaken), s))
      && (out.0.status == 200 <==> e != "" && n != "" && pw != "" && e !in s.byEmail)
      && (out.0.status == 200 ==>
            && out.0.body == OkBody
            && out.1.byEmail == s.byEmail[e := NewAdmin(s, e, n, pw, hash, now)]
            && out.1.nextId == s.nextId + 1
            && |out.1.byEmail.Keys| == |s.byEmail.Keys| + 1)
    ensures Valid(s) ==> Valid(out.1)
  {
    var e := NormalizeEmail(email);
    var n := Trim(OrElse(name, ""));
    var pw := OrElse(password, "");
    if e == "" || n == "" || pw == "" then (Reject(400, FieldsRequired), s)
    else if e in s.byEmail then (Reject(409, EmailTaken), s)
    else
      var s' := UserStore(s.byEmail[e := NewAdmin(s, e, n, pw, hash, now)], s.nextId + 1);
      assert s'.byEmail.Keys == s.byEmail.Keys + {e};
      (Response(200, OkBody), s')
  }

  /** Registration only adds: every account that existed before is still
      there, unchanged. */
  lemma RegisterKeepsAccounts(s: UserStore, email: Option<string>, name: Option<string>, password: Option<string>,
                              hash: string -> string, now: string)
    ensures var s' := Register(s, email, name, password, hash, now).1;
      forall k :: k in s.byEmail ==> k in s'.byEmail && s'.byEmail[k] == s.byEmail[k]
  {
  }

  /** With a hash the comparison accepts, a newly registered admin can log in
      with the email and password as registered. */
  lemma RegisteredAdminCanLogIn(s: UserStore, email: Option<string>, name: Option<string>, password: Option<string>,
                                hash: string -> string, matches: (string, string) -> bool,
                                sign: Claims -> string, now: string)
    requires forall p :: matches(p, hash(p))
    requires Register(s, email, name, password, hash, now).0.status == 200
    ensures Login(Register(s, email, name, password, hash, now).1, email, password, matches, sign).status == 200
  {
  }

  /** `seedMaster`: when no row has the account's email, insert it as a
      master `ADMIN`; otherwise do nothing. */
  function SeedMaster(s: UserStore, account: SeedAccount, hash: string -> string, now: string): (s': UserStore)
    ensures account.email in s.byEmail ==> s' == s
    ensures account.email !in s.byEmail ==>
              && s'.byEmail == s.byEmail[account.email :=
                   User(s.nextId, account.email, account.name, hash(account.password), AdminRole, 1, now, now)]
              && s'.nextId == s.nextId + 1
    ensures account.email in s'.byEmail
    ensures Valid(s) ==> Valid(s')
  {
    if account.email in s.byEmail then s
    else
      var master := User(s.nextId, account.email, account.name, hash(account.password), AdminRole, 1, now, now);
      UserStore(s.byEmail[account.email := master], s.nextId + 1)
  }

  /** Seeding again, at any later time, changes nothing. */
  lemma SeedMasterIdempotent(s: UserStore, account: SeedAccount, hash: string -> string, now: string, later: string)
    ensures SeedMaster(SeedMaster(s, account, hash, now), account, hash, later) == SeedMaster(s, account, hash, now)
  {
  }

  /** The seeded master can log in, provided its email is already in
      normalised form (the login form lower-cases and trims what is typed, and
      the seed stores the email as written) and its password is not empty. */
  lemma SeededMasterCanLogIn(s: UserStore, account: SeedAccount, hash: string -> string,
                             matches: (string, string) -> bool, sign: Claims -> string, now: string)
    requires forall p :: matches(p, hash(p))
    requires account.email !in s.byEmail
    requires NormalizeEmail(Some(account.email)) == account.email != ""
    requires account.password != ""
    ensures var r := Login(SeedMaster(s, account, hash, now), Some(account.email), Some(account.password), matches, sign);
      r.status == 200 && r.body.user.isMaster && r.body.user.role == AdminRole
  {
  }
}
