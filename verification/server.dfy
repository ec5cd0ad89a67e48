/** The API server as one state machine: a request, the two tables, the
    cryptographic oracles and the current time go in; a response and the
    new tables come out. Every route except login passes `authMiddleware`
    first, and registration passes `requireAdmin` after it. */
module Server {
  import opened Options
  import opened Entities
  import opened Auth
  import Items
  import Users

  datatype State = State(users: Users.UserStore, items: Items.ItemStore)

  /** What the server cannot compute itself: token verification (signature
      and expiry), password hashing and comparison, token signing. */
  datatype Oracles = Oracles(
    verify: string -> Option<Claims>,
    hash: string -> string,
    matches: (string, string) -> bool,
    sign: Claims -> string)

  /** One request per route; `authorization` is the `Authorization` header. */
  datatype Request =
    | LoginRequest(email: Option<string>, password: Option<string>)
    | RegisterRequest(authorization: Option<string>, email: Option<string>, name: Option<string>, password: Option<string>)
    | ListRequest(authorization: Option<string>, q: Option<string>)
    | CreateRequest(authorization: Option<string>, input: Items.ItemInput)
    | UpdateRequest(authorization: Option<string>, id: Items.IdParam, patch: Items.ItemInput)
    | DeleteRequest(authorization: Option<string>, id: Items.IdParam)
    | BulkRequest(authorization: Option<string>, rows: Option<seq<Items.ItemInput>>)

  predicate Valid(st: State)
  {
    Users.Valid(st.users) && Items.Valid(st.items) && Items.TitlesPresent(st.items)
  }

  /** Start-up over whatever the database file already holds: `seedMaster`
      adds the master account when no row has its email, and nothing else
      changes. Every existing account and every item is kept. */
  function Startup(persisted: State, account: Users.SeedAccount, hash: string -> string, now: string): (st: State)
    ensures st.items == persisted.items
    ensures account.email in persisted.users.byEmail ==> st == persisted
    ensures account.email !in persisted.users.byEmail ==>
              && st.users.byEmail.Keys == persisted.users.byEmail.Keys + {account.email}
              && st.users.byEmail[account.email].isMaster == 1
              && st.users.byEmail[account.email].role == AdminRole
    ensures forall e :: e in persisted.users.byEmail ==>
              e in st.users.byEmail && st.users.byEmail[e] == persisted.users.byEmail[e]
    ensures account.email in st.users.byEmail
    ensures Valid(persisted) ==> Valid(st)
  {
    State(Users.SeedMaster(persisted.users, account, hash, now), persisted.items)
  }

  /** The first start, on an empty database, leaves only the master account
      and no items. */
  lemma FirstStartup(account: Users.SeedAccount, hash: string -> string, now: string)
    ensures var st := Startup(State(Users.EmptyUsers, Items.EmptyStore), account, hash, now);
      && Valid(st)
      && st.users.byEmail.Keys == {account.email}
      && st.users.byEmail[account.email].isMaster == 1
      && st.items.items == []
  {
  }

  /** A restart, at any later time, finds the master account and changes
      nothing. */
  lemma RestartChangesNothing(persisted: State, account: Users.SeedAccount, hash: string -> string,
                              now: string, later: string)
    ensures var st := Startup(persisted, account, hash, now);
      Startup(st, account, hash, later) == st
  {
  }

  /** The route behind a request that has passed `authMiddleware`. */
  function Route(st: State, req: Request, claims: Claims, o: Oracles, now: string): (out: (Response, State))
    requires !req.LoginRequest?
  {
    match req
    case RegisterRequest(_, email, name, password) =>
      (match RequireAdmin(Some(claims))
       case Some(denial) => (denial, st)
       case None =>
         var (r, users) := Users.Register(st.users, email, name, password, o.hash, now);
         (r, st.(users := users)))
    case ListRequest(_, q) => (Items.List(st.items, q), st)
    case CreateRequest(_, input) =>
      var (r, items) := Items.Create(st.items, input, now);
      (r, st.(items := items))
    case UpdateRequest(_, id, patch) =>
      var (r, items) := Items.Update(st.items, id, patch, now);
      (r, st.(items := items))
    case DeleteRequest(_, id) =>
      var (r, items) := Items.Delete(st.items, id);
      (r, st.(items := items))
    case BulkRequest(_, rows) =>
      var (r, items) := Items.Bulk(st.items, rows, now);
      (r, st.(items := items))
  }

  /** Dispatch one request. Login needs no token; every other route is
      refused with 401 before it runs unless the header carries a token the
      verifier accepts. Item routes leave the users alone, account routes
      leave the items alone, and the invariants of both tables are kept. */
  function Handle(st: State, req: Request, o: Oracles, now: string): (out: (Response, State))
    ensures req.LoginRequest? ==> out.1 == st
    ensures !req.LoginRequest? && Authenticate(req.authorization, o.verify).Refuse? ==>
              out.1 == st && out.0.status == 401
    ensures req.LoginRequest? || req.RegisterRequest? ==> out.1.items == st.items
    ensures !req.RegisterRequest? ==> out.1.users == st.users
    ensures out.1.users != st.users ==>
              && req.RegisterRequest?
              && Authenticate(req.authorization, o.verify).Admit?
              && Authenticate(req.authorization, o.verify).claims.role == AdminRole
    ensures out.0.status in {200, 400, 401, 403, 404, 409}
    ensures Valid(st) ==> Valid(out.1)
  {
    if req.LoginRequest? then
      (Users.Login(st.users, req.email, req.password, o.matches, o.sign), st)
    else
      match Authenticate(req.authorization, o.verify)
      case Refuse(r) => (r, st)
      case Admit(claims) => Route(st, req, claims, o, now)
  }

  /** A request without a `Bearer ` token never reaches an item or account
      route: 401 "Token ausente" and nothing changes. */
  lemma MissingTokenRefused(st: State, req: Request, o: Oracles, now: string)
    requires !req.LoginRequest?
    requires BearerToken(req.authorization).None? || BearerToken(req.authorization).value == ""
    ensures Handle(st, req, o, now) == (Reject(401, MissingToken), st)
  {
  }

  /** A token the verifier rejects gives 401 "Token inválido" and nothing
      changes. */
  lemma RejectedTokenRefused(st: State, req: Request, o: Oracles, now: string)
    requires !req.LoginRequest?
    requires BearerToken(req.authorization).Some? && BearerToken(req.authorization).value != ""
    requires o.verify(BearerToken(req.authorization).value).None?
    ensures Handle(st, req, o, now) == (Reject(401, InvalidToken), st)
  {
  }

  /** A verified caller whose role is not `ADMIN` cannot register anyone. */
  lemma NonAdminCannotRegister(st: State, req: Request, o: Oracles, now: string)
    requires req.RegisterRequest?
    requires Authenticate(req.authorization, o.verify).Admit?
    requires Authenticate(req.authorization, o.verify).claims.role != AdminRole
    ensures Handle(st, req, o, now) == (Reject(403, AdminOnly), st)
  {
  }

  /** A verified caller's item request gets what the item handler gives,
      whatever the caller's role. */
  lemma ItemRoutesIgnoreRole(st: State, req: Request, o: Oracles, now: string)
    requires req.DeleteRequest?
    requires Authenticate(req.authorization, o.verify).Admit?
    ensures Handle(st, req, o, now) ==
              var (r, items) := Items.Delete(st.items, req.id);
              (r, st.(items := items))
  {
  }

  /** An admitted bulk request is answered by the bulk handler alone. */
  lemma AdmittedBulk(st: State, req: Request, o: Oracles, now: string)
    requires req.BulkRequest?
    requires Authenticate(req.authorization, o.verify).Admit?
    ensures Handle(st, req, o, now).0 == Items.Bulk(st.items, req.rows, now).0
    ensures Handle(st, req, o, now).1 == st.(items := Items.Bulk(st.items, req.rows, now).1)
  {
  }

  /** An admitted create request is answered by the create handler alone. */
  lemma AdmittedCreate(st: State, req: Request, o: Oracles, now: string)
    requires req.CreateRequest?
    requires Authenticate(req.authorization, o.verify).Admit?
    ensures Handle(st, req, o, now).0 == Items.Create(st.items, req.input, now).0
    ensures Handle(st, req, o, now).1 == st.(items := Items.Create(st.items, req.input, now).1)
  {
  }

  /** A registration is answered 400 only by the registration handler
      itself, after both gates have let it through. */
  lemma RegisterBadRequest(st: State, req: Request, o: Oracles, now: string)
    requires req.RegisterRequest?
    requires Handle(st, req, o, now).0.status == 400
    ensures Users.Register(st.users, req.email, req.name, req.password, o.hash, now).0.status == 400
  {
  }
}
