/** The browser client's request building: the `Authorization` header of
    the `api` wrapper, and the checks `login`, `registerAdmin`, `createOne`
    and `sendBulk` make before anything is sent. Each action either shows an alert or sends
    one request; the lemmas follow a sent request through the server. */
module Client {
  import opened Options
  import opened Strings
  import opened Seqs
  import opened Entities
  import opened Auth
  import Users
  import Items
  import BulkPaste
  import Server

  const FillEmailPassword: string := "Preencha email e senha."
  const FillNameEmailPassword: string := "Preencha nome, email e senha."
  const PasteOneLine: string := "Cole pelo menos 1 linha válida no lote."
  const FillTitle: string := "Preencha o título."

  datatype Action = Send(request: Server.Request) | Alert(message: string)

  /** The header the `api` wrapper adds for the stored token: none when there
      is no token or it is empty. */
  function AuthorizationFor(token: Option<string>): (h: Option<string>)
    ensures token.None? || token.value == "" ==> h.None?
    ensures token.Some? && token.value != "" ==> h.Some? && BearerToken(h) == token
  {
    if token.Some? && token.value != "" then
      BearerRoundTrip(token.value);
      Some(BearerPrefix + token.value)
    else None
  }

  /** The server reads back exactly the token the client stored: the
      request is admitted precisely when the verifier accepts that token. */
  lemma StoredTokenReachesVerifier(token: string, verify: string -> Option<Claims>)
    requires token != ""
    ensures Authenticate(AuthorizationFor(Some(token)), verify).Admit? <==> verify(token).Some?
    ensures verify(token).Some? ==> Authenticate(AuthorizationFor(Some(token)), verify).claims == verify(token).value
    ensures verify(token).None? ==> Authenticate(AuthorizationFor(Some(token)), verify) == Refuse(Reject(401, InvalidToken))
  {
  }

  /** Without a stored token, every protected request is refused as missing
      a token. */
  lemma NoTokenNoAccess(verify: string -> Option<Claims>)
    ensures Authenticate(AuthorizationFor(None), verify) == Refuse(Reject(401, MissingToken))
  {
  }

  /** `login()`: an alert when the normalised email or the password is
      empty, otherwise a login request with the normalised email. */
  function LoginAction(emailField: Option<string>, passwordField: Option<string>): (a: Action)
    ensures var e := Users.NormalizeEmail(emailField); var pw := OrElse(passwordField, "");
      && (a.Alert? <==> e == "" || pw == "")
      && (a.Alert? ==> a.message == FillEmailPassword)
      && (a.Send? ==> a.request == Server.LoginRequest(Some(e), Some(pw)))
  {
    var e := Users.NormalizeEmail(emailField);
    var pw := OrElse(passwordField, "");
    if e == "" || pw == "" then Alert(FillEmailPassword)
    else Send(Server.LoginRequest(Some(e), Some(pw)))
  }

  /** The client's check covers the server's: a login the client sends is
      never answered 400, and the server looks up the very email the form
      held after normalisation. */
  lemma SentLoginIsWellFormed(st: Server.State, emailField: Option<string>, passwordField: Option<string>,
                                                 o: Server.Oracles, now: string)
    requires LoginAction(emailField, passwordField).Send?
    ensures var req := LoginAction(emailField, passwordField).request;
      && Users.NormalizeEmail(req.email) == Users.NormalizeEmail(emailField)
      && Server.Handle(st, req, o, now).0.status != 400
  {
    Users.NormalizeEmailIdempotent(emailField);
  }

  /** `registerAdmin()`: an alert when the trimmed name, the normalised email
      or the password is empty, otherwise a register request with those
      values and the stored token. */
  function RegisterAction(token: Option<string>, nameField: Option<string>, emailField: Option<string>,
                          passwordField: Option<string>): (a: Action)
    ensures var n := Trim(OrElse(nameField, "")); var e := Users.NormalizeEmail(emailField);
      var pw := OrElse(passwordField, "");
      && (a.Alert? <==> n == "" || e == "" || pw == "")
      && (a.Alert? ==> a.message == FillNameEmailPassword)
      && (a.Send? ==> a.request == Server.RegisterRequest(AuthorizationFor(token), Some(e), Some(n), Some(pw)))
  {
    var n := Trim(OrElse(nameField, ""));
    var e := Users.NormalizeEmail(emailField);
    var pw := OrElse(passwordField, "");
    if n == "" || e == "" || pw == "" then Alert(FillNameEmailPassword)
    else Send(Server.RegisterRequest(AuthorizationFor(token), Some(e), Some(n), Some(pw)))
  }

  /** A registration the client sends is never answered 400. */
  lemma SentRegistrationIsWellFormed(st: Server.State, token: Option<string>, nameField: Option<string>,
                                      emailField: Option<string>, passwordField: Option<string>,
                                      o: Server.Oracles, now: string)
    requires RegisterAction(token, nameField, emailField, passwordField).Send?
    ensures Server.Handle(st, RegisterAction(token, nameField, emailField, passwordField).request, o, now).0.status != 400
  {
    var req := RegisterAction(token, nameField, emailField, passwordField).request;
    Users.NormalizeEmailIdempotent(emailField);
    var n := Trim(OrElse(nameField, ""));
    assert Trim(OrElse(Some(n), "")) == n;
    assert Users.Register(st.users, req.email, req.name, req.password, o.hash, now).0.status != 400;
    if Server.Handle(st, req, o, now).0.status == 400 {
      Server.RegisterBadRequest(st, req, o, now);
    }
  }

  /** `createOne()`: an alert when the trimmed title is empty, otherwise a
      create request with the trimmed title, the status picked in the form
      as it is, and the trimmed owner. */
  function CreateAction(token: Option<string>, titleField: Option<string>, statusField: string,
                        ownerField: Option<string>): (a: Action)
    ensures var t := Trim(OrElse(titleField, ""));
      && (a.Alert? <==> t == "")
      && (a.Alert? ==> a.message == FillTitle)
      && (a.Send? ==> a.request == Server.CreateRequest(AuthorizationFor(token),
                         Items.ItemInput(Some(t), Some(statusField), Some(Trim(OrElse(ownerField, ""))))))
  {
    var t := Trim(OrElse(titleField, ""));
    if t == "" then Alert(FillTitle)
    else
      Send(Server.CreateRequest(AuthorizationFor(token),
           Items.ItemInput(Some(t), Some(statusField), Some(Trim(OrElse(ownerField, ""))))))
  }

  /** A create the client sends with an accepted token is never refused by
      the title check: it is answered `{ok:true}` and the new last row holds
      the title as the form showed it once trimmed. */
  lemma SentCreateIsStored(st: Server.State, token: Option<string>, titleField: Option<string>,
                           statusField: string, ownerField: Option<string>, o: Server.Oracles, now: string)
    requires CreateAction(token, titleField, statusField, ownerField).Send?
    requires Authenticate(AuthorizationFor(token), o.verify).Admit?
    ensures var out := Server.Handle(st, CreateAction(token, titleField, statusField, ownerField).request, o, now);
      && out.0 == Response(200, OkBody)
      && |out.1.items.items| == |st.items.items| + 1
      && out.1.items.items[|st.items.items|].title == Trim(OrElse(titleField, ""))
  {
    var req := CreateAction(token, titleField, statusField, ownerField).request;
    var t := Trim(OrElse(titleField, ""));
    assert Items.TitleOf(req.input) == t by {
      assert OrElse(Some(t), "") == t;
    }
    Server.AdmittedCreate(st, req, o, now);
    Items.NewItemFields(st.items.nextId, req.input, now);
  }

  /** A pasted row as the `rows` entry the client sends. */
  function ToInput(row: BulkPaste.PastedRow): (input: Items.ItemInput)
    ensures input.title == Some(row.title) && input.status == Some(row.status) && input.owner == Some(row.owner)
  {
    Items.ItemInput(Some(row.title), Some(row.status), Some(row.owner))
  }

  /** `sendBulk()`: an alert when the paste yields no row, otherwise one bulk
      request carrying every parsed row. */
  function BulkAction(token: Option<string>, text: string): (a: Action)
    ensures a.Alert? <==> |BulkPaste.ParseBulk(text)| == 0
    ensures a.Alert? ==> a.message == PasteOneLine
    ensures a.Send? ==> a.request == Server.BulkRequest(AuthorizationFor(token), Some(Map(BulkPaste.ParseBulk(text), ToInput)))
  {
    var rows := BulkPaste.ParseBulk(text);
    if |rows| == 0 then Alert(PasteOneLine)
    else Send(Server.BulkRequest(AuthorizationFor(token), Some(Map(rows, ToInput))))
  }

  /** Every row the parser produces passes the server's title check. */
  lemma PastedRowsAdmissible(text: string)
    ensures forall k :: 0 <= k < |BulkPaste.ParseBulk(text)| ==>
              Items.Admissible(ToInput(BulkPaste.ParseBulk(text)[k]))
    ensures Filter(Map(BulkPaste.ParseBulk(text), ToInput), Items.Admissible) == Map(BulkPaste.ParseBulk(text), ToInput)
  {
    var rows := BulkPaste.ParseBulk(text);
    var inputs := Map(rows, ToInput);
    BulkPaste.ParsedRowsTrimmed(text);
    forall k | 0 <= k < |rows| ensures Items.Admissible(ToInput(rows[k])) {
      assert rows[k] in rows;
      assert OrElse(Some(rows[k].title), "") == rows[k].title;
    }
    assert forall k :: 0 <= k < |inputs| ==> Items.Admissible(inputs[k]);
  }

  /** An item created from a pasted row carries the row's fields unchanged:
      the parser already trimmed them and supplied the defaults. */
  lemma PastedRowStoredAsShown(row: BulkPaste.PastedRow, id: nat, now: string)
    requires row.title != "" && row.status != ""
    requires IsTrimmed(row.title) && IsTrimmed(row.status) && IsTrimmed(row.owner)
    ensures var it := Items.NewItem(id, ToInput(row), now);
      it.title == row.title && it.status == row.status && it.owner == Some(row.owner)
  {
    Items.NewItemFields(id, ToInput(row), now);
  }

  /** A bulk request the client sends with an accepted token inserts every
      parsed row: the server reports exactly as many as the preview shows. */
  lemma PastedRowsAllInserted(st: Server.State, token: Option<string>, text: string, o: Server.Oracles, now: string)
    requires BulkAction(token, text).Send?
    requires Authenticate(AuthorizationFor(token), o.verify).Admit?
    ensures Server.Handle(st, BulkAction(token, text).request, o, now).0 ==
              Response(200, InsertedBody(|BulkPaste.ParseBulk(text)|))
  {
    SentBulkReachesHandler(st, token, text, o, now);
    PastedRowsAdmissible(text);
  }

  /** Rows as the parser produces them. */
  predicate WellParsed(rows: seq<BulkPaste.PastedRow>)
  {
    forall j :: 0 <= j < |rows| ==>
      rows[j].title != "" && rows[j].status != ""
      && IsTrimmed(rows[j].title) && IsTrimmed(rows[j].status) && IsTrimmed(rows[j].owner)
  }

  /** A bulk insert of parsed rows appends one item per row. */
  lemma BatchAppendsAll(s: Items.ItemStore, rows: seq<BulkPaste.PastedRow>, now: string)
    requires |rows| > 0
    requires forall k :: 0 <= k < |rows| ==> Items.Admissible(ToInput(rows[k]))
    ensures Items.Bulk(s, Some(Map(rows, ToInput)), now).1.items
         == s.items + Items.NewItems(s.nextId, Map(rows, ToInput), now)
  {
    var inputs := Map(rows, ToInput);
    assert forall k :: 0 <= k < |inputs| ==> Items.Admissible(inputs[k]);
    Items.BulkAppendsAdmissible(s, inputs, now);
  }

  /** Item `j` of the batch built from parsed rows carries row `j`'s fields. */
  lemma BatchItemAt(first: nat, rows: seq<BulkPaste.PastedRow>, now: string, j: nat)
    requires j < |rows| && WellParsed(rows)
    ensures var it := Items.NewItems(first, Map(rows, ToInput), now)[j];
      && it.id == first + j && it.createdAt == now
      && it.title == rows[j].title && it.status == rows[j].status && it.owner == Some(rows[j].owner)
  {
    Items.NewItemsAt(first, Map(rows, ToInput), now, j);
    PastedRowStoredAsShown(rows[j], first + j, now);
  }

  /** `after` is `before`'s rows followed by one row per parsed row, in
      order, with consecutive fresh ids, the parsed title, status and owner,
      and the timestamp `now`. */
  predicate AppendedAsShown(before: Items.ItemStore, after: seq<Item>, rows: seq<BulkPaste.PastedRow>, now: string)
  {
    var n := |before.items|;
    && |after| == n + |rows|
    && after[..n] == before.items
    && forall j :: 0 <= j < |rows| ==>
         && after[n + j].id == before.nextId + j
         && after[n + j].title == rows[j].title
         && after[n + j].status == rows[j].status
         && after[n + j].owner == Some(rows[j].owner)
         && after[n + j].createdAt == now
  }

  lemma AppendedBatchAsShown(s: Items.ItemStore, rows: seq<BulkPaste.PastedRow>, now: string)
    requires WellParsed(rows)
    ensures AppendedAsShown(s, s.items + Items.NewItems(s.nextId, Map(rows, ToInput), now), rows, now)
  {
    var batch := Items.NewItems(s.nextId, Map(rows, ToInput), now);
    var after := s.items + batch;
    assert after[..|s.items|] == s.items;
    assert forall j :: 0 <= j < |rows| ==> after[|s.items| + j] == batch[j];
    BatchFields(s.nextId, rows, now);
  }

  lemma BatchFields(first: nat, rows: seq<BulkPaste.PastedRow>, now: string)
    requires WellParsed(rows)
    ensures var batch := Items.NewItems(first, Map(rows, ToInput), now);
      forall j :: 0 <= j < |rows| ==>
        && batch[j].id == first + j && batch[j].createdAt == now
        && batch[j].title == rows[j].title && batch[j].status == rows[j].status
        && batch[j].owner == Some(rows[j].owner)
  {
    forall j | 0 <= j < |rows| {
      BatchItemAt(first, rows, now, j);
    }
  }

  /** The parser's rows are well formed. */
  lemma ParsedRowsWellParsed(text: string)
    ensures WellParsed(BulkPaste.ParseBulk(text))
  {
    var rows := BulkPaste.ParseBulk(text);
    BulkPaste.ParsedRowsTrimmed(text);
    assert forall j :: 0 <= j < |rows| ==> rows[j] in rows;
  }

  /** A sent bulk request with an accepted token is handled by the bulk
      handler on the parsed rows. */
  lemma SentBulkReachesHandler(st: Server.State, token: Option<string>, text: string, o: Server.Oracles, now: string)
    requires BulkAction(token, text).Send?
    requires Authenticate(AuthorizationFor(token), o.verify).Admit?
    ensures var out := Items.Bulk(st.items, Some(Map(BulkPaste.ParseBulk(text), ToInput)), now);
      var handled := Server.Handle(st, BulkAction(token, text).request, o, now);
      handled.0 == out.0 && handled.1.items == out.1
  {
    Server.AdmittedBulk(st, BulkAction(token, text).request, o, now);
  }

  /** What a sent bulk request leaves in the table: the old rows, then one
      new row per parsed row, in paste order, with consecutive fresh ids, the
      parsed title, status and owner, and one shared timestamp. */
  lemma PastedRowsStoredInOrder(st: Server.State, token: Option<string>, text: string, o: Server.Oracles, now: string)
    requires BulkAction(token, text).Send?
    requires Authenticate(AuthorizationFor(token), o.verify).Admit?
    ensures AppendedAsShown(st.items, Server.Handle(st, BulkAction(token, text).request, o, now).1.items.items,
                            BulkPaste.ParseBulk(text), now)
  {
    var rows := BulkPaste.ParseBulk(text);
    SentBulkReachesHandler(st, token, text, o, now);
    PastedRowsAdmissible(text);
    ParsedRowsWellParsed(text);
    BatchAppendsAll(st.items, rows, now);
    AppendedBatchAsShown(st.items, rows, now);
  }
}
