/** The records the tracker stores and the shapes of its HTTP responses. */
module Entities {
  import opened Options

  /** A row of the `items` table. Ids come from an autoincrement counter;
      `owner` is a nullable column. */
  datatype Item = Item(
    id: nat,
    title: string,
    status: string,
    owner: Option<string>,
    createdAt: string,
    updatedAt: string)

  /** A row of the `users` table; `isMaster` is stored as the integer 0 or 1. */
  datatype User = User(
    id: nat,
    email: string,
    name: string,
    passwordHash: string,
    role: string,
    isMaster: int,
    createdAt: string,
    updatedAt: string)

  /** The payload of a session token. */
  datatype Claims = Claims(sub: nat, email: string, role: string, isMaster: bool)

  /** The user projection sent back by a successful login: no password hash. */
  datatype UserView = UserView(id: nat, email: string, name: string, role: string, isMaster: bool)

  /** JSON response bodies: `{ok:true}`, `{error}`, an item list, one item,
      `{inserted}`, and `{token, user}`. */
  datatype Body =
    | OkBody
    | ErrorBody(error: string)
    | ItemsBody(items: seq<Item>)
    | ItemBody(item: Item)
    | InsertedBody(inserted: nat)
    | LoginBody(token: string, user: UserView)

  datatype Response = Response(status: nat, body: Body)

  function Reject(status: nat, message: string): Response
  {
    Response(status, ErrorBody(message))
  }

  const AdminRole: string := "ADMIN"

  /** The status an item gets when none is given. */
  const DefaultStatus: string := "New"
}
