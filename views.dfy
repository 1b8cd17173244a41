/**
 * The API views over the database value: the saved-items manager
 * (`SavedViewSet`), the catalog and history lookups and the password
 * change, each as a function from the database and the request to the
 * HTTP status and the database afterwards (or the rows listed).
 */
module Views {
  import opened Wrappers
  import opened Models
  import opened Requests

  const OK: int := 200
  const CREATED: int := 201
  const NO_CONTENT: int := 204
  const BAD_REQUEST: int := 400
  const NOT_FOUND: int := 404
  /** The status of an exception the view does not catch. */
  const SERVER_ERROR: int := 500

  /** The effect of a view that may write: its status and the database after it. */
  datatype Outcome = Outcome(status: int, db: Db)

  /** The response of a read-only view: its status and the rows it returns. */
  datatype Reply<T> = Reply(status: int, rows: map<Id, T>)

  // ---------------------------------------------------------------------
  // SavedViewSet
  // ---------------------------------------------------------------------

  /** `get_queryset`: every saved row of the requesting user, and no other. */
  function SavedQueryset(t: Db, user: Id): (rows: map<Id, Saved>)
    ensures forall s :: s in rows ==> s in t.saved && rows[s] == t.saved[s] && rows[s].user == user
    ensures forall s :: s in t.saved && t.saved[s].user == user ==> s in rows
  {
    map s | s in t.saved && t.saved[s].user == user :: t.saved[s]
  }

  /** How `create` reads its body, up to the clothes lookup. */
  datatype SaveRequest =
    | InvalidJson         // json.loads raised JSONDecodeError
    | UndecodableBody     // json.loads raised another exception
    | MissingClothes      // data["clothes"] raised KeyError or TypeError
    | FalsyClothes        // `not clothes_id`
    | UncoercibleClothes  // the lookup's int() raised ValueError or TypeError
    | ClothesKey(id: Id)

  function DecodeSaveRequest(body: Body): SaveRequest {
    match body
    case NotJson => InvalidJson
    case Undecodable => UndecodableBody
    case JsonBody(data) =>
      match Subscript(data, "clothes")
      case None => MissingClothes
      case Some(v) =>
        if !Truthy(v) then FalsyClothes
        else
          match AsKey(v)
          case None => UncoercibleClothes
          case Some(k) => ClothesKey(k)
  }

  /** `create`: save one clothes item for the requesting user. A missing
      item is 404; a pair the user already saved violates the uniqueness
      constraint and is 400. */
  function CreateSaved(t: Db, user: Id, body: Body): Outcome {
    match DecodeSaveRequest(body)
    case InvalidJson => Outcome(BAD_REQUEST, t)
    case UndecodableBody => Outcome(SERVER_ERROR, t)
    case MissingClothes => Outcome(SERVER_ERROR, t)
    case FalsyClothes => Outcome(BAD_REQUEST, t)
    case UncoercibleClothes => Outcome(SERVER_ERROR, t)
    case ClothesKey(k) =>
      if k !in t.clothes then Outcome(NOT_FOUND, t)
      else if SavesOf(t.saved, user, k) != {} then Outcome(BAD_REQUEST, t)
      else Outcome(CREATED, t.(saved := t.saved[t.nextSaved := Saved(user, k)], nextSaved := t.nextSaved + 1))
  }

  /** `unsave`: the URL's `pk` is a clothes key. `get` finds no row for an
      absent key (`clothes_id IS NULL`), raises on a key that is not a
      numeral, and raises `MultipleObjectsReturned` on several rows. */
  function Unsave(t: Db, user: Id, pk: Option<string>): Outcome {
    match pk
    case None => Outcome(NOT_FOUND, t)
    case Some(s) =>
      match ParseInt(s)
      case None => Outcome(SERVER_ERROR, t)
      case Some(k) =>
        var hits := SavesOf(t.saved, user, k);
        if hits == {} then Outcome(NOT_FOUND, t)
        else if |hits| == 1 then Outcome(NO_CONTENT, t.(saved := t.saved - hits))
        else Outcome(SERVER_ERROR, t)
  }

  // ---------------------------------------------------------------------
  // Catalog and history lookups
  // ---------------------------------------------------------------------

  /** `ClothesListView.get` and `get_item`: with no `id` (or an empty one)
      every clothes row; otherwise the one row with that key, or 404. */
  function GetClothes(t: Db, id: Option<string>): (r: Reply<Clothes>)
    ensures r.status == OK ==> forall c :: c in r.rows ==> c in t.clothes && r.rows[c] == t.clothes[c]
    ensures r.status != OK ==> r.rows == map[]
  {
    if id.None? || id.value == "" then Reply(OK, t.clothes)
    else
      match ParseInt(id.value)
      case None => Reply(SERVER_ERROR, map[])
      case Some(k) =>
        if k in t.clothes then Reply(OK, map[k := t.clothes[k]]) else Reply(NOT_FOUND, map[])
  }

  /** The clothes rows of one category. */
  function CategoryClothes(t: Db, category: Id): (rows: map<Id, Clothes>)
    ensures rows.Keys == ClothesIn(t, category)
    ensures forall c :: c in rows ==> rows[c] == t.clothes[c] && rows[c].category == category
  {
    map c | c in ClothesIn(t, category) :: t.clothes[c]
  }

  /** `CategoriesViewSet.clothes_by_category`: `get_object` answers 404
      for a key that is not a numeral or names no category. */
  function ClothesByCategory(t: Db, pk: string): Reply<Clothes> {
    match ParseInt(pk)
    case None => Reply(NOT_FOUND, map[])
    case Some(k) =>
      if k in t.categories then Reply(CREATED, CategoryClothes(t, k)) else Reply(NOT_FOUND, map[])
  }

  /** `HistoryView.get`: every history row of the requesting user, and no
      other, with status 201. */
  function HistoryOf(t: Db, user: Id): (r: Reply<History>)
    ensures r.status == CREATED
    ensures forall h :: h in r.rows ==> h in t.history && r.rows[h] == t.history[h] && r.rows[h].user == user
    ensures forall h :: h in t.history && t.history[h].user == user ==> h in r.rows
  {
    Reply(CREATED, map h | h in t.history && t.history[h].user == user :: t.history[h])
  }

  // ---------------------------------------------------------------------
  // ChangePasswordView
  // ---------------------------------------------------------------------

  /** The serializer's verdict on the form: rejected, or the two passwords. */
  datatype PasswordForm = RejectedForm | PasswordChange(oldPassword: string, newPassword: string)

  /** `check_password`: does the raw password match the stored credential? */
  predicate CheckPassword(c: Credential, raw: string) {
    c == Hashed(raw)
  }

  /** `set_password`: the credential stored for a raw password. */
  function SetPassword(raw: string): (c: Credential)
    ensures CheckPassword(c, raw)
    ensures forall other :: CheckPassword(c, other) ==> other == raw
  {
    Hashed(raw)
  }

  /** `post`: the requesting user's credential becomes the new password
      when the old one matches. */
  function ChangePassword(t: Db, user: Id, form: PasswordForm): Outcome
    requires user in t.users
  {
    match form
    case RejectedForm => Outcome(BAD_REQUEST, t)
    case PasswordChange(oldPassword, newPassword) =>
      if !CheckPassword(t.users[user].credential, oldPassword) then Outcome(BAD_REQUEST, t)
      else Outcome(OK, t.(users := t.users[user := t.users[user].(credential := SetPassword(newPassword))]))
  }
}
