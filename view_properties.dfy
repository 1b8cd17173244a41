/**
 * What the views promise: each outcome of `create` and `unsave` with its
 * status and its exact effect on the tables, the constraints every view
 * keeps, the isolation of one user's saved items from another's, the
 * lookups' hits and misses, and the password change.
 */
module ViewProperties {
  import opened Wrappers
  import opened Models
  import opened Requests
  import opened Views

  // ---------------------------------------------------------------------
  // create
  // ---------------------------------------------------------------------

  /** Saving an existing item the user has not saved yet adds exactly one
      row, under a fresh key, answers 201 and touches no other table. */
  lemma CreateSavedAddsOneRow(t: Db, user: Id, body: Body, k: Id)
    requires Valid(t)
    requires DecodeSaveRequest(body) == ClothesKey(k)
    requires k in t.clothes && SavesOf(t.saved, user, k) == {}
    ensures var r := CreateSaved(t, user, body);
      && r.status == CREATED
      && t.nextSaved !in t.saved
      && r.db.saved == t.saved[t.nextSaved := Saved(user, k)]
      && |r.db.saved| == |t.saved| + 1
      && SavesOf(r.db.saved, user, k) == {t.nextSaved}
      && r.db.(saved := t.saved, nextSaved := t.nextSaved) == t
  {
    var r := CreateSaved(t, user, body);
    var hits := SavesOf(r.db.saved, user, k);
    forall s | s in hits ensures s == t.nextSaved {
      assert s == t.nextSaved || s in SavesOf(t.saved, user, k);
    }
    assert t.nextSaved in hits;
  }

  /** Saving an item that does not exist answers 404 and changes nothing. */
  lemma CreateSavedUnknownClothes(t: Db, user: Id, body: Body, k: Id)
    requires DecodeSaveRequest(body) == ClothesKey(k) && k !in t.clothes
    ensures CreateSaved(t, user, body) == Outcome(NOT_FOUND, t)
  {
  }

  /** Saving a pair that is already saved answers 400; the table is
      unchanged and still holds exactly one row for the pair. */
  lemma CreateSavedDuplicate(t: Db, user: Id, body: Body, k: Id)
    requires Valid(t)
    requires DecodeSaveRequest(body) == ClothesKey(k) && k in t.clothes
    requires SavesOf(t.saved, user, k) != {}
    ensures CreateSaved(t, user, body) == Outcome(BAD_REQUEST, t)
    ensures |SavesOf(t.saved, user, k)| == 1
  {
    SavesOfAtMostOne(t, user, k);
  }

  /** A body that is not JSON or whose clothes id is falsy answers 400
      whatever the store holds; a body `json.loads` fails on with another
      exception, or without a usable "clothes" key, ends in an uncaught
      exception. The store is unchanged either way. */
  lemma CreateSavedMalformedBody(t: Db, t': Db, user: Id, body: Body)
    requires !DecodeSaveRequest(body).ClothesKey?
    ensures CreateSaved(t, user, body).db == t
    ensures CreateSaved(t, user, body).status == CreateSaved(t', user, body).status
    ensures CreateSaved(t, user, body).status ==
      if DecodeSaveRequest(body) in {InvalidJson, FalsyClothes} then BAD_REQUEST else SERVER_ERROR
  {
  }

  /** The decoding of a body: not JSON, undecodable, no "clothes" member, a falsy value,
      a value `int()` rejects, or a key. */
  lemma DecodeSaveRequestCases(body: Body)
    ensures DecodeSaveRequest(body) == InvalidJson <==> body == NotJson
    ensures DecodeSaveRequest(body) == UndecodableBody <==> body == Undecodable
    ensures DecodeSaveRequest(body) == MissingClothes <==>
      body.JsonBody? && !(body.value.JObject? && "clothes" in body.value.members)
    ensures DecodeSaveRequest(body) == FalsyClothes <==>
      body.JsonBody? && body.value.JObject? && "clothes" in body.value.members
      && !Truthy(body.value.members["clothes"])
    ensures forall k :: DecodeSaveRequest(body) == ClothesKey(k) <==>
      body.JsonBody? && body.value.JObject? && "clothes" in body.value.members
      && Truthy(body.value.members["clothes"]) && AsKey(body.value.members["clothes"]) == Some(k)
  {
  }

  lemma CreateSavedKeepsValid(t: Db, user: Id, body: Body)
    requires Valid(t) && user in t.users
    ensures Valid(CreateSaved(t, user, body).db)
  {
    if CreateSaved(t, user, body).status == CREATED {
      var k := DecodeSaveRequest(body).id;
      forall s | s in t.saved ensures t.saved[s] != Saved(user, k) {
        assert s !in SavesOf(t.saved, user, k);
      }
    }
  }

  /** Saving the same item twice: the second call answers 400 and the user
      has exactly one row for the item. */
  lemma CreateSavedTwice(t: Db, user: Id, body: Body, k: Id)
    requires Valid(t) && user in t.users
    requires DecodeSaveRequest(body) == ClothesKey(k) && k in t.clothes
    ensures var first := CreateSaved(t, user, body);
      var second := CreateSaved(first.db, user, body);
      && first.status in {CREATED, BAD_REQUEST}
      && second == Outcome(BAD_REQUEST, first.db)
      && |SavesOf(second.db.saved, user, k)| == 1
  {
    var first := CreateSaved(t, user, body);
    if SavesOf(t.saved, user, k) == {} {
      CreateSavedAddsOneRow(t, user, body, k);
    } else {
      CreateSavedDuplicate(t, user, body, k);
    }
    CreateSavedKeepsValid(t, user, body);
    CreateSavedDuplicate(first.db, user, body, k);
  }

  // ---------------------------------------------------------------------
  // unsave
  // ---------------------------------------------------------------------

  /** Unsaving an item the user saved removes exactly that row and answers
      204; every other row, other users' saves of the same item included,
      stays as it was. */
  lemma UnsaveRemovesOneRow(t: Db, user: Id, pk: string, k: Id, s: Id)
    requires Valid(t)
    requires ParseInt(pk) == Some(k)
    requires s in t.saved && t.saved[s] == Saved(user, k)
    ensures var r := Unsave(t, user, Some(pk));
      && r.status == NO_CONTENT
      && r.db == t.(saved := t.saved - {s})
      && (forall s' :: s' in t.saved && s' != s ==> s' in r.db.saved && r.db.saved[s'] == t.saved[s'])
  {
    SavesOfAtMostOne(t, user, k);
    assert s in SavesOf(t.saved, user, k);
  }

  /** Unsaving with no key, or an item the user has not saved, answers 404
      and changes nothing. */
  lemma UnsaveMissing(t: Db, user: Id, pk: Option<string>)
    requires pk.None? || (ParseInt(pk.value).Some? && SavesOf(t.saved, user, ParseInt(pk.value).value) == {})
    ensures Unsave(t, user, pk) == Outcome(NOT_FOUND, t)
  {
  }

  /** Under the uniqueness constraint `get` never finds several rows: a
      numeral key answers 204 or 404, never 500. */
  lemma UnsaveNeverAmbiguous(t: Db, user: Id, pk: Option<string>)
    requires Valid(t)
    requires pk.None? || ParseInt(pk.value).Some?
    ensures Unsave(t, user, pk).status in {NO_CONTENT, NOT_FOUND}
  {
    if pk.Some? {
      SavesOfAtMostOne(t, user, ParseInt(pk.value).value);
    }
  }

  lemma UnsaveKeepsValid(t: Db, user: Id, pk: Option<string>)
    requires Valid(t)
    ensures Valid(Unsave(t, user, pk).db)
  {
  }

  /** Unsave undoes create: after a successful save, unsaving the same item
      restores every table; only the key sequence has moved on. */
  lemma UnsaveUndoesCreate(t: Db, user: Id, body: Body, k: Id)
    requires Valid(t)
    requires DecodeSaveRequest(body) == ClothesKey(k)
    requires CreateSaved(t, user, body).status == CREATED
    ensures Unsave(CreateSaved(t, user, body).db, user, Some(KeyNumeral(k)))
      == Outcome(NO_CONTENT, t.(nextSaved := t.nextSaved + 1))
  {
    var first := CreateSaved(t, user, body);
    CreateSavedAddsOneRow(t, user, body, k);
    KeyNumeralReadsBack(k);
    assert first.db.saved - {t.nextSaved} == t.saved;
  }

  // ---------------------------------------------------------------------
  // get_queryset: one user's saves are isolated from another's
  // ---------------------------------------------------------------------

  /** A save by one user leaves every other user's queryset as it was. */
  lemma CreateSavedIsolated(t: Db, user: Id, other: Id, body: Body)
    requires Valid(t) && other != user
    ensures SavedQueryset(CreateSaved(t, user, body).db, other) == SavedQueryset(t, other)
  {
    var after := SavedQueryset(CreateSaved(t, user, body).db, other);
    var before := SavedQueryset(t, other);
    forall s | s in after ensures s in before { }
    forall s | s in before ensures s in after { }
    assert after.Keys == before.Keys;
  }

  /** An unsave by one user leaves every other user's queryset as it was. */
  lemma UnsaveIsolated(t: Db, user: Id, other: Id, pk: Option<string>)
    requires other != user
    ensures SavedQueryset(Unsave(t, user, pk).db, other) == SavedQueryset(t, other)
  {
    var r := Unsave(t, user, pk);
    assert SavedQueryset(r.db, other).Keys == SavedQueryset(t, other).Keys;
  }

  /** Save, list, unsave, list: a user with no saves who saves item k sees
      exactly one row, for k; after unsaving k the list is empty again. */
  lemma SaveListUnsaveScenario(t: Db, user: Id, k: Id)
    requires Valid(t) && user in t.users
    requires k != 0 && k in t.clothes
    requires SavedQueryset(t, user) == map[]
    ensures var body := JsonBody(JObject(map["clothes" := JInt(k)]));
      var saved := CreateSaved(t, user, body);
      var unsaved := Unsave(saved.db, user, Some(KeyNumeral(k)));
      && saved.status == CREATED
      && SavedQueryset(saved.db, user) == map[t.nextSaved := Saved(user, k)]
      && unsaved.status == NO_CONTENT
      && SavedQueryset(unsaved.db, user) == map[]
  {
    var body := JsonBody(JObject(map["clothes" := JInt(k)]));
    assert DecodeSaveRequest(body) == ClothesKey(k);
    forall s | s in SavesOf(t.saved, user, k) ensures false { }
    CreateSavedAddsOneRow(t, user, body, k);
    UnsaveUndoesCreate(t, user, body, k);
    var saved := CreateSaved(t, user, body);
    forall s | s in SavedQueryset(saved.db, user) ensures s == t.nextSaved {
      assert s == t.nextSaved || s in SavedQueryset(t, user);
    }
    assert SavedQueryset(saved.db, user).Keys == {t.nextSaved};
  }

  // ---------------------------------------------------------------------
  // Lookups
  // ---------------------------------------------------------------------

  /** A key that exists is returned with 200, one that does not is 404;
      no key, or an empty one, lists the whole catalog. */
  lemma GetClothesByKey(t: Db, k: Id)
    ensures GetClothes(t, Some(KeyNumeral(k))) ==
      if k in t.clothes then Reply(OK, map[k := t.clothes[k]]) else Reply(NOT_FOUND, map[])
    ensures GetClothes(t, None) == Reply(OK, t.clothes)
    ensures GetClothes(t, Some("")) == Reply(OK, t.clothes)
  {
    KeyNumeralReadsBack(k);
    if k >= 0 {
      NumeralReadsBack(k);
    }
  }

  /** The by-category listing answers 201 with exactly the clothes of the
      category when it exists, and 404 when it does not. */
  lemma ClothesByCategoryByKey(t: Db, k: Id)
    ensures var r := ClothesByCategory(t, KeyNumeral(k));
      && (r.status == CREATED <==> k in t.categories)
      && (r.status != CREATED ==> r == Reply(NOT_FOUND, map[]))
      && (k in t.categories ==> r.rows == CategoryClothes(t, k))
  {
    KeyNumeralReadsBack(k);
  }

  /** The category listings partition the catalog: the listings of two
      different categories share no clothes, every clothes row is listed
      under some existing category, namely its own, and every listing of an
      existing category holds only catalog rows. */
  lemma CategoryListingsPartitionCatalog(t: Db)
    requires Valid(t)
    ensures forall a, b :: a != b ==> CategoryClothes(t, a).Keys !! CategoryClothes(t, b).Keys
    ensures forall c :: c in t.clothes <==> exists category :: category in t.categories && c in CategoryClothes(t, category)
    ensures forall c :: c in t.clothes ==> c in CategoryClothes(t, t.clothes[c].category)
  {
    forall c | c in t.clothes
      ensures t.clothes[c].category in t.categories && c in CategoryClothes(t, t.clothes[c].category)
    {
      assert c in ClothesIn(t, t.clothes[c].category);
    }
  }

  // ---------------------------------------------------------------------
  // Change password
  // ---------------------------------------------------------------------

  /** A wrong old password (or a rejected form) answers 400 and leaves the
      stored credential as it was. */
  lemma WrongPasswordKeepsCredential(t: Db, user: Id, form: PasswordForm)
    requires user in t.users
    requires form.RejectedForm? || !CheckPassword(t.users[user].credential, form.oldPassword)
    ensures ChangePassword(t, user, form) == Outcome(BAD_REQUEST, t)
  {
  }

  /** With the right old password the answer is 200; afterwards the new
      password is the one the user's credential accepts, and no other row
      or table changed. */
  lemma ChangePasswordReplacesCredential(t: Db, user: Id, oldPassword: string, newPassword: string)
    requires user in t.users && CheckPassword(t.users[user].credential, oldPassword)
    ensures var r := ChangePassword(t, user, PasswordChange(oldPassword, newPassword));
      && r.status == OK
      && user in r.db.users
      && CheckPassword(r.db.users[user].credential, newPassword)
      && (oldPassword != newPassword ==> !CheckPassword(r.db.users[user].credential, oldPassword))
      && r.db.users[user].username == t.users[user].username
      && r.db.users.Keys == t.users.Keys
      && (forall u :: u in t.users && u != user ==> r.db.users[u] == t.users[u])
      && r.db.(users := t.users) == t
  {
  }

  lemma ChangePasswordKeepsValid(t: Db, user: Id, form: PasswordForm)
    requires Valid(t) && user in t.users
    ensures Valid(ChangePassword(t, user, form).db)
  {
  }
}
