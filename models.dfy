/**
 * The relational schema of the API: one record type per model, the whole
 * database as a value (`Db`, one map per table from primary key to row),
 * the constraints the schema declares (foreign keys, `unique_together` on
 * saved items) and the `on_delete=CASCADE` rules as functions from a
 * database to the database after the delete.
 */
module Models {
  import opened Wrappers

  /** Primary keys. Auto-incremented keys are positive, but lookups may be
      asked for any integer, so keys are plain integers. */
  type Id = int

  /** The largest value a `PositiveSmallIntegerField` column admits. */
  const MaxPositiveSmall: int := 32767

  /** The values of a `PositiveSmallIntegerField`: zero is admitted. */
  type PositiveSmall = r: int | 0 <= r <= MaxPositiveSmall

  /** A stored password. The hashing scheme is abstract: a usable
      credential is derived from exactly one raw password. */
  datatype Credential = Hashed(secret: string) | Unusable

  datatype User = User(username: string, credential: Credential)

  datatype Category = Category(name: string)

  datatype Clothes = Clothes(name: string, description: string, image: string, category: Id)

  /** A bookmark of one clothes item by one user. */
  datatype Saved = Saved(user: Id, clothes: Id)

  datatype Experiment = Experiment(userPhoto: string, clothesPhoto: string, modelPhoto: string)

  datatype History = History(user: Id, experiment: Id)

  datatype Feedback = Feedback(experiment: Id, rate: PositiveSmall, description: Option<string>)

  /** The database: one table per model, and the sequence that hands out
      the primary keys of new saved items. */
  datatype Db = Db(
    users: map<Id, User>,
    categories: map<Id, Category>,
    clothes: map<Id, Clothes>,
    saved: map<Id, Saved>,
    experiments: map<Id, Experiment>,
    history: map<Id, History>,
    feedback: map<Id, Feedback>,
    nextSaved: Id)

  // ---------------------------------------------------------------------
  // Schema constraints
  // ---------------------------------------------------------------------

  /** `Clothes.category` is a foreign key to Category. */
  ghost predicate ClothesHaveCategory(t: Db) {
    forall c :: c in t.clothes ==> t.clothes[c].category in t.categories
  }

  /** `Saved.user` and `Saved.clothes` are foreign keys. */
  ghost predicate SavedRowsResolve(t: Db) {
    forall s :: s in t.saved ==> t.saved[s].user in t.users && t.saved[s].clothes in t.clothes
  }

  /** `History.user` and `History.experiment` are foreign keys. */
  ghost predicate HistoryRowsResolve(t: Db) {
    forall h :: h in t.history ==> t.history[h].user in t.users && t.history[h].experiment in t.experiments
  }

  /** `Feedback.experiment` is a foreign key. */
  ghost predicate FeedbackRowsResolve(t: Db) {
    forall f :: f in t.feedback ==> t.feedback[f].experiment in t.experiments
  }

  /** `unique_together = ('user', 'clothes')` on Saved. */
  ghost predicate SavedPairsUnique(t: Db) {
    forall s, s' :: s in t.saved && s' in t.saved && t.saved[s] == t.saved[s'] ==> s == s'
  }

  /** The key sequence of Saved is ahead of every key it handed out. */
  ghost predicate SequenceAhead(t: Db) {
    forall s :: s in t.saved ==> s < t.nextSaved
  }

  /** Every state the database can be in. */
  ghost predicate Valid(t: Db) {
    && ClothesHaveCategory(t)
    && SavedRowsResolve(t)
    && HistoryRowsResolve(t)
    && FeedbackRowsResolve(t)
    && SavedPairsUnique(t)
    && SequenceAhead(t)
  }

  /** The keys of the saved rows that pair `user` with `clothes`. */
  function SavesOf(saved: map<Id, Saved>, user: Id, clothes: Id): set<Id> {
    set s | s in saved && saved[s] == Saved(user, clothes)
  }

  /** Under the uniqueness constraint a (user, clothes) pair has at most
      one saved row, and the row found is the only one. */
  lemma SavesOfAtMostOne(t: Db, user: Id, clothes: Id)
    requires SavedPairsUnique(t)
    ensures |SavesOf(t.saved, user, clothes)| <= 1
    ensures forall s :: s in SavesOf(t.saved, user, clothes) ==> SavesOf(t.saved, user, clothes) == {s}
  {
    var hits := SavesOf(t.saved, user, clothes);
    if s :| s in t.saved && t.saved[s] == Saved(user, clothes) {
      forall x | x in hits ensures x == s { }
      assert hits == {s};
    } else {
      forall x | x in hits ensures false { }
    }
  }

  // ---------------------------------------------------------------------
  // on_delete=CASCADE
  // ---------------------------------------------------------------------

  /** Removes the clothes rows whose keys are in `doomed` together with
      every saved row that refers to one of them. */
  function RemoveClothes(t: Db, doomed: set<Id>): Db {
    t.(clothes := t.clothes - doomed,
       saved := map s | s in t.saved && t.saved[s].clothes !in doomed :: t.saved[s])
  }

  /** Deleting a Clothes row; Saved cascades. */
  function DeleteClothes(t: Db, id: Id): Db {
    RemoveClothes(t, {id})
  }

  /** The keys of the clothes of one category. */
  function ClothesIn(t: Db, category: Id): set<Id> {
    set c | c in t.clothes && t.clothes[c].category == category
  }

  /** Deleting a Category row; Clothes cascades, and from them Saved. */
  function DeleteCategory(t: Db, id: Id): Db {
    RemoveClothes(t, ClothesIn(t, id)).(categories := t.categories - {id})
  }

  /** Deleting a User row; Saved and History cascade. */
  function DeleteUser(t: Db, id: Id): Db {
    t.(users := t.users - {id},
       saved := map s | s in t.saved && t.saved[s].user != id :: t.saved[s],
       history := map h | h in t.history && t.history[h].user != id :: t.history[h])
  }

  /** Deleting an Experiment row; History and Feedback cascade. */
  function DeleteExperiment(t: Db, id: Id): Db {
    t.(experiments := t.experiments - {id},
       history := map h | h in t.history && t.history[h].experiment != id :: t.history[h],
       feedback := map f | f in t.feedback && t.feedback[f].experiment != id :: t.feedback[f])
  }

  /** Deleting clothes rows one at a time, in the given order. */
  function DeleteEachClothes(t: Db, order: seq<Id>): Db
    decreases |order|
  {
    if order == [] then t else DeleteEachClothes(DeleteClothes(t, order[0]), order[1..])
  }

  // ---------------------------------------------------------------------
  // What each delete removes
  // ---------------------------------------------------------------------

  lemma DeleteClothesRemovesDependents(t: Db, id: Id)
    ensures var r := DeleteClothes(t, id);
      && r.clothes.Keys == t.clothes.Keys - {id}
      && (forall c :: c in r.clothes ==> r.clothes[c] == t.clothes[c])
      && (forall s :: s in r.saved <==> s in t.saved && t.saved[s].clothes != id)
      && (forall s :: s in r.saved ==> r.saved[s] == t.saved[s])
      && r.users == t.users && r.categories == t.categories
      && r.experiments == t.experiments && r.history == t.history
      && r.feedback == t.feedback && r.nextSaved == t.nextSaved
  {
  }

  lemma DeleteCategoryRemovesDependents(t: Db, id: Id)
    requires Valid(t)
    ensures var r := DeleteCategory(t, id);
      && r.categories == t.categories - {id}
      && (forall c :: c in r.clothes <==> c in t.clothes && t.clothes[c].category != id)
      && (forall c :: c in r.clothes ==> r.clothes[c] == t.clothes[c])
      && (forall s :: s in r.saved <==> s in t.saved && t.clothes[t.saved[s].clothes].category != id)
      && (forall s :: s in r.saved ==> r.saved[s] == t.saved[s])
      && r.users == t.users && r.experiments == t.experiments
      && r.history == t.history && r.feedback == t.feedback
      && r.nextSaved == t.nextSaved
  {
  }

  lemma DeleteUserRemovesDependents(t: Db, id: Id)
    ensures var r := DeleteUser(t, id);
      && r.users == t.users - {id}
      && (forall s :: s in r.saved <==> s in t.saved && t.saved[s].user != id)
      && (forall s :: s in r.saved ==> r.saved[s] == t.saved[s])
      && (forall h :: h in r.history <==> h in t.history && t.history[h].user != id)
      && (forall h :: h in r.history ==> r.history[h] == t.history[h])
      && r.categories == t.categories && r.clothes == t.clothes
      && r.experiments == t.experiments && r.feedback == t.feedback
      && r.nextSaved == t.nextSaved
  {
  }

  lemma DeleteExperimentRemovesDependents(t: Db, id: Id)
    ensures var r := DeleteExperiment(t, id);
      && r.experiments == t.experiments - {id}
      && (forall h :: h in r.history <==> h in t.history && t.history[h].experiment != id)
      && (forall h :: h in r.history ==> r.history[h] == t.history[h])
      && (forall f :: f in r.feedback <==> f in t.feedback && t.feedback[f].experiment != id)
      && (forall f :: f in r.feedback ==> r.feedback[f] == t.feedback[f])
      && r.users == t.users && r.categories == t.categories
      && r.clothes == t.clothes && r.saved == t.saved
      && r.nextSaved == t.nextSaved
  {
  }

  // ---------------------------------------------------------------------
  // Every delete keeps the schema constraints
  // ---------------------------------------------------------------------

  lemma RemoveClothesKeepsValid(t: Db, doomed: set<Id>)
    requires Valid(t)
    ensures Valid(RemoveClothes(t, doomed))
  {
  }

  lemma DeleteClothesKeepsValid(t: Db, id: Id)
    requires Valid(t)
    ensures Valid(DeleteClothes(t, id))
  {
    RemoveClothesKeepsValid(t, {id});
  }

  lemma DeleteCategoryKeepsValid(t: Db, id: Id)
    requires Valid(t)
    ensures Valid(DeleteCategory(t, id))
  {
    RemoveClothesKeepsValid(t, ClothesIn(t, id));
  }

  lemma DeleteUserKeepsValid(t: Db, id: Id)
    requires Valid(t)
    ensures Valid(DeleteUser(t, id))
  {
  }

  lemma DeleteExperimentKeepsValid(t: Db, id: Id)
    requires Valid(t)
    ensures Valid(DeleteExperiment(t, id))
  {
  }

  // ---------------------------------------------------------------------
  // The category cascade is the clothes cascade, item by item
  // ---------------------------------------------------------------------

  /** Removing nothing changes nothing. */
  lemma RemoveNoClothes(t: Db)
    ensures RemoveClothes(t, {}) == t
  {
    var r := RemoveClothes(t, {});
    assert r.saved == t.saved;
    assert r.clothes == t.clothes;
  }

  /** Two removals in a row are one removal of both sets. */
  lemma RemoveClothesTwice(t: Db, a: set<Id>, b: set<Id>)
    ensures RemoveClothes(RemoveClothes(t, a), b) == RemoveClothes(t, a + b)
  {
    var lhs := RemoveClothes(RemoveClothes(t, a), b);
    var rhs := RemoveClothes(t, a + b);
    assert lhs.clothes == rhs.clothes;
    assert lhs.saved == rhs.saved;
  }

  /** Deleting clothes one by one, in any order, removes the same rows as
      removing them all at once. */
  lemma {:induction false} DeleteEachClothesIsRemoval(t: Db, order: seq<Id>)
    ensures DeleteEachClothes(t, order) == RemoveClothes(t, set i | i in order)
    decreases |order|
  {
    if order == [] {
      assert (set i | i in order) == {};
      RemoveNoClothes(t);
    } else {
      var rest := set i | i in order[1..];
      DeleteEachClothesIsRemoval(DeleteClothes(t, order[0]), order[1..]);
      RemoveClothesTwice(t, {order[0]}, rest);
      assert (set i | i in order) == {order[0]} + rest;
    }
  }

  /** Deleting a category is deleting each of its clothes items, in any
      order, and then the category row: the Category -> Clothes -> Saved
      cascade chain. */
  lemma DeleteCategoryIsClothesByClothes(t: Db, id: Id, order: seq<Id>)
    requires (set i | i in order) == ClothesIn(t, id)
    ensures DeleteCategory(t, id) == DeleteEachClothes(t, order).(categories := t.categories - {id})
  {
    DeleteEachClothesIsRemoval(t, order);
  }
}
