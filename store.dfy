/**
 * The database as the views use it: one object whose fields are the
 * tables, updated in place. Each writing view and each cascading delete
 * is a method; its contract ties the new tables to the function of the
 * old tables that `Views` or `Models` defines, and keeps the schema
 * constraints.
 */
module Database {
  import opened Wrappers
  import opened Models
  import opened Requests
  import opened Views
  import ViewProperties

  class Store {
    var users: map<Id, User>
    var categories: map<Id, Category>
    var clothes: map<Id, Clothes>
    var saved: map<Id, Saved>
    var experiments: map<Id, Experiment>
    var history: map<Id, History>
    var feedback: map<Id, Feedback>
    var nextSaved: Id

    /** The tables as one value. */
    function Tables(): Db
      reads this
    {
      Db(users, categories, clothes, saved, experiments, history, feedback, nextSaved)
    }

    /** The schema constraints hold of the tables. */
    ghost predicate Valid()
      reads this
    {
      Models.Valid(Tables())
    }

    /** A store holding the given tables. */
    constructor (initial: Db)
      requires Models.Valid(initial)
      ensures Valid() && Tables() == initial
    {
      users, categories, clothes, saved := initial.users, initial.categories, initial.clothes, initial.saved;
      experiments, history, feedback := initial.experiments, initial.history, initial.feedback;
      nextSaved := initial.nextSaved;
    }

    /** `SavedViewSet.create` for the authenticated `user`. */
    method CreateSaved(user: Id, body: Body) returns (status: int)
      requires Valid() && user in users
      modifies this`saved, this`nextSaved
      ensures Valid()
      ensures Outcome(status, Tables()) == Views.CreateSaved(old(Tables()), user, body)
      // Follows from the clause above; stated for readers of the method.
      ensures status != CREATED ==> saved == old(saved) && nextSaved == old(nextSaved)
    {
      ViewProperties.CreateSavedKeepsValid(Tables(), user, body);
      match DecodeSaveRequest(body)
      case InvalidJson =>
        status := BAD_REQUEST;
      case UndecodableBody =>
        status := SERVER_ERROR;
      case MissingClothes =>
        status := SERVER_ERROR;
      case FalsyClothes =>
        status := BAD_REQUEST;
      case UncoercibleClothes =>
        status := SERVER_ERROR;
      case ClothesKey(k) =>
        if k !in clothes {
          status := NOT_FOUND;
        } else if SavesOf(saved, user, k) != {} {
          status := BAD_REQUEST;
        } else {
          saved := saved[nextSaved := Saved(user, k)];
          nextSaved := nextSaved + 1;
          status := CREATED;
        }
    }

    /** `SavedViewSet.unsave` for the authenticated `user`. */
    method Unsave(user: Id, pk: Option<string>) returns (status: int)
      requires Valid()
      modifies this`saved
      ensures Valid()
      ensures Outcome(status, Tables()) == Views.Unsave(old(Tables()), user, pk)
      // Follows from the clause above; stated for readers of the method.
      ensures status != NO_CONTENT ==> saved == old(saved)
    {
      ViewProperties.UnsaveKeepsValid(Tables(), user, pk);
      if pk.None? {
        return NOT_FOUND;
      }
      var key := ParseInt(pk.value);
      if key.None? {
        return SERVER_ERROR;
      }
      var hits := SavesOf(saved, user, key.value);
      if hits == {} {
        return NOT_FOUND;
      }
      if |hits| != 1 {
        return SERVER_ERROR;
      }
      saved := saved - hits;
      status := NO_CONTENT;
    }

    /** `ChangePasswordView.post` for the authenticated `user`. */
    method ChangePassword(user: Id, form: PasswordForm) returns (status: int)
      requires Valid() && user in users
      modifies this`users
      ensures Valid()
      ensures Outcome(status, Tables()) == Views.ChangePassword(old(Tables()), user, form)
      // Follows from the clause above; stated for readers of the method.
      ensures status != OK ==> users == old(users)
    {
      ViewProperties.ChangePasswordKeepsValid(Tables(), user, form);
      if form.RejectedForm? {
        return BAD_REQUEST;
      }
      if !CheckPassword(users[user].credential, form.oldPassword) {
        return BAD_REQUEST;
      }
      users := users[user := users[user].(credential := SetPassword(form.newPassword))];
      status := OK;
    }

    /** Deleting a clothes item: its saved rows go first, then the item. */
    method DeleteClothes(id: Id)
      requires Valid()
      modifies this`clothes, this`saved
      ensures Valid()
      ensures Tables() == Models.DeleteClothes(old(Tables()), id)
    {
      DeleteClothesKeepsValid(Tables(), id);
      saved := map s | s in saved && saved[s].clothes != id :: saved[s];
      clothes := clothes - {id};
    }

    /** Deleting a category: the saved rows of its clothes, its clothes,
        then the category. */
    method DeleteCategory(id: Id)
      requires Valid()
      modifies this`categories, this`clothes, this`saved
      ensures Valid()
      ensures Tables() == Models.DeleteCategory(old(Tables()), id)
    {
      DeleteCategoryKeepsValid(Tables(), id);
      var doomed := ClothesIn(Tables(), id);
      saved := map s | s in saved && saved[s].clothes !in doomed :: saved[s];
      clothes := clothes - doomed;
      categories := categories - {id};
    }

    /** Deleting a user: their saved and history rows, then the user. */
    method DeleteUser(id: Id)
      requires Valid()
      modifies this`users, this`saved, this`history
      ensures Valid()
      ensures Tables() == Models.DeleteUser(old(Tables()), id)
    {
      DeleteUserKeepsValid(Tables(), id);
      saved := map s | s in saved && saved[s].user != id :: saved[s];
      history := map h | h in history && history[h].user != id :: history[h];
      users := users - {id};
    }

    /** Deleting an experiment: its history and feedback rows, then the
        experiment. */
    method DeleteExperiment(id: Id)
      requires Valid()
      modifies this`experiments, this`history, this`feedback
      ensures Valid()
      ensures Tables() == Models.DeleteExperiment(old(Tables()), id)
    {
      DeleteExperimentKeepsValid(Tables(), id);
      history := map h | h in history && history[h].experiment != id :: history[h];
      feedback := map f | f in feedback && feedback[f].experiment != id :: feedback[f];
      experiments := experiments - {id};
    }
  }
}
