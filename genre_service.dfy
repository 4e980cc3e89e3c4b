/**
 * GenreServiceImpl: lookups by id and by name, and add, update and delete
 * through the genre repository, turning vetoes and missing records into
 * DataOperation errors with the service's own messages.
 */
module GenreService {
  import opened Results
  import opened Exceptions
  import opened Entities
  import Documents
  import Database
  import Repositories

  const NOT_FOUND_BY_ID := "No genre found by provided id"
  const NOT_FOUND_BY_NAME := "No genre found by provided name"
  const ADD_DUPLICATE := "Can not add genre because genre already exists!"
  const UPDATE_NOT_FOUND := "Can not update genre. Genre by provided ID not found"
  const UPDATE_DUPLICATE := "Can not update genre because genre with same name already exists!"
  const DELETE_REFERENCED := "You can not delete genre because exists book with this genre!"

  /** getGenreById: the stored genre with that id, which a valid store holds at most once. */
  function GetGenreById(store: Database.Store, id: Id): (r: Result<Genre, LibraryException>)
    reads store
    ensures r.Success? <==> Documents.ExistsBy(store.genres, GenreId, Some(id))
    ensures r.Success? ==> r.value in store.genres && r.value.id == Some(id)
    ensures r.Success? && store.Valid() ==>
      forall i :: 0 <= i < |store.genres| && store.genres[i].id == Some(id) ==> store.genres[i] == r.value
    ensures r.Failure? ==> r.error == DataOperation(NOT_FOUND_BY_ID)
  {
    match Documents.FindFirstBy(store.genres, GenreId, Some(id))
    case Some(g) =>
      assert store.Valid() ==> forall i :: 0 <= i < |store.genres| && store.genres[i].id == Some(id) ==> store.genres[i] == g by {
        if store.Valid() {
          forall i | 0 <= i < |store.genres| && store.genres[i].id == Some(id) ensures store.genres[i] == g {
            Documents.FindFirstByUnique(store.genres, GenreId, store.genres[i]);
          }
        }
      }
      Success(g)
    case None => Failure(DataOperation(NOT_FOUND_BY_ID))
  }

  /**
   * getGenreByName: the stored genre with exactly that name. The lookup is a
   * single-result query: with no match it reports NOT_FOUND_BY_NAME, with two
   * or more it throws IncorrectResultSizeDataAccess, which a valid store,
   * keeping names unique, never does.
   */
  function GetGenreByName(store: Database.Store, name: string): (r: Result<Genre, LibraryException>)
    reads store
    ensures r.Success? <==>
      ((exists i :: 0 <= i < |store.genres| && store.genres[i].name == name)
      && !Documents.ManyBy(store.genres, GenreName, name))
    ensures r.Success? ==> r.value in store.genres && r.value.name == name
    ensures r.Success? ==>
      forall i :: 0 <= i < |store.genres| && store.genres[i].name == name ==> store.genres[i] == r.value
    ensures r == Failure(DataOperation(NOT_FOUND_BY_NAME)) <==> forall i :: 0 <= i < |store.genres| ==> store.genres[i].name != name
    ensures r == Failure(IncorrectResultSizeDataAccess) <==> Documents.ManyBy(store.genres, GenreName, name)
    ensures store.Valid() ==> r != Failure(IncorrectResultSizeDataAccess)
  {
    match Documents.FindOneBy(store.genres, GenreName, name)
    case Failure(e) => Failure(e)
    case Success(None) =>
      assert forall i :: 0 <= i < |store.genres| ==> GenreName(store.genres[i]) != name;
      Failure(DataOperation(NOT_FOUND_BY_NAME))
    case Success(Some(g)) => Success(g)
  }

  /**
   * addNewGenre: stores the genre unless its name is taken, in which case
   * nothing changes and the service reports the duplicate.
   */
  method AddNewGenre(store: Database.Store, genre: Genre, newId: Id) returns (r: Result<Genre, LibraryException>)
    requires store.Consistent()
    requires genre.id.None? ==> !Documents.ExistsBy(store.genres, GenreId, Some(newId))
    modifies store
    ensures store.Consistent()
    ensures store.authors == old(store.authors) && store.books == old(store.books) && store.comments == old(store.comments)
    ensures r.Failure? <==> Documents.ExistsBy(old(store.genres), GenreName, genre.name)
    ensures r.Failure? ==> r.error == DataOperation(ADD_DUPLICATE) && store.genres == old(store.genres)
    ensures r.Success? ==> r.value == Repositories.StoredGenre(genre, newId)
    ensures r.Success? ==> store.genres == Documents.Upsert(old(store.genres), r.value, GenreId)
  {
    var saved := Repositories.SaveGenre(store, genre, newId);
    if saved.Failure? {
      return Failure(DataOperation(ADD_DUPLICATE));
    }
    r := saved;
  }

  /**
   * updateGenre: an unknown id fails; an unchanged name returns the stored
   * genre without a write; otherwise the stored genre takes the new name,
   * keeps its id and replaces the old record, unless the name is taken.
   */
  method UpdateGenre(store: Database.Store, id: Id, genre: Genre) returns (r: Result<Genre, LibraryException>)
    requires store.Consistent()
    modifies store
    ensures store.Consistent()
    ensures store.authors == old(store.authors) && store.books == old(store.books) && store.comments == old(store.comments)
    ensures !Documents.ExistsBy(old(store.genres), GenreId, Some(id)) ==>
      r == Failure(DataOperation(UPDATE_NOT_FOUND)) && store.genres == old(store.genres)
    ensures Documents.ExistsBy(old(store.genres), GenreId, Some(id)) ==>
      var stored := Documents.FindFirstBy(old(store.genres), GenreId, Some(id)).value;
      if stored.name == genre.name then
        r == Success(stored) && store.genres == old(store.genres)
      else if Documents.ExistsBy(old(store.genres), GenreName, genre.name) then
        r == Failure(DataOperation(UPDATE_DUPLICATE)) && store.genres == old(store.genres)
      else
        r == Success(stored.(name := genre.name))
        && store.genres == Documents.Upsert(old(store.genres), r.value, GenreId)
  {
    var found := Documents.FindFirstBy(store.genres, GenreId, Some(id));
    if found.None? {
      return Failure(DataOperation(UPDATE_NOT_FOUND));
    }
    var stored := found.value;
    if genre.name == stored.name {
      return Success(stored);
    }
    var saved := Repositories.SaveGenre(store, stored.(name := genre.name), id);
    if saved.Failure? {
      return Failure(DataOperation(UPDATE_DUPLICATE));
    }
    r := saved;
  }

  /**
   * deleteGenre: a reference veto becomes the service's error; a missing id
   * is not caught here, so the store's not-found error reaches the caller.
   */
  method DeleteGenre(store: Database.Store, id: Id) returns (r: Outcome<LibraryException>)
    requires store.Consistent()
    modifies store
    ensures store.Consistent()
    ensures store.authors == old(store.authors) && store.books == old(store.books) && store.comments == old(store.comments)
    ensures !Documents.ExistsBy(old(store.genres), GenreId, Some(id)) ==> r == Fail(EmptyResultDataAccess)
    ensures Documents.ExistsBy(old(store.genres), GenreId, Some(id)) ==>
      r == (if Documents.ExistsBy(old(store.books), BookGenreId, id) then Fail(DataOperation(DELETE_REFERENCED)) else Pass)
    ensures r.Fail? ==> store.genres == old(store.genres)
    ensures r.Pass? ==> store.genres == Documents.RemoveBy(old(store.genres), GenreId, Some(id))
  {
    r := Repositories.DeleteGenreById(store, id);
    if r.Fail? && r.error.IllegalDeleteOperation? {
      r := Fail(DataOperation(DELETE_REFERENCED));
    }
  }
}
