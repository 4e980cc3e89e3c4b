/**
 * AuthorServiceImpl: lookups by id and by (name, surname), and add, update and
 * delete through the author repository, turning the hooks' vetoes and missing
 * records into DataOperation errors with the service's own messages.
 */
module AuthorService {
  import opened Results
  import opened Exceptions
  import opened Entities
  import Documents
  import Database
  import Repositories

  const NOT_FOUND_BY_ID := "Author by provided ID not found"
  const NOT_FOUND_BY_NAME := "No author found by provided name"
  const ADD_DUPLICATE := "Can not add author because author already exists!"
  const UPDATE_NOT_FOUND := "Can not update author. Author by provided ID not found"
  const UPDATE_DUPLICATE := "Can not update author because author with same name already exists!"
  const DELETE_REFERENCED := "You can not delete author because exists book with this author!"

  /** getAuthorById: the stored author with that id, which a valid store holds at most once. */
  function GetAuthorById(store: Database.Store, id: Id): (r: Result<Author, LibraryException>)
    reads store
    ensures r.Success? <==> Documents.ExistsBy(store.authors, AuthorId, Some(id))
    ensures r.Success? ==> r.value in store.authors && r.value.id == Some(id)
    ensures r.Success? && store.Valid() ==>
      forall i :: 0 <= i < |store.authors| && store.authors[i].id == Some(id) ==> store.authors[i] == r.value
    ensures r.Failure? ==> r.error == DataOperation(NOT_FOUND_BY_ID)
  {
    match Documents.FindFirstBy(store.authors, AuthorId, Some(id))
    case Some(a) =>
      assert store.Valid() ==> forall i :: 0 <= i < |store.authors| && store.authors[i].id == Some(id) ==> store.authors[i] == a by {
        if store.Valid() {
          forall i | 0 <= i < |store.authors| && store.authors[i].id == Some(id) ensures store.authors[i] == a {
            Documents.FindFirstByUnique(store.authors, AuthorId, store.authors[i]);
          }
        }
      }
      Success(a)
    case None => Failure(DataOperation(NOT_FOUND_BY_ID))
  }

  /**
   * getAuthorByName: the stored author with exactly that name and surname.
   * The lookup is a single-result query: with no match it reports
   * NOT_FOUND_BY_NAME, with two or more it throws IncorrectResultSizeDataAccess,
   * which a valid store, keeping the pair unique, never does.
   */
  function GetAuthorByName(store: Database.Store, name: string, surname: string): (r: Result<Author, LibraryException>)
    reads store
    ensures r.Success? <==>
      ((exists i :: 0 <= i < |store.authors| && store.authors[i].name == name && store.authors[i].surname == surname)
      && !Documents.ManyBy(store.authors, AuthorFullName, (name, surname)))
    ensures r.Success? ==> r.value in store.authors && r.value.name == name && r.value.surname == surname
    ensures r.Success? ==>
      forall i :: 0 <= i < |store.authors| && store.authors[i].name == name && store.authors[i].surname == surname ==> store.authors[i] == r.value
    ensures r == Failure(DataOperation(NOT_FOUND_BY_NAME)) <==>
      forall i :: 0 <= i < |store.authors| ==> store.authors[i].name != name || store.authors[i].surname != surname
    ensures r == Failure(IncorrectResultSizeDataAccess) <==> Documents.ManyBy(store.authors, AuthorFullName, (name, surname))
    ensures store.Valid() ==> r != Failure(IncorrectResultSizeDataAccess)
  {
    match Documents.FindOneBy(store.authors, AuthorFullName, (name, surname))
    case Failure(e) => Failure(e)
    case Success(None) =>
      assert forall i :: 0 <= i < |store.authors| ==> AuthorFullName(store.authors[i]) != (name, surname);
      Failure(DataOperation(NOT_FOUND_BY_NAME))
    case Success(Some(a)) =>
      Success(a)
  }

  /**
   * addNewAuthor: stores the author unless its (name, surname) is taken, in
   * which case nothing changes and the service reports the duplicate.
   */
  method AddNewAuthor(store: Database.Store, author: Author, newId: Id) returns (r: Result<Author, LibraryException>)
    requires store.Consistent()
    requires author.id.None? ==> !Documents.ExistsBy(store.authors, AuthorId, Some(newId))
    modifies store
    ensures store.Consistent()
    ensures store.genres == old(store.genres) && store.books == old(store.books) && store.comments == old(store.comments)
    ensures r.Failure? <==> Documents.ExistsBy(old(store.authors), AuthorFullName, AuthorFullName(author))
    ensures r.Failure? ==> r.error == DataOperation(ADD_DUPLICATE) && store.authors == old(store.authors)
    ensures r.Success? ==> r.value == Repositories.StoredAuthor(author, newId)
    ensures r.Success? ==> store.authors == Documents.Upsert(old(store.authors), r.value, AuthorId)
  {
    var saved := Repositories.SaveAuthor(store, author, newId);
    if saved.Failure? {
      return Failure(DataOperation(ADD_DUPLICATE));
    }
    r := saved;
  }

  /**
   * updateAuthor: an unknown id fails; the same name and surname return the
   * stored author without a write (a save would be vetoed by its own key);
   * otherwise the stored author takes the new name and surname, keeps its id,
   * and replaces the old record, unless another author holds that pair.
   */
  method UpdateAuthor(store: Database.Store, id: Id, author: Author) returns (r: Result<Author, LibraryException>)
    requires store.Consistent()
    modifies store
    ensures store.Consistent()
    ensures store.genres == old(store.genres) && store.books == old(store.books) && store.comments == old(store.comments)
    ensures !Documents.ExistsBy(old(store.authors), AuthorId, Some(id)) ==>
      r == Failure(DataOperation(UPDATE_NOT_FOUND)) && store.authors == old(store.authors)
    ensures Documents.ExistsBy(old(store.authors), AuthorId, Some(id)) ==>
      var stored := Documents.FindFirstBy(old(store.authors), AuthorId, Some(id)).value;
      if stored.name == author.name && stored.surname == author.surname then
        r == Success(stored) && store.authors == old(store.authors)
      else if Documents.ExistsBy(old(store.authors), AuthorFullName, AuthorFullName(author)) then
        r == Failure(DataOperation(UPDATE_DUPLICATE)) && store.authors == old(store.authors)
      else
        r == Success(stored.(name := author.name, surname := author.surname))
        && store.authors == Documents.Upsert(old(store.authors), r.value, AuthorId)
  {
    var found := Documents.FindFirstBy(store.authors, AuthorId, Some(id));
    if found.None? {
      return Failure(DataOperation(UPDATE_NOT_FOUND));
    }
    var stored := found.value;
    if author.name == stored.name && author.surname == stored.surname {
      return Success(stored);
    }
    var saved := Repositories.SaveAuthor(store, stored.(name := author.name, surname := author.surname), id);
    if saved.Failure? {
      return Failure(DataOperation(UPDATE_DUPLICATE));
    }
    r := saved;
  }

  /**
   * deleteAuthor: a reference veto becomes the service's error; a missing id
   * is not caught here, so the store's not-found error reaches the caller.
   */
  method DeleteAuthor(store: Database.Store, id: Id) returns (r: Outcome<LibraryException>)
    requires store.Consistent()
    modifies store
    ensures store.Consistent()
    ensures store.genres == old(store.genres) && store.books == old(store.books) && store.comments == old(store.comments)
    ensures !Documents.ExistsBy(old(store.authors), AuthorId, Some(id)) ==> r == Fail(EmptyResultDataAccess)
    ensures Documents.ExistsBy(old(store.authors), AuthorId, Some(id)) ==>
      r == (if Documents.ExistsBy(old(store.books), BookAuthorId, id) then Fail(DataOperation(DELETE_REFERENCED)) else Pass)
    ensures r.Fail? ==> store.authors == old(store.authors)
    ensures r.Pass? ==> store.authors == Documents.RemoveBy(old(store.authors), AuthorId, Some(id))
  {
    r := Repositories.DeleteAuthorById(store, id);
    if r.Fail? && r.error.IllegalDeleteOperation? {
      r := Fail(DataOperation(DELETE_REFERENCED));
    }
  }
}
