/**
 * BookServiceImpl: count, lookups by id and by title, add, update and delete
 * through the book repository. Books are not checked against the stored
 * authors and genres here.
 */
module BookService {
  import opened Results
  import opened Exceptions
  import opened Entities
  import Documents
  import Database
  import Repositories

  const NOT_FOUND_BY_ID := "Book by provided ID not found"
  const DELETE_NOT_FOUND := "There is no book with provided id"

  /** getBooksCount: the number of stored books, one per stored id in a valid store. */
  function GetBooksCount(store: Database.Store): (n: nat)
    reads store
    ensures n == |store.books|
    ensures store.Valid() ==> forall i, j :: 0 <= i < j < n ==> store.books[i].id != store.books[j].id
  {
    |store.books|
  }

  /** getBookById: the stored book with that id, which a valid store holds at most once. */
  function GetBookById(store: Database.Store, id: Id): (r: Result<Book, LibraryException>)
    reads store
    ensures r.Success? <==> Documents.ExistsBy(store.books, BookId, Some(id))
    ensures r.Success? ==> r.value in store.books && r.value.id == Some(id)
    ensures r.Success? && store.Valid() ==>
      forall i :: 0 <= i < |store.books| && store.books[i].id == Some(id) ==> store.books[i] == r.value
    ensures r.Failure? ==> r.error == DataOperation(NOT_FOUND_BY_ID)
  {
    match Documents.FindFirstBy(store.books, BookId, Some(id))
    case Some(b) =>
      assert store.Valid() ==> forall i :: 0 <= i < |store.books| && store.books[i].id == Some(id) ==> store.books[i] == b by {
        if store.Valid() {
          forall i | 0 <= i < |store.books| && store.books[i].id == Some(id) ensures store.books[i] == b {
            Documents.FindFirstByUnique(store.books, BookId, store.books[i]);
          }
        }
      }
      Success(b)
    case None => Failure(DataOperation(NOT_FOUND_BY_ID))
  }

  /** getBooksByTitle: exactly the stored books with that title, possibly none. */
  function GetBooksByTitle(store: Database.Store, title: string): (r: seq<Book>)
    reads store
    ensures forall i :: 0 <= i < |r| ==> r[i] in store.books && r[i].title == title
    ensures forall i :: 0 <= i < |store.books| && store.books[i].title == title ==> store.books[i] in r
  {
    Documents.FilterBy(store.books, BookTitle, title)
  }

  /**
   * addNewBook: always stores the book, with no check on its title, author
   * or genre, and returns it with its id; a book without an id is a new
   * document, so the count grows by one.
   */
  method AddNewBook(store: Database.Store, book: Book, newId: Id) returns (r: Book)
    requires store.Consistent()
    requires book.id.None? ==> !Documents.ExistsBy(store.books, BookId, Some(newId))
    modifies store
    ensures store.Consistent()
    ensures store.authors == old(store.authors) && store.genres == old(store.genres) && store.comments == old(store.comments)
    ensures r == Repositories.StoredBook(book, newId)
    ensures store.books == Documents.Upsert(old(store.books), r, BookId)
    ensures book.id.None? ==> store.books == old(store.books) + [r]
  {
    r := Repositories.SaveBook(store, book, newId);
  }

  /**
   * updateBook: an unknown id fails; otherwise the stored book keeps its id,
   * takes title, genre and author from the argument and replaces the old
   * record, and the argument itself is returned.
   */
  method UpdateBook(store: Database.Store, id: Id, book: Book) returns (r: Result<Book, LibraryException>)
    requires store.Consistent()
    modifies store
    ensures store.Consistent()
    ensures store.authors == old(store.authors) && store.genres == old(store.genres) && store.comments == old(store.comments)
    ensures r.Failure? <==> !Documents.ExistsBy(old(store.books), BookId, Some(id))
    ensures r.Failure? ==> r.error == DataOperation(NOT_FOUND_BY_ID) && store.books == old(store.books)
    ensures r.Success? ==> r.value == book
    ensures r.Success? ==>
      var stored := Documents.FindFirstBy(old(store.books), BookId, Some(id)).value;
      store.books == Documents.Upsert(old(store.books), stored.(title := book.title, genreId := book.genreId, authorId := book.authorId), BookId)
  {
    var found := Documents.FindFirstBy(store.books, BookId, Some(id));
    if found.None? {
      return Failure(DataOperation(NOT_FOUND_BY_ID));
    }
    var stored := found.value;
    var _ := Repositories.SaveBook(store, stored.(title := book.title, genreId := book.genreId, authorId := book.authorId), id);
    r := Success(book);
  }

  /**
   * deleteBookById: the store's not-found error becomes the service's error;
   * otherwise the book is gone and so are its comments.
   */
  method DeleteBookById(store: Database.Store, id: Id) returns (r: Outcome<LibraryException>)
    requires store.Consistent()
    modifies store
    ensures store.Consistent()
    ensures store.authors == old(store.authors) && store.genres == old(store.genres)
    ensures r.Fail? <==> !Documents.ExistsBy(old(store.books), BookId, Some(id))
    ensures r.Fail? ==> r.error == DataOperation(DELETE_NOT_FOUND) && store.books == old(store.books) && store.comments == old(store.comments)
    ensures r.Pass? ==> store.books == Documents.RemoveBy(old(store.books), BookId, Some(id))
    ensures r.Pass? ==> store.comments == Documents.RemoveBy(old(store.comments), CommentBookId, id)
  {
    r := Repositories.DeleteBookById(store, id);
    if r.Fail? {
      r := Fail(DataOperation(DELETE_NOT_FOUND));
    }
  }
}
