/**
 * CommentServiceImpl: lookups by id and by book, add (only under a stored
 * book), content update and delete through the comment repository.
 */
module CommentService {
  import opened Results
  import opened Exceptions
  import opened Entities
  import Documents
  import Database
  import Repositories

  const NOT_FOUND_BY_ID := "Comment by provided ID not found"
  const ADD_BOOK_NOT_FOUND := "Can not add new Comment. Book by provided id is not found!"
  const UPDATE_NOT_FOUND := "Can not update comment. Comment by provided ID not found"
  const DELETE_NOT_FOUND := "There is no comment with provided id"

  /** getCommentById: the stored comment with that id, which a valid store holds at most once. */
  function GetCommentById(store: Database.Store, id: Id): (r: Result<Comment, LibraryException>)
    reads store
    ensures r.Success? <==> Documents.ExistsBy(store.comments, CommentId, Some(id))
    ensures r.Success? ==> r.value in store.comments && r.value.id == Some(id)
    ensures r.Success? && store.Valid() ==>
      forall i :: 0 <= i < |store.comments| && store.comments[i].id == Some(id) ==> store.comments[i] == r.value
    ensures r.Failure? ==> r.error == DataOperation(NOT_FOUND_BY_ID)
  {
    match Documents.FindFirstBy(store.comments, CommentId, Some(id))
    case Some(c) =>
      assert store.Valid() ==> forall i :: 0 <= i < |store.comments| && store.comments[i].id == Some(id) ==> store.comments[i] == c by {
        if store.Valid() {
          forall i | 0 <= i < |store.comments| && store.comments[i].id == Some(id) ensures store.comments[i] == c {
            Documents.FindFirstByUnique(store.comments, CommentId, store.comments[i]);
          }
        }
      }
      Success(c)
    case None => Failure(DataOperation(NOT_FOUND_BY_ID))
  }

  /** getCommentsByBookId: exactly the stored comments on that book, possibly none. */
  function GetCommentsByBookId(store: Database.Store, bookId: Id): (r: seq<Comment>)
    reads store
    ensures forall i :: 0 <= i < |r| ==> r[i] in store.comments && r[i].bookId == bookId
    ensures forall i :: 0 <= i < |store.comments| && store.comments[i].bookId == bookId ==> store.comments[i] in r
  {
    Documents.FilterBy(store.comments, CommentBookId, bookId)
  }

  /**
   * addNewComment: fails and saves nothing when no book has that id;
   * otherwise exactly one new comment, with that content and book, is
   * appended under the fresh id.
   */
  method AddNewComment(store: Database.Store, content: string, bookId: Id, newId: Id) returns (r: Result<Comment, LibraryException>)
    requires store.Consistent()
    requires !Documents.ExistsBy(store.comments, CommentId, Some(newId))
    modifies store
    ensures store.Consistent()
    ensures store.authors == old(store.authors) && store.genres == old(store.genres) && store.books == old(store.books)
    ensures r.Failure? <==> !Documents.ExistsBy(old(store.books), BookId, Some(bookId))
    ensures r.Failure? ==> r.error == DataOperation(ADD_BOOK_NOT_FOUND) && store.comments == old(store.comments)
    ensures r.Success? ==> r.value == Comment(Some(newId), content, bookId) && store.comments == old(store.comments) + [r.value]
  {
    if !Documents.ExistsBy(store.books, BookId, Some(bookId)) {
      return Failure(DataOperation(ADD_BOOK_NOT_FOUND));
    }
    var saved := Repositories.SaveComment(store, Comment(None, content, bookId), newId);
    r := Success(saved);
  }

  /**
   * updateCommentContent: an unknown id fails; otherwise only the content of
   * that comment changes, and its id and book stay.
   */
  method UpdateCommentContent(store: Database.Store, id: Id, newContent: string) returns (r: Result<Comment, LibraryException>)
    requires store.Consistent()
    modifies store
    ensures store.Consistent()
    ensures store.authors == old(store.authors) && store.genres == old(store.genres) && store.books == old(store.books)
    ensures r.Failure? <==> !Documents.ExistsBy(old(store.comments), CommentId, Some(id))
    ensures r.Failure? ==> r.error == DataOperation(UPDATE_NOT_FOUND) && store.comments == old(store.comments)
    ensures r.Success? ==>
      var stored := Documents.FindFirstBy(old(store.comments), CommentId, Some(id)).value;
      r.value == stored.(content := newContent) && store.comments == Documents.Upsert(old(store.comments), r.value, CommentId)
  {
    var found := Documents.FindFirstBy(store.comments, CommentId, Some(id));
    if found.None? {
      return Failure(DataOperation(UPDATE_NOT_FOUND));
    }
    var stored := found.value;
    var i :| 0 <= i < |store.comments| && store.comments[i] == stored;
    assert Documents.ExistsBy(store.books, BookId, Some(store.comments[i].bookId));
    var saved := Repositories.SaveComment(store, stored.(content := newContent), id);
    r := Success(saved);
  }

  /** deleteComment: the store's not-found error becomes the service's error; otherwise exactly that comment goes. */
  method DeleteComment(store: Database.Store, id: Id) returns (r: Outcome<LibraryException>)
    requires store.Consistent()
    modifies store
    ensures store.Consistent()
    ensures store.authors == old(store.authors) && store.genres == old(store.genres) && store.books == old(store.books)
    ensures r.Fail? <==> !Documents.ExistsBy(old(store.comments), CommentId, Some(id))
    ensures r.Fail? ==> r.error == DataOperation(DELETE_NOT_FOUND) && store.comments == old(store.comments)
    ensures r.Pass? ==> store.comments == Documents.RemoveBy(old(store.comments), CommentId, Some(id))
  {
    r := Repositories.DeleteCommentById(store, id);
    if r.Fail? {
      r := Fail(DataOperation(DELETE_NOT_FOUND));
    }
  }
}
