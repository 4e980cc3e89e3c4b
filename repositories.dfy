/**
 * The repositories' save and delete as the store runs them: a before-save or
 * before-delete hook first (which may veto, and then nothing is written), the
 * write, then any after-delete hook. A delete of an id that is not stored
 * fails with EmptyResultDataAccess before any hook runs. A document saved
 * without an id gets `newId`, which stands for the identifier the database
 * generates.
 */
module Repositories {
  import opened Results
  import opened Exceptions
  import opened Entities
  import Documents
  import Database
  import AuthorExistsGuard
  import GenreExistsGuard
  import BookCascade

  /** The document as stored: its own id, or the generated one when it has none. */
  function StoredAuthor(a: Author, newId: Id): Author { if a.id.Some? then a else a.(id := Some(newId)) }
  function StoredGenre(g: Genre, newId: Id): Genre { if g.id.Some? then g else g.(id := Some(newId)) }
  function StoredBook(b: Book, newId: Id): Book { if b.id.Some? then b else b.(id := Some(newId)) }
  function StoredComment(c: Comment, newId: Id): Comment { if c.id.Some? then c else c.(id := Some(newId)) }

  /**
   * An author built by the (name, surname) constructor has no id, so a save
   * under a fresh generated id appends exactly one author carrying that id.
   */
  lemma InsertNewAuthor(authors: seq<Author>, name: string, surname: string, newId: Id)
    requires !Documents.ExistsBy(authors, AuthorId, Some(newId))
    ensures Documents.Upsert(authors, StoredAuthor(NewAuthor(name, surname), newId), AuthorId)
      == authors + [Author(Some(newId), name, surname)]
  {
  }

  /** A genre built by the (name) constructor is appended under the fresh generated id. */
  lemma InsertNewGenre(genres: seq<Genre>, name: string, newId: Id)
    requires !Documents.ExistsBy(genres, GenreId, Some(newId))
    ensures Documents.Upsert(genres, StoredGenre(NewGenre(name), newId), GenreId) == genres + [Genre(Some(newId), name)]
  {
  }

  /**
   * AuthorRepository.save: vetoed exactly when the (name, surname) pair is
   * already stored, ids ignored, and then nothing changes; otherwise the
   * author, identified, is inserted or replaces the author with its id.
   */
  method SaveAuthor(store: Database.Store, author: Author, newId: Id) returns (r: Result<Author, LibraryException>)
    requires store.Valid()
    requires author.id.None? ==> !Documents.ExistsBy(store.authors, AuthorId, Some(newId))
    modifies store
    ensures store.Valid()
    ensures store.genres == old(store.genres) && store.books == old(store.books) && store.comments == old(store.comments)
    ensures r.Failure? <==> Documents.ExistsBy(old(store.authors), AuthorFullName, AuthorFullName(author))
    ensures r.Failure? ==> r.error == IllegalSaveOperation(AuthorExistsGuard.SAVE_VETO) && store.authors == old(store.authors)
    ensures r.Success? ==> r.value == StoredAuthor(author, newId) && store.authors == Documents.Upsert(old(store.authors), r.value, AuthorId)
  {
    var veto := AuthorExistsGuard.OnBeforeSave(store.authors, author);
    assert veto.Fail? <==> Documents.ExistsBy(store.authors, AuthorFullName, AuthorFullName(author)) by {
      if veto.Fail? {
        var a :| a in store.authors && a.name == author.name && a.surname == author.surname;
        var i :| 0 <= i < |store.authors| && store.authors[i] == a;
        assert AuthorFullName(store.authors[i]) == AuthorFullName(author);
      }
    }
    if veto.Fail? {
      return Failure(veto.error);
    }
    var saved := StoredAuthor(author, newId);
    Documents.UpsertKeepsKeyed(store.authors, saved, AuthorId);
    Documents.UpsertKeepsDistinct(store.authors, saved, AuthorId);
    Documents.UpsertKeepsOtherDistinct(store.authors, saved, AuthorId, AuthorFullName);
    store.authors := Documents.Upsert(store.authors, saved, AuthorId);
    r := Success(saved);
  }

  /**
   * AuthorRepository.deleteById: fails when no author has the id; vetoed while
   * a book refers to the author; otherwise removes exactly that author. A
   * failure changes nothing.
   */
  method DeleteAuthorById(store: Database.Store, id: Id) returns (r: Outcome<LibraryException>)
    requires store.Valid()
    modifies store
    ensures store.Valid()
    ensures store.genres == old(store.genres) && store.books == old(store.books) && store.comments == old(store.comments)
    ensures !Documents.ExistsBy(old(store.authors), AuthorId, Some(id)) ==> r == Fail(EmptyResultDataAccess)
    ensures Documents.ExistsBy(old(store.authors), AuthorId, Some(id)) && Documents.ExistsBy(old(store.books), BookAuthorId, id) ==>
      r == Fail(IllegalDeleteOperation(AuthorExistsGuard.DELETE_VETO))
    ensures r.Pass? <==> Documents.ExistsBy(old(store.authors), AuthorId, Some(id)) && !Documents.ExistsBy(old(store.books), BookAuthorId, id)
    ensures r.Fail? ==> store.authors == old(store.authors)
    ensures r.Pass? ==> store.authors == Documents.RemoveBy(old(store.authors), AuthorId, Some(id))
  {
    if !Documents.ExistsBy(store.authors, AuthorId, Some(id)) {
      return Fail(EmptyResultDataAccess);
    }
    var veto := AuthorExistsGuard.OnBeforeDelete(store.books, id);
    assert veto.Fail? <==> Documents.ExistsBy(store.books, BookAuthorId, id) by {
      if Documents.ExistsBy(store.books, BookAuthorId, id) {
        var i :| 0 <= i < |store.books| && BookAuthorId(store.books[i]) == id;
        assert store.books[i] in store.books;
      }
    }
    if veto.Fail? {
      return veto;
    }
    Documents.RemoveByKeepsKeyed(store.authors, AuthorId, AuthorId, Some(id));
    Documents.RemoveByKeepsDistinct(store.authors, AuthorId, Some(id), AuthorId);
    Documents.RemoveByKeepsDistinct(store.authors, AuthorId, Some(id), AuthorFullName);
    store.authors := Documents.RemoveBy(store.authors, AuthorId, Some(id));
    r := Pass;
  }

  /**
   * GenreRepository.save: vetoed exactly when the name is already stored, and
   * then nothing changes; otherwise the genre, identified, is inserted or
   * replaces the genre with its id.
   */
  method SaveGenre(store: Database.Store, genre: Genre, newId: Id) returns (r: Result<Genre, LibraryException>)
    requires store.Valid()
    requires genre.id.None? ==> !Documents.ExistsBy(store.genres, GenreId, Some(newId))
    modifies store
    ensures store.Valid()
    ensures store.authors == old(store.authors) && store.books == old(store.books) && store.comments == old(store.comments)
    ensures r.Failure? <==> Documents.ExistsBy(old(store.genres), GenreName, genre.name)
    ensures r.Failure? ==> r.error == IllegalSaveOperation(GenreExistsGuard.SAVE_VETO) && store.genres == old(store.genres)
    ensures r.Success? ==> r.value == StoredGenre(genre, newId) && store.genres == Documents.Upsert(old(store.genres), r.value, GenreId)
  {
    var veto := GenreExistsGuard.OnBeforeSave(store.genres, genre);
    assert veto.Fail? <==> Documents.ExistsBy(store.genres, GenreName, genre.name) by {
      if veto.Fail? {
        var g :| g in store.genres && g.name == genre.name;
        var i :| 0 <= i < |store.genres| && store.genres[i] == g;
        assert GenreName(store.genres[i]) == genre.name;
      }
    }
    if veto.Fail? {
      return Failure(veto.error);
    }
    var saved := StoredGenre(genre, newId);
    Documents.UpsertKeepsKeyed(store.genres, saved, GenreId);
    Documents.UpsertKeepsDistinct(store.genres, saved, GenreId);
    Documents.UpsertKeepsOtherDistinct(store.genres, saved, GenreId, GenreName);
    store.genres := Documents.Upsert(store.genres, saved, GenreId);
    r := Success(saved);
  }

  /**
   * GenreRepository.deleteById: fails when no genre has the id; vetoed while a
   * book refers to the genre; otherwise removes exactly that genre. A failure
   * changes nothing.
   */
  method DeleteGenreById(store: Database.Store, id: Id) returns (r: Outcome<LibraryException>)
    requires store.Valid()
    modifies store
    ensures store.Valid()
    ensures store.authors == old(store.authors) && store.books == old(store.books) && store.comments == old(store.comments)
    ensures !Documents.ExistsBy(old(store.genres), GenreId, Some(id)) ==> r == Fail(EmptyResultDataAccess)
    ensures Documents.ExistsBy(old(store.genres), GenreId, Some(id)) && Documents.ExistsBy(old(store.books), BookGenreId, id) ==>
      r == Fail(IllegalDeleteOperation(GenreExistsGuard.DELETE_VETO))
    ensures r.Pass? <==> Documents.ExistsBy(old(store.genres), GenreId, Some(id)) && !Documents.ExistsBy(old(store.books), BookGenreId, id)
    ensures r.Fail? ==> store.genres == old(store.genres)
    ensures r.Pass? ==> store.genres == Documents.RemoveBy(old(store.genres), GenreId, Some(id))
  {
    if !Documents.ExistsBy(store.genres, GenreId, Some(id)) {
      return Fail(EmptyResultDataAccess);
    }
    var veto := GenreExistsGuard.OnBeforeDelete(store.books, id);
    assert veto.Fail? <==> Documents.ExistsBy(store.books, BookGenreId, id) by {
      if Documents.ExistsBy(store.books, BookGenreId, id) {
        var i :| 0 <= i < |store.books| && BookGenreId(store.books[i]) == id;
        assert store.books[i] in store.books;
      }
    }
    if veto.Fail? {
      return veto;
    }
    Documents.RemoveByKeepsKeyed(store.genres, GenreId, GenreId, Some(id));
    Documents.RemoveByKeepsDistinct(store.genres, GenreId, Some(id), GenreId);
    Documents.RemoveByKeepsDistinct(store.genres, GenreId, Some(id), GenreName);
    store.genres := Documents.RemoveBy(store.genres, GenreId, Some(id));
    r := Pass;
  }

  /**
   * BookRepository.save: no hook, no uniqueness; the book, identified, is
   * inserted or replaces the book with its id. Every stored book id stays
   * stored, so comments keep their book.
   */
  method SaveBook(store: Database.Store, book: Book, newId: Id) returns (saved: Book)
    requires store.Valid()
    requires book.id.None? ==> !Documents.ExistsBy(store.books, BookId, Some(newId))
    modifies store
    ensures store.Valid()
    ensures old(store.CommentsHaveBooks()) ==> store.CommentsHaveBooks()
    ensures store.authors == old(store.authors) && store.genres == old(store.genres) && store.comments == old(store.comments)
    ensures saved == StoredBook(book, newId) && store.books == Documents.Upsert(old(store.books), saved, BookId)
  {
    saved := StoredBook(book, newId);
    Documents.UpsertKeepsKeyed(store.books, saved, BookId);
    Documents.UpsertKeepsDistinct(store.books, saved, BookId);
    ghost var before := store.books;
    store.books := Documents.Upsert(store.books, saved, BookId);
    forall k | Documents.ExistsBy(before, BookId, k) ensures Documents.ExistsBy(store.books, BookId, k) {
      Documents.UpsertKeepsKeys(before, saved, BookId, k);
    }
  }

  /**
   * BookRepository.deleteById: fails when no book has the id; otherwise the
   * book is removed and the after-delete hook removes its comments.
   */
  method DeleteBookById(store: Database.Store, id: Id) returns (r: Outcome<LibraryException>)
    requires store.Valid()
    modifies store
    ensures store.Valid()
    ensures old(store.CommentsHaveBooks()) ==> store.CommentsHaveBooks()
    ensures store.authors == old(store.authors) && store.genres == old(store.genres)
    ensures r.Fail? <==> !Documents.ExistsBy(old(store.books), BookId, Some(id))
    ensures r.Fail? ==> r.error == EmptyResultDataAccess && store.books == old(store.books) && store.comments == old(store.comments)
    ensures r.Pass? ==> store.books == Documents.RemoveBy(old(store.books), BookId, Some(id))
    ensures r.Pass? ==> store.comments == Documents.RemoveBy(old(store.comments), CommentBookId, id)
  {
    if !Documents.ExistsBy(store.books, BookId, Some(id)) {
      return Fail(EmptyResultDataAccess);
    }
    ghost var hadBooks := store.CommentsHaveBooks();
    ghost var oldBooks := store.books;
    Documents.RemoveByKeepsKeyed(store.books, BookId, BookId, Some(id));
    Documents.RemoveByKeepsDistinct(store.books, BookId, Some(id), BookId);
    store.books := Documents.RemoveBy(store.books, BookId, Some(id));
    Documents.RemoveByKeepsKeyed(store.comments, CommentId, CommentBookId, id);
    Documents.RemoveByKeepsDistinct(store.comments, CommentBookId, id, CommentId);
    BookCascade.OnAfterDelete(store, id);
    if hadBooks {
      forall i | 0 <= i < |store.comments| ensures Documents.ExistsBy(store.books, BookId, Some(store.comments[i].bookId)) {
        var c := store.comments[i];
        assert c.bookId != id;
        var j :| 0 <= j < |old(store.comments)| && old(store.comments)[j] == c;
        Documents.RemoveByKeepsOtherKeys(oldBooks, BookId, Some(id), Some(c.bookId));
      }
    }
    r := Pass;
  }

  /**
   * CommentRepository.save: no hook; the comment, identified, is inserted or
   * replaces the comment with its id.
   */
  method SaveComment(store: Database.Store, comment: Comment, newId: Id) returns (saved: Comment)
    requires store.Valid()
    requires comment.id.None? ==> !Documents.ExistsBy(store.comments, CommentId, Some(newId))
    modifies store
    ensures store.Valid()
    ensures old(store.CommentsHaveBooks()) && Documents.ExistsBy(store.books, BookId, Some(comment.bookId)) ==> store.CommentsHaveBooks()
    ensures store.authors == old(store.authors) && store.genres == old(store.genres) && store.books == old(store.books)
    ensures saved == StoredComment(comment, newId) && store.comments == Documents.Upsert(old(store.comments), saved, CommentId)
  {
    saved := StoredComment(comment, newId);
    Documents.UpsertKeepsKeyed(store.comments, saved, CommentId);
    Documents.UpsertKeepsDistinct(store.comments, saved, CommentId);
    Documents.UpsertContents(store.comments, saved, CommentId);
    store.comments := Documents.Upsert(store.comments, saved, CommentId);
  }

  /** CommentRepository.deleteById: fails when no comment has the id; otherwise removes exactly it. */
  method DeleteCommentById(store: Database.Store, id: Id) returns (r: Outcome<LibraryException>)
    requires store.Valid()
    modifies store
    ensures store.Valid()
    ensures old(store.CommentsHaveBooks()) ==> store.CommentsHaveBooks()
    ensures store.authors == old(store.authors) && store.genres == old(store.genres) && store.books == old(store.books)
    ensures r.Fail? <==> !Documents.ExistsBy(old(store.comments), CommentId, Some(id))
    ensures r.Fail? ==> r.error == EmptyResultDataAccess && store.comments == old(store.comments)
    ensures r.Pass? ==> store.comments == Documents.RemoveBy(old(store.comments), CommentId, Some(id))
  {
    if !Documents.ExistsBy(store.comments, CommentId, Some(id)) {
      return Fail(EmptyResultDataAccess);
    }
    Documents.RemoveByKeepsKeyed(store.comments, CommentId, CommentId, Some(id));
    Documents.RemoveByKeepsDistinct(store.comments, CommentId, Some(id), CommentId);
    store.comments := Documents.RemoveBy(store.comments, CommentId, Some(id));
    r := Pass;
  }
}
