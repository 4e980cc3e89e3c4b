/**
 * The document store: four collections (author, genre, book, comment) held in
 * the store's natural order. All writes go through the repositories, which
 * run the lifecycle hooks around them.
 */
module Database {
  import opened Results
  import opened Entities
  import Documents

  class Store {
    var authors: seq<Author>
    var genres: seq<Genre>
    var books: seq<Book>
    var comments: seq<Comment>

    /**
     * Every stored document has an identifier and identifiers are unique per
     * collection; authors are unique by (name, surname) and genres by name,
     * which the before-save hooks keep so.
     */
    ghost predicate Valid()
      reads this
    {
      && Documents.AllKeyed(authors, AuthorId) && Documents.DistinctBy(authors, AuthorId)
      && Documents.AllKeyed(genres, GenreId) && Documents.DistinctBy(genres, GenreId)
      && Documents.AllKeyed(books, BookId) && Documents.DistinctBy(books, BookId)
      && Documents.AllKeyed(comments, CommentId) && Documents.DistinctBy(comments, CommentId)
      && Documents.DistinctBy(authors, AuthorFullName)
      && Documents.DistinctBy(genres, GenreName)
    }

    /** Every comment refers to a stored book. */
    ghost predicate CommentsHaveBooks()
      reads this
    {
      forall i :: 0 <= i < |comments| ==> Documents.ExistsBy(books, BookId, Some(comments[i].bookId))
    }

    /** What the services keep: a valid store whose comments all have their book. */
    ghost predicate Consistent()
      reads this
    {
      Valid() && CommentsHaveBooks()
    }

    /** An empty database. */
    constructor ()
      ensures Consistent()
      ensures authors == [] && genres == [] && books == [] && comments == []
    {
      authors, genres, books, comments := [], [], [], [];
    }
  }
}

/**
 * listener/MongoBookOperationsEventListener: after a book is deleted, every
 * comment with that book id is deleted too. The hook cannot veto: it runs once
 * the book is gone.
 */
module BookCascade {
  import opened Entities
  import Documents
  import Database

  /** onAfterDelete: `deleteAllByBookId` on the comment collection, nothing else. */
  method OnAfterDelete(store: Database.Store, bookId: Id)
    modifies store
    ensures store.comments == Documents.RemoveBy(old(store.comments), CommentBookId, bookId)
    ensures store.authors == old(store.authors) && store.genres == old(store.genres) && store.books == old(store.books)
  {
    store.comments := Documents.RemoveBy(store.comments, CommentBookId, bookId);
  }

  /**
   * The cascade removes exactly the comments of the deleted book: none of them
   * remains, every other comment stays, and the count drops by their number.
   */
  lemma CascadeRemovesExactly(comments: seq<Comment>, bookId: Id)
    ensures var left := Documents.RemoveBy(comments, CommentBookId, bookId);
      && !Documents.ExistsBy(left, CommentBookId, bookId)
      && multiset(left) == multiset(comments) - multiset(Documents.FilterBy(comments, CommentBookId, bookId))
      && |left| == |comments| - |Documents.FilterBy(comments, CommentBookId, bookId)|
  {
    Documents.PartitionBy(comments, CommentBookId, bookId);
  }
}
