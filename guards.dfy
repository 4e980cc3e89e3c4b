/**
 * events/MongoAuthorOperationsEventListener: the fetch-based author hooks.
 * Before a delete it loads the books with that author id and vetoes when the
 * list is not empty; before a save it looks the (name, surname) pair up and
 * vetoes when an author is found. Neither hook writes anything.
 */
module AuthorFetchGuard {
  import opened Results
  import opened Exceptions
  import opened Entities
  import Documents

  const DELETE_VETO: string := "Can not delete author because exists book with this author"
  const SAVE_VETO: string := "Same author already exists"

  /** onBeforeDelete: vetoed exactly when some stored book has this author id. */
  function OnBeforeDelete(books: seq<Book>, authorId: Id): (r: Outcome<LibraryException>)
    ensures r.Fail? <==> exists b :: b in books && b.authorId == authorId
    ensures r.Fail? ==> r.error == IllegalDeleteOperation(DELETE_VETO)
  {
    var allByAuthorId := Documents.FilterBy(books, BookAuthorId, authorId);
    assert |allByAuthorId| > 0 ==> BookAuthorId(allByAuthorId[0]) == authorId;
    if |allByAuthorId| > 0 then Fail(IllegalDeleteOperation(DELETE_VETO)) else Pass
  }

  /**
   * onBeforeSave: vetoed exactly when some stored author has the candidate's
   * name and surname, whatever the ids of either. The lookup is a
   * single-result query, so when two stored authors share the pair it throws
   * IncorrectResultSizeDataAccess instead of the veto.
   */
  function OnBeforeSave(authors: seq<Author>, author: Author): (r: Outcome<LibraryException>)
    ensures r.Fail? <==> exists a :: a in authors && a.name == author.name && a.surname == author.surname
    ensures r.Fail? ==> r.error == if Documents.ManyBy(authors, AuthorFullName, AuthorFullName(author))
      then IncorrectResultSizeDataAccess else IllegalSaveOperation(SAVE_VETO)
  {
    match Documents.FindOneBy(authors, AuthorFullName, AuthorFullName(author))
    case Failure(e) =>
      assert authors[0] in authors;
      Fail(e)
    case Success(dataFromDb) =>
      assert (exists a :: a in authors && a.name == author.name && a.surname == author.surname)
        ==> Documents.ExistsBy(authors, AuthorFullName, AuthorFullName(author)) by {
        if exists a :: a in authors && a.name == author.name && a.surname == author.surname {
          var a :| a in authors && a.name == author.name && a.surname == author.surname;
          var i :| 0 <= i < |authors| && authors[i] == a;
          assert AuthorFullName(authors[i]) == AuthorFullName(author);
        }
      }
      if dataFromDb.Some? then Fail(IllegalSaveOperation(SAVE_VETO)) else Pass
  }
}

/**
 * events/MongoGenreOperationsEventListener: the fetch-based genre hooks, keyed
 * on the genre id of books (delete) and on the genre name (save).
 */
module GenreFetchGuard {
  import opened Results
  import opened Exceptions
  import opened Entities
  import Documents

  const DELETE_VETO: string := "Can not delete genre because exists book with this genre"
  const SAVE_VETO: string := "Same genre already exists"

  /** onBeforeDelete: vetoed exactly when some stored book has this genre id. */
  function OnBeforeDelete(books: seq<Book>, genreId: Id): (r: Outcome<LibraryException>)
    ensures r.Fail? <==> exists b :: b in books && b.genreId == genreId
    ensures r.Fail? ==> r.error == IllegalDeleteOperation(DELETE_VETO)
  {
    var allByGenreId := Documents.FilterBy(books, BookGenreId, genreId);
    assert |allByGenreId| > 0 ==> BookGenreId(allByGenreId[0]) == genreId;
    if |allByGenreId| > 0 then Fail(IllegalDeleteOperation(DELETE_VETO)) else Pass
  }

  /**
   * onBeforeSave: vetoed exactly when some stored genre has the candidate's
   * name. The single-result lookup throws IncorrectResultSizeDataAccess
   * instead when two stored genres share the name.
   */
  function OnBeforeSave(genres: seq<Genre>, genre: Genre): (r: Outcome<LibraryException>)
    ensures r.Fail? <==> exists g :: g in genres && g.name == genre.name
    ensures r.Fail? ==> r.error == if Documents.ManyBy(genres, GenreName, genre.name)
      then IncorrectResultSizeDataAccess else IllegalSaveOperation(SAVE_VETO)
  {
    match Documents.FindOneBy(genres, GenreName, GenreName(genre))
    case Failure(e) =>
      assert genres[0] in genres;
      Fail(e)
    case Success(dataFromDb) =>
      assert (exists g :: g in genres && g.name == genre.name) ==> Documents.ExistsBy(genres, GenreName, genre.name) by {
        if exists g :: g in genres && g.name == genre.name {
          var g :| g in genres && g.name == genre.name;
          var i :| 0 <= i < |genres| && genres[i] == g;
          assert GenreName(genres[i]) == genre.name;
        }
      }
      if dataFromDb.Some? then Fail(IllegalSaveOperation(SAVE_VETO)) else Pass
  }
}

/**
 * listener/MongoAuthorOperationsEventListener: the same author hooks written
 * with `existsByAuthorId` and `existsByNameAndSurname`. These are the hooks the
 * repositories dispatch to.
 */
module AuthorExistsGuard {
  import opened Results
  import opened Exceptions
  import opened Entities
  import Documents
  import AuthorFetchGuard

  const DELETE_VETO: string := "Can not delete author because exists book with this author"
  const SAVE_VETO: string := "Same author already exists"

  /** onBeforeDelete: vetoed exactly when some stored book has this author id. */
  function OnBeforeDelete(books: seq<Book>, authorId: Id): (r: Outcome<LibraryException>)
    ensures r.Fail? <==> exists b :: b in books && b.authorId == authorId
    ensures r.Fail? ==> r.error == IllegalDeleteOperation(DELETE_VETO)
  {
    if Documents.ExistsBy(books, BookAuthorId, authorId) then Fail(IllegalDeleteOperation(DELETE_VETO)) else Pass
  }

  /** onBeforeSave: vetoed exactly when the (name, surname) pair is already stored. */
  function OnBeforeSave(authors: seq<Author>, author: Author): (r: Outcome<LibraryException>)
    ensures r.Fail? <==> exists a :: a in authors && a.name == author.name && a.surname == author.surname
    ensures r.Fail? ==> r.error == IllegalSaveOperation(SAVE_VETO)
  {
    if Documents.ExistsBy(authors, AuthorFullName, AuthorFullName(author)) then Fail(IllegalSaveOperation(SAVE_VETO)) else Pass
  }

  /**
   * "exists" and "non-empty list" / "Optional present" decide alike. Both
   * variants veto the same deletes and saves on every store, and give the
   * same outcome, message included, except for a save whose (name, surname)
   * two stored authors already share; a store that keeps the pair unique has
   * no such save.
   */
  lemma AgreesWithFetchGuard(authors: seq<Author>, books: seq<Book>, authorId: Id, author: Author)
    ensures OnBeforeDelete(books, authorId) == AuthorFetchGuard.OnBeforeDelete(books, authorId)
    ensures OnBeforeSave(authors, author).Fail? <==> AuthorFetchGuard.OnBeforeSave(authors, author).Fail?
    ensures OnBeforeSave(authors, author) == AuthorFetchGuard.OnBeforeSave(authors, author)
      <==> !Documents.ManyBy(authors, AuthorFullName, AuthorFullName(author))
    ensures Documents.DistinctBy(authors, AuthorFullName) ==>
      OnBeforeSave(authors, author) == AuthorFetchGuard.OnBeforeSave(authors, author)
  {
    if Documents.ManyBy(authors, AuthorFullName, AuthorFullName(author)) {
      var i, j :| 0 <= i < j < |authors| && AuthorFullName(authors[i]) == AuthorFullName(author)
        && AuthorFullName(authors[j]) == AuthorFullName(author);
      assert authors[i] in authors;
    }
  }
}

/**
 * listener/MongoGenreOperationsEventListener: the same genre hooks written with
 * `existsByGenreId` and `existsByName`.
 */
module GenreExistsGuard {
  import opened Results
  import opened Exceptions
  import opened Entities
  import Documents
  import GenreFetchGuard

  const DELETE_VETO: string := "Can not delete genre because exists book with this genre"
  const SAVE_VETO: string := "Same genre already exists"

  /** onBeforeDelete: vetoed exactly when some stored book has this genre id. */
  function OnBeforeDelete(books: seq<Book>, genreId: Id): (r: Outcome<LibraryException>)
    ensures r.Fail? <==> exists b :: b in books && b.genreId == genreId
    ensures r.Fail? ==> r.error == IllegalDeleteOperation(DELETE_VETO)
  {
    if Documents.ExistsBy(books, BookGenreId, genreId) then Fail(IllegalDeleteOperation(DELETE_VETO)) else Pass
  }

  /** onBeforeSave: vetoed exactly when the name is already stored. */
  function OnBeforeSave(genres: seq<Genre>, genre: Genre): (r: Outcome<LibraryException>)
    ensures r.Fail? <==> exists g :: g in genres && g.name == genre.name
    ensures r.Fail? ==> r.error == IllegalSaveOperation(SAVE_VETO)
  {
    if Documents.ExistsBy(genres, GenreName, GenreName(genre)) then Fail(IllegalSaveOperation(SAVE_VETO)) else Pass
  }

  /**
   * Both genre variants veto the same deletes and saves on every store, and
   * give the same outcome except for a save whose name two stored genres
   * already share; a store that keeps names unique has no such save.
   */
  lemma AgreesWithFetchGuard(genres: seq<Genre>, books: seq<Book>, genreId: Id, genre: Genre)
    ensures OnBeforeDelete(books, genreId) == GenreFetchGuard.OnBeforeDelete(books, genreId)
    ensures OnBeforeSave(genres, genre).Fail? <==> GenreFetchGuard.OnBeforeSave(genres, genre).Fail?
    ensures OnBeforeSave(genres, genre) == GenreFetchGuard.OnBeforeSave(genres, genre)
      <==> !Documents.ManyBy(genres, GenreName, genre.name)
    ensures Documents.DistinctBy(genres, GenreName) ==>
      OnBeforeSave(genres, genre) == GenreFetchGuard.OnBeforeSave(genres, genre)
  {
    if Documents.ManyBy(genres, GenreName, genre.name) {
      var i, j :| 0 <= i < j < |genres| && GenreName(genres[i]) == genre.name && GenreName(genres[j]) == genre.name;
      assert genres[i] in genres;
    }
  }
}
