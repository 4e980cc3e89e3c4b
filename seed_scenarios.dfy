/**
 * The library's test data (four authors, four genres, three books, three
 * comments) and the repository tests' cases on it, stated through the hooks
 * and derived queries that the repositories and services are specified by.
 */
module SeedScenarios {
  import opened Results
  import opened Exceptions
  import opened Entities
  import Documents
  import AuthorExistsGuard
  import GenreExistsGuard

  const TOLSTOY := Author(Some("12345"), "Lev", "Tolstoy")
  const BRODSKIY := Author(Some("12346"), "Joseph", "Brodskiy")
  const TOLKIEN := Author(Some("12347"), "John", "Tolkien")
  const KUPRIN := Author(Some("12348"), "Aleksandr", "Kuprin")
  const SEED_AUTHORS := [TOLSTOY, BRODSKIY, TOLKIEN, KUPRIN]

  const NOVEL := Genre(Some("2134"), "novel")
  const POETRY := Genre(Some("2135"), "poetry")
  const FANTASY := Genre(Some("2136"), "fantasy")
  const FAIRYTALE := Genre(Some("2137"), "fairytale")
  const SEED_GENRES := [NOVEL, POETRY, FANTASY, FAIRYTALE]

  const WAR_AND_PEACE := Book(Some("45632"), "War and Peace", "12345", "2134")
  const STIKHI := Book(Some("45633"), "Rozhdestvenskie stikhi", "12346", "2135")
  const HOBBIT := Book(Some("45634"), "The Hobbit", "12347", "2136")
  const SEED_BOOKS := [WAR_AND_PEACE, STIKHI, HOBBIT]

  const GREATEST := Comment(Some("9087"), "The 10 Greatest Books of All Time", "45632")
  const BILBO := Comment(Some("9088"), "Story about hobbit Bilbo Baggins", "45634")
  const CARNEGIE := Comment(Some("9089"), "Nominated for the Carnegie Medal and awarded a prize from the New York Herald Tribune for best juvenile fiction", "45634")
  const SEED_COMMENTS := [GREATEST, BILBO, CARNEGIE]

  /** A new "Lev Tolstoy", and author 12347 renamed to him, are both vetoed; 12346 may become "Aleksander Pushkin". */
  lemma AuthorSaveScenarios()
    ensures AuthorExistsGuard.OnBeforeSave(SEED_AUTHORS, NewAuthor("Lev", "Tolstoy")) == Fail(IllegalSaveOperation(AuthorExistsGuard.SAVE_VETO))
    ensures AuthorExistsGuard.OnBeforeSave(SEED_AUTHORS, Author(Some("12347"), "Lev", "Tolstoy")) == Fail(IllegalSaveOperation(AuthorExistsGuard.SAVE_VETO))
    ensures AuthorExistsGuard.OnBeforeSave(SEED_AUTHORS, Author(Some("12346"), "Aleksander", "Pushkin")) == Pass
  {
    assert SEED_AUTHORS[0] == TOLSTOY;
  }

  /** Tolstoy wrote a stored book, so deleting him is vetoed; Kuprin did not, and deleting him leaves three authors. */
  lemma AuthorDeleteScenarios()
    ensures AuthorExistsGuard.OnBeforeDelete(SEED_BOOKS, "12345") == Fail(IllegalDeleteOperation(AuthorExistsGuard.DELETE_VETO))
    ensures AuthorExistsGuard.OnBeforeDelete(SEED_BOOKS, "12348") == Pass
    ensures Documents.RemoveBy(SEED_AUTHORS, AuthorId, Some("12348")) == [TOLSTOY, BRODSKIY, TOLKIEN]
  {
    assert SEED_BOOKS[0] == WAR_AND_PEACE;
    assert SEED_AUTHORS[1..] == [BRODSKIY, TOLKIEN, KUPRIN];
    assert [BRODSKIY, TOLKIEN, KUPRIN][1..] == [TOLKIEN, KUPRIN];
    assert [TOLKIEN, KUPRIN][1..] == [KUPRIN];
    assert Documents.RemoveBy([KUPRIN], AuthorId, Some("12348")) == [];
    assert Documents.RemoveBy([TOLKIEN, KUPRIN], AuthorId, Some("12348")) == [TOLKIEN];
    assert Documents.RemoveBy([BRODSKIY, TOLKIEN, KUPRIN], AuthorId, Some("12348")) == [BRODSKIY, TOLKIEN];
  }

  /** A new "novel", and genre 2135 renamed to "novel", are vetoed; 2136 may become "science fiction". */
  lemma GenreSaveScenarios()
    ensures GenreExistsGuard.OnBeforeSave(SEED_GENRES, NewGenre("novel")) == Fail(IllegalSaveOperation(GenreExistsGuard.SAVE_VETO))
    ensures GenreExistsGuard.OnBeforeSave(SEED_GENRES, Genre(Some("2135"), "novel")) == Fail(IllegalSaveOperation(GenreExistsGuard.SAVE_VETO))
    ensures GenreExistsGuard.OnBeforeSave(SEED_GENRES, Genre(Some("2136"), "science fiction")) == Pass
  {
    assert SEED_GENRES[0] == NOVEL;
  }

  /** Genre 2134 has a book, so deleting it is vetoed; 2137 has none, and deleting it leaves three genres. */
  lemma GenreDeleteScenarios()
    ensures GenreExistsGuard.OnBeforeDelete(SEED_BOOKS, "2134") == Fail(IllegalDeleteOperation(GenreExistsGuard.DELETE_VETO))
    ensures GenreExistsGuard.OnBeforeDelete(SEED_BOOKS, "2137") == Pass
    ensures Documents.RemoveBy(SEED_GENRES, GenreId, Some("2137")) == [NOVEL, POETRY, FANTASY]
  {
    assert SEED_BOOKS[0] == WAR_AND_PEACE;
    assert SEED_GENRES[1..] == [POETRY, FANTASY, FAIRYTALE];
    assert [POETRY, FANTASY, FAIRYTALE][1..] == [FANTASY, FAIRYTALE];
    assert [FANTASY, FAIRYTALE][1..] == [FAIRYTALE];
    assert Documents.RemoveBy([FAIRYTALE], GenreId, Some("2137")) == [];
    assert Documents.RemoveBy([FANTASY, FAIRYTALE], GenreId, Some("2137")) == [FANTASY];
    assert Documents.RemoveBy([POETRY, FANTASY, FAIRYTALE], GenreId, Some("2137")) == [POETRY, FANTASY];
  }

  /**
   * The Hobbit has comments 9088 and 9089; deleting it leaves two books and,
   * after the cascade, only comment 9087. Deleting book 45633 leaves two books.
   */
  lemma BookDeleteScenarios()
    ensures Documents.FilterBy(SEED_COMMENTS, CommentBookId, "45634") == [BILBO, CARNEGIE]
    ensures Documents.RemoveBy(SEED_COMMENTS, CommentBookId, "45634") == [GREATEST]
    ensures Documents.RemoveBy(SEED_BOOKS, BookId, Some("45634")) == [WAR_AND_PEACE, STIKHI]
    ensures Documents.RemoveBy(SEED_BOOKS, BookId, Some("45633")) == [WAR_AND_PEACE, HOBBIT]
  {
    assert SEED_COMMENTS[1..] == [BILBO, CARNEGIE];
    assert [BILBO, CARNEGIE][1..] == [CARNEGIE];
    assert Documents.FilterBy([CARNEGIE], CommentBookId, "45634") == [CARNEGIE];
    assert Documents.FilterBy([BILBO, CARNEGIE], CommentBookId, "45634") == [BILBO, CARNEGIE];
    assert Documents.RemoveBy([CARNEGIE], CommentBookId, "45634") == [];
    assert Documents.RemoveBy([BILBO, CARNEGIE], CommentBookId, "45634") == [];
    assert SEED_BOOKS[1..] == [STIKHI, HOBBIT];
    assert [STIKHI, HOBBIT][1..] == [HOBBIT];
    assert Documents.RemoveBy([HOBBIT], BookId, Some("45634")) == [];
    assert Documents.RemoveBy([STIKHI, HOBBIT], BookId, Some("45634")) == [STIKHI];
    assert Documents.RemoveBy([HOBBIT], BookId, Some("45633")) == [HOBBIT];
    assert Documents.RemoveBy([STIKHI, HOBBIT], BookId, Some("45633")) == [HOBBIT];
  }

  /** Looking a title up gives exactly the books with it: one for "War and Peace", none for "Unknown". */
  lemma TitleScenarios()
    ensures Documents.FilterBy(SEED_BOOKS, BookTitle, "War and Peace") == [WAR_AND_PEACE]
    ensures Documents.FilterBy(SEED_BOOKS, BookTitle, "Unknown") == []
  {
    assert SEED_BOOKS[1..] == [STIKHI, HOBBIT];
    assert [STIKHI, HOBBIT][1..] == [HOBBIT];
    assert Documents.FilterBy([HOBBIT], BookTitle, "War and Peace") == [];
    assert Documents.FilterBy([STIKHI, HOBBIT], BookTitle, "War and Peace") == [];
    assert Documents.FilterBy([HOBBIT], BookTitle, "Unknown") == [];
    assert Documents.FilterBy([STIKHI, HOBBIT], BookTitle, "Unknown") == [];
  }
}
