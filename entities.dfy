/**
 * The four document types. Author and Genre follow the entity classes; a Book
 * refers to its author and genre, and a Comment to its book, by identifier.
 * An identifier is absent (Java null) until the store assigns one.
 */
module Entities {
  import opened Results
  import JavaLang

  type Id = string

  datatype Author = Author(id: Option<Id>, name: string, surname: string)
  datatype Genre = Genre(id: Option<Id>, name: string)
  datatype Book = Book(id: Option<Id>, title: string, authorId: Id, genreId: Id)
  datatype Comment = Comment(id: Option<Id>, content: string, bookId: Id)

  // The fields the repositories query by.
  function AuthorId(a: Author): Option<Id> { a.id }
  function AuthorFullName(a: Author): (string, string) { (a.name, a.surname) }
  function GenreId(g: Genre): Option<Id> { g.id }
  function GenreName(g: Genre): string { g.name }
  function BookId(b: Book): Option<Id> { b.id }
  function BookTitle(b: Book): string { b.title }
  function BookAuthorId(b: Book): Id { b.authorId }
  function BookGenreId(b: Book): Id { b.genreId }
  function CommentId(c: Comment): Option<Id> { c.id }
  function CommentBookId(c: Comment): Id { c.bookId }

  /** The (name, surname) constructor: the id is left unset. */
  function NewAuthor(name: string, surname: string): Author
  {
    Author(None, name, surname)
  }

  /** The (name) constructor: the id is left unset. */
  function NewGenre(name: string): Genre
  {
    Genre(None, name)
  }

  /** Author.toString: id, name and surname separated by commas. */
  function AuthorToString(a: Author): string
  {
    JavaLang.NullableText(a.id) + "," + a.name + "," + a.surname
  }

  /** Genre.toString: id and name separated by a comma. */
  function GenreToString(g: Genre): string
  {
    JavaLang.NullableText(g.id) + "," + g.name
  }

  /** Author.equals compares id, name and surname: it is exactly value equality. */
  predicate AuthorEquals(a: Author, b: Author): (r: bool)
    ensures r <==> a == b
  {
    a.id == b.id && a.name == b.name && a.surname == b.surname
  }

  /** Genre.equals compares id and name: it is exactly value equality. */
  predicate GenreEquals(g: Genre, h: Genre): (r: bool)
    ensures r <==> g == h
  {
    g.id == h.id && g.name == h.name
  }

  /** Author.hashCode: Objects.hash(id, name, surname). */
  function AuthorHashCode(a: Author): (h: int)
    ensures JavaLang.INT_MIN <= h <= JavaLang.INT_MAX
  {
    JavaLang.ObjectsHash([JavaLang.NullableHashCode(a.id), JavaLang.StringHashCode(a.name), JavaLang.StringHashCode(a.surname)])
  }

  /** Genre.hashCode: Objects.hash(id, name). */
  function GenreHashCode(g: Genre): (h: int)
    ensures JavaLang.INT_MIN <= h <= JavaLang.INT_MAX
  {
    JavaLang.ObjectsHash([JavaLang.NullableHashCode(g.id), JavaLang.StringHashCode(g.name)])
  }

  /** equals and hashCode agree: equal authors hash alike. */
  lemma AuthorHashCodeConsistent(a: Author, b: Author)
    requires AuthorEquals(a, b)
    ensures AuthorHashCode(a) == AuthorHashCode(b)
  {
  }

  /** equals and hashCode agree: equal genres hash alike. */
  lemma GenreHashCodeConsistent(g: Genre, h: Genre)
    requires GenreEquals(g, h)
    ensures GenreHashCode(g) == GenreHashCode(h)
  {
  }

  /** Author.toString is the three fields joined with commas. */
  lemma AuthorToStringIsJoin(a: Author)
    ensures AuthorToString(a) == JavaLang.Join([JavaLang.NullableText(a.id), a.name, a.surname], ',')
  {
    var fs := [JavaLang.NullableText(a.id), a.name, a.surname];
    assert fs[1..][1..] == [a.surname];
    assert JavaLang.Join(fs[1..], ',') == a.name + "," + a.surname;
  }

  /** Genre.toString is the two fields joined with a comma. */
  lemma GenreToStringIsJoin(g: Genre)
    ensures GenreToString(g) == JavaLang.Join([JavaLang.NullableText(g.id), g.name], ',')
  {
    var fs := [JavaLang.NullableText(g.id), g.name];
    assert fs[1..] == [g.name];
    assert JavaLang.Join(fs[1..], ',') == g.name;
  }
}
