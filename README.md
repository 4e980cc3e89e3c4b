# Library integrity layer, modelled in Dafny

The library application keeps four MongoDB collections: authors, genres, books
and comments. This project models the layer that keeps them consistent:

- the lifecycle hooks the store runs around its writes:
  - before an author or genre is saved, a uniqueness veto on (name, surname)
    or name;
  - before one is deleted, a veto while a book refers to it;
  - after a book is deleted, a cascade over its comments;
- the repositories' save and delete, which run those hooks;
- the four services on top, which look records up, update them and turn vetoes
  and missing records into `DataOperationException`s with their own messages;
- the comma-separated text form that `Author.toString`/`Genre.toString` write
  and the two REST converters read back;
- `equals` and `hashCode` of the two entities.

Module layout, one concept per module:

- `Results`, `Exceptions` (results.dfy): `Option`, `Result` and `Outcome`, and
  the exception kinds the layer throws, among them Spring's
  `IncorrectResultSizeDataAccessException`.
- `Documents` (documents.dfy): the Spring Data derived queries as functions on
  a collection. `findById` is `FindFirstBy`. A single-result `findByX` on any
  other key is `FindOneBy`, which throws `IncorrectResultSizeDataAccessException`
  when two or more documents match. `findAllByX` is `FilterBy`;
  `existsByX` is `ExistsBy`; `deleteAllByX` is `RemoveBy`; `save` keyed by id
  is `Upsert`. Their lemmas cover partition, uniqueness and key preservation.
- `JavaLang` (java_lang.dfy): 32-bit `int` wrap-around, `String.hashCode`,
  `Objects.hash`, and `String.split` with Java's rule of dropping trailing
  empty fields.
- `Entities` (entities.dfy): `Author`, `Genre`, `Book` and `Comment` as values;
  the constructors, `toString`, `equals` and `hashCode`.
- `StringToAuthorDtoConverter`, `StringToGenreDtoConverter` (converters.dfy):
  `convert`, and its round trip with `toString`.
- `AuthorFetchGuard`, `GenreFetchGuard` (guards.dfy): the `events/` hooks,
  which fetch a list or an `Optional` and test it.
- `AuthorExistsGuard`, `GenreExistsGuard` (guards.dfy): the `listener/` hooks,
  which use `existsBy` queries. They are proved to veto exactly what the
  `events/` hooks veto. The outcomes are also equal, except when two stored
  documents already share the key: then the `events/` lookup throws
  `IncorrectResultSizeDataAccessException`. A valid store never holds such a
  pair.
- `Database` (database.dfy): the store, a class whose four `seq` fields the
  operations reassign. `Valid()` requires stored ids present and unique, authors
  unique by (name, surname), and genres unique by name. `Consistent()` adds that
  every comment's book is stored.
- `BookCascade` (database.dfy): the after-delete hook of books.
- `Repositories` (repositories.dfy): save and delete per collection, with the
  hooks wired in.
- `AuthorService`, `GenreService`, `BookService`, `CommentService`: the service
  implementations. Every state-changing service method requires and ensures
  `Consistent()`, so a comment never outlives its book.
- `SeedScenarios` (seed_scenarios.dfy): the test data and the repository
  tests' cases on it.

A delete by an id that is not stored fails with `EmptyResultDataAccess`
before any hook runs. The services assume this when they catch
`EmptyResultDataAccessException` (`BookServiceImpl.java:98-104`,
`CommentServiceImpl.java:53-59`). `deleteAuthor`/`deleteGenre` do not catch
it, so there it reaches the caller.

The identifier the database generates for a document saved without one is the
parameter `newId`. The only thing required of it is that it is not yet used in
that collection.

## Model

| member | source | states |
|---|---|---|
| Documents.FindFirstBy | src/main/java/ru/otus/istyazhkina/library/repository/AuthorRepository.java:8 | `findById`, inherited from `MongoRepository`: present iff some stored document has the id, and then it is a stored document with that id |
| Documents.FindOneBy | src/main/java/ru/otus/istyazhkina/library/repository/AuthorRepository.java:10 | single-result `findByX`: throws `IncorrectResultSizeDataAccessException` iff two stored documents have the key; otherwise present iff one has it, and then it is a stored document with that key; never throws under unique keys |
| Documents.FilterByMany | src/main/java/ru/otus/istyazhkina/library/repository/GenreRepository.java:10 | the matches number more than one iff two distinct positions hold the key, which is the single-result query's error condition |
| Documents.FindFirstByUnique | src/main/java/ru/otus/istyazhkina/library/repository/GenreRepository.java:8 | under unique ids, `findById` of a stored document's id returns that document |
| Documents.FilterBy | src/main/java/ru/otus/istyazhkina/library/repository/BookRepository.java:10-14 | `findAllByX`: every returned document is stored and has the key, and every stored document with the key is returned |
| Documents.FilterByDistinct | src/main/java/ru/otus/istyazhkina/library/repository/BookRepository.java:10-14 | under unique keys a `findAllBy` on the key has one element if the key is stored, else none |
| Documents.RemoveBy | src/main/java/ru/otus/istyazhkina/library/repository/CommentRepository.java:14 | `deleteAllByX`: what is left is stored and lacks the key, and every stored document without the key is left |
| Documents.PartitionBy | src/main/java/ru/otus/istyazhkina/library/repository/CommentRepository.java:10-14 | `findAllBy` and `deleteAllBy` on one key split the collection: multisets add up to the original, and so do lengths |
| Documents.RemoveByDistinctCount | src/test/java/ru/otus/istyazhkina/library/repository/AuthorRepositoryTest.java:111-121 | under unique ids, deleting a stored id lowers the count by exactly one and the id is gone; deleting a missing id changes no count |
| Documents.RemoveByKeepsDistinct | src/main/java/ru/otus/istyazhkina/library/repository/CommentRepository.java:14 | a delete keeps any uniqueness the collection had |
| Documents.RemoveByKeepsOtherKeys | src/main/java/ru/otus/istyazhkina/library/repository/CommentRepository.java:14 | a delete by one key keeps every other stored key |
| Documents.UpsertContents | src/main/java/ru/otus/istyazhkina/library/repository/AuthorRepository.java:8 | `save`: the saved document is stored; every other stored document was stored before under another id; every document with another id stays; the count grows by one exactly when the id was new |
| Documents.UpsertThenFind | src/main/java/ru/otus/istyazhkina/library/repository/AuthorRepository.java:8 | after a save, looking up the saved document's id returns it |
| Documents.UpsertKeepsDistinct | src/main/java/ru/otus/istyazhkina/library/repository/AuthorRepository.java:8 | `save` keeps ids unique |
| Documents.UpsertKeepsOtherDistinct | src/main/java/ru/otus/istyazhkina/library/events/MongoAuthorOperationsEventListener.java:41-43 | a save that passed the uniqueness check keeps that key unique, whether it inserts or replaces |
| Documents.UpsertKeepsKeys | src/main/java/ru/otus/istyazhkina/library/repository/BookRepository.java:8 | a save never loses a stored key, so comments keep their book |
| JavaLang.Int32 | src/main/java/ru/otus/istyazhkina/library/domain/entity/Author.java:50-52 | Java `int` arithmetic: the result is in the 32-bit range, congruent to the exact value mod 2^32, and equal to it when in range |
| JavaLang.StringHashCode | src/main/java/ru/otus/istyazhkina/library/domain/entity/Author.java:50-52 | `String.hashCode` is a 32-bit int |
| JavaLang.ObjectsHash | src/main/java/ru/otus/istyazhkina/library/domain/entity/Author.java:50-52 | `Objects.hash` is a 32-bit int |
| JavaLang.Split | src/main/java/ru/otus/istyazhkina/library/rest/converter/StringToAuthorDTOConverter.java:10 | no field of `split` contains the separator |
| JavaLang.JoinOfFields | src/main/java/ru/otus/istyazhkina/library/rest/converter/StringToAuthorDTOConverter.java:10 | joining the separator-delimited fields of a string gives the string back |
| JavaLang.SplitPrefix | src/main/java/ru/otus/istyazhkina/library/rest/converter/StringToAuthorDTOConverter.java:10-11 | the first k fields of `split`, joined by the separator, are a prefix of the input that ends at the input's end or at a separator |
| JavaLang.Fields | src/main/java/ru/otus/istyazhkina/library/rest/converter/StringToAuthorDTOConverter.java:10 | splitting gives at least one field, and no field contains the separator |
| JavaLang.DropTrailingEmpty | src/main/java/ru/otus/istyazhkina/library/rest/converter/StringToAuthorDTOConverter.java:10 | `split` drops trailing empty fields: the result is a prefix ending in a non-empty field, and only empty fields were dropped |
| JavaLang.FieldsOfJoin | src/main/java/ru/otus/istyazhkina/library/rest/converter/StringToAuthorDTOConverter.java:10 | separator-free fields joined by the separator split back into the same fields |
| JavaLang.SplitOfJoin | src/main/java/ru/otus/istyazhkina/library/rest/converter/StringToAuthorDTOConverter.java:10 | `split` inverts join when no field holds the separator and the last is non-empty; an empty last field is lost |
| Entities.AuthorEquals | src/main/java/ru/otus/istyazhkina/library/domain/entity/Author.java:40-47 | `equals` holds iff id, name and surname are all equal, which is value equality (reflexive, symmetric) |
| Entities.GenreEquals | src/main/java/ru/otus/istyazhkina/library/domain/entity/Genre.java:37-43 | `equals` holds iff id and name are equal |
| Entities.AuthorHashCode | src/main/java/ru/otus/istyazhkina/library/domain/entity/Author.java:50-52 | `Objects.hash(id, name, surname)` is a 32-bit int |
| Entities.GenreHashCode | src/main/java/ru/otus/istyazhkina/library/domain/entity/Genre.java:46-48 | `Objects.hash(id, name)` is a 32-bit int |
| Entities.AuthorHashCodeConsistent | src/main/java/ru/otus/istyazhkina/library/domain/entity/Author.java:40-52 | authors that are `equals` have equal hash codes |
| Entities.GenreHashCodeConsistent | src/main/java/ru/otus/istyazhkina/library/domain/entity/Genre.java:37-48 | genres that are `equals` have equal hash codes |
| Entities.AuthorToStringIsJoin | src/main/java/ru/otus/istyazhkina/library/domain/entity/Author.java:35-37 | `toString` is id (or "null"), name and surname joined with commas |
| Entities.GenreToStringIsJoin | src/main/java/ru/otus/istyazhkina/library/domain/entity/Genre.java:32-34 | `toString` is id (or "null") and name joined with a comma |
| Repositories.InsertNewAuthor | src/main/java/ru/otus/istyazhkina/library/domain/entity/Author.java:29-32 | the (name, surname) constructor leaves the id unset, so saving it under a fresh generated id appends one author with that id |
| Repositories.InsertNewGenre | src/main/java/ru/otus/istyazhkina/library/domain/entity/Genre.java:27-29 | the (name) constructor leaves the id unset; saving appends one genre with the generated id |
| StringToAuthorDtoConverter.Convert | src/main/java/ru/otus/istyazhkina/library/rest/converter/StringToAuthorDTOConverter.java:9-12 | succeeds iff split gives at least three fields. On success the input text begins with id, name and surname joined by commas, none containing a comma, followed by the end or a comma; the fields are split's first three, and later fields are ignored. Otherwise it fails at the first missing index |
| StringToAuthorDtoConverter.RoundTrip | src/main/java/ru/otus/istyazhkina/library/domain/entity/Author.java:35-37 | with comma-free fields, converting `toString` succeeds iff the surname is non-empty, and gives back id, name and surname |
| StringToAuthorDtoConverter.FormValueExample | src/test/java/ru/otus/istyazhkina/library/rest/controller/BookControllerTest.java:79 | "1,Lev,Tolstoy" converts to ("1", "Lev", "Tolstoy") |
| StringToAuthorDtoConverter.ExtraFieldExample | src/main/java/ru/otus/istyazhkina/library/rest/converter/StringToAuthorDTOConverter.java:11 | a fourth field is ignored |
| StringToAuthorDtoConverter.EmptySurnameExample | src/main/java/ru/otus/istyazhkina/library/rest/converter/StringToAuthorDTOConverter.java:10-11 | "1,Lev," fails at index 2 of a 2-element array |
| StringToGenreDtoConverter.Convert | src/main/java/ru/otus/istyazhkina/library/rest/converter/StringToGenreDTOConverter.java:9-12 | succeeds iff split gives at least two fields. On success the input text begins with id and name joined by a comma, neither containing a comma, followed by the end or a comma. Otherwise it fails at the first missing index |
| StringToGenreDtoConverter.RoundTrip | src/main/java/ru/otus/istyazhkina/library/domain/entity/Genre.java:32-34 | with comma-free fields, converting `toString` succeeds iff the name is non-empty, and gives back id and name |
| StringToGenreDtoConverter.Examples | src/main/java/ru/otus/istyazhkina/library/rest/converter/StringToGenreDTOConverter.java:10-11 | "1,novel" converts; "1" and "1," fail at index 1 |
| AuthorFetchGuard.OnBeforeDelete | src/main/java/ru/otus/istyazhkina/library/events/MongoAuthorOperationsEventListener.java:27-35 | vetoed iff some stored book has the author id, with "Can not delete author because exists book with this author" |
| AuthorFetchGuard.OnBeforeSave | src/main/java/ru/otus/istyazhkina/library/events/MongoAuthorOperationsEventListener.java:38-44 | vetoed iff some stored author has the same name and surname, whatever the ids. The error is "Same author already exists", or `IncorrectResultSizeDataAccessException` when two stored authors share the pair |
| GenreFetchGuard.OnBeforeDelete | src/main/java/ru/otus/istyazhkina/library/events/MongoGenreOperationsEventListener.java:27-35 | vetoed iff some stored book has the genre id, with "Can not delete genre because exists book with this genre" |
| GenreFetchGuard.OnBeforeSave | src/main/java/ru/otus/istyazhkina/library/events/MongoGenreOperationsEventListener.java:38-45 | vetoed iff some stored genre has the same name. The error is "Same genre already exists", or `IncorrectResultSizeDataAccessException` when two stored genres share the name |
| AuthorExistsGuard.OnBeforeDelete | src/main/java/ru/otus/istyazhkina/library/listener/MongoAuthorOperationsEventListener.java:23-30 | vetoed iff `existsByAuthorId`, i.e. some stored book has the author id; same message |
| AuthorExistsGuard.OnBeforeSave | src/main/java/ru/otus/istyazhkina/library/listener/MongoAuthorOperationsEventListener.java:33-40 | vetoed iff `existsByNameAndSurname`, whatever the id; same message |
| AuthorExistsGuard.AgreesWithFetchGuard | src/main/java/ru/otus/istyazhkina/library/listener/MongoAuthorOperationsEventListener.java:28-38 | both author hook variants veto the same deletes and saves on every store; their outcomes are equal iff no two stored authors share the candidate's pair, so always when the pair is unique |
| GenreExistsGuard.OnBeforeDelete | src/main/java/ru/otus/istyazhkina/library/listener/MongoGenreOperationsEventListener.java:23-30 | vetoed iff `existsByGenreId`; same message |
| GenreExistsGuard.OnBeforeSave | src/main/java/ru/otus/istyazhkina/library/listener/MongoGenreOperationsEventListener.java:33-39 | vetoed iff `existsByName`; same message |
| GenreExistsGuard.AgreesWithFetchGuard | src/main/java/ru/otus/istyazhkina/library/listener/MongoGenreOperationsEventListener.java:28-37 | both genre hook variants veto the same deletes and saves on every store; their outcomes are equal iff no two stored genres share the candidate's name, so always when names are unique |
| BookCascade.OnAfterDelete | src/main/java/ru/otus/istyazhkina/library/listener/MongoBookOperationsEventListener.java:18-23 | the comments become those without the deleted book id; authors, genres and books are untouched |
| BookCascade.CascadeRemovesExactly | src/main/java/ru/otus/istyazhkina/library/listener/MongoBookOperationsEventListener.java:22 | no comment of the deleted book remains; the others stay (as a multiset); the count drops by their number |
| Repositories.SaveAuthor | src/main/java/ru/otus/istyazhkina/library/listener/MongoAuthorOperationsEventListener.java:33-40 | fails iff the (name, surname) is stored, and then changes nothing; otherwise upserts the author with its id; keeps `Valid()`, so (name, surname) stays unique |
| Repositories.DeleteAuthorById | src/main/java/ru/otus/istyazhkina/library/listener/MongoAuthorOperationsEventListener.java:23-30 | missing id: not-found; referenced: veto; passes iff stored and unreferenced, removing exactly that author; a failure changes nothing |
| Repositories.SaveGenre | src/main/java/ru/otus/istyazhkina/library/listener/MongoGenreOperationsEventListener.java:33-39 | fails iff the name is stored, changing nothing; otherwise upserts; names stay unique |
| Repositories.DeleteGenreById | src/main/java/ru/otus/istyazhkina/library/listener/MongoGenreOperationsEventListener.java:23-30 | missing id: not-found; referenced: veto; otherwise removes exactly that genre |
| Repositories.SaveBook | src/main/java/ru/otus/istyazhkina/library/repository/BookRepository.java:8 | no hook: upserts the book with its id; other collections unchanged; comments keep their book |
| Repositories.DeleteBookById | src/main/java/ru/otus/istyazhkina/library/listener/MongoBookOperationsEventListener.java:18-23 | fails iff the id is missing, changing nothing; otherwise removes the book and then its comments; every remaining comment's book is still stored |
| Repositories.SaveComment | src/main/java/ru/otus/istyazhkina/library/repository/CommentRepository.java:8 | upserts the comment with its id; keeps every comment's book stored when the comment's book is |
| Repositories.DeleteCommentById | src/main/java/ru/otus/istyazhkina/library/repository/CommentRepository.java:8 | fails iff the id is missing; otherwise removes exactly that comment |
| AuthorService.GetAuthorById | src/main/java/ru/otus/istyazhkina/library/service/impl/AuthorServiceImpl.java:39-42 | the unique stored author with the id, or "Author by provided ID not found" exactly when there is none |
| AuthorService.GetAuthorByName | src/main/java/ru/otus/istyazhkina/library/service/impl/AuthorServiceImpl.java:55-58 | returns the one stored author with exactly that name and surname. Fails with "No author found by provided name" iff there is none, and with `IncorrectResultSizeDataAccessException` iff there are two or more, which a valid store rules out |
| AuthorService.AddNewAuthor | src/main/java/ru/otus/istyazhkina/library/service/impl/AuthorServiceImpl.java:70-76 | a duplicate (name, surname) gives "Can not add author because author already exists!" and no change; otherwise the author is stored with its id |
| AuthorService.UpdateAuthor | src/main/java/ru/otus/istyazhkina/library/service/impl/AuthorServiceImpl.java:80-92 | unknown id: "Can not update author. Author by provided ID not found"; same name and surname: the stored author, no write; key held elsewhere: "Can not update author because author with same name already exists!", no change; otherwise only name and surname of that author change |
| AuthorService.DeleteAuthor | src/main/java/ru/otus/istyazhkina/library/service/impl/AuthorServiceImpl.java:96-103 | a referenced author gives "You can not delete author because exists book with this author!"; a missing id's not-found passes through; otherwise exactly that author goes |
| GenreService.GetGenreById | src/main/java/ru/otus/istyazhkina/library/service/impl/GenreServiceImpl.java:39-42 | the unique stored genre with the id, or "No genre found by provided id" |
| GenreService.GetGenreByName | src/main/java/ru/otus/istyazhkina/library/service/impl/GenreServiceImpl.java:54-57 | returns the one stored genre with the name. Fails with "No genre found by provided name" iff there is none, and with `IncorrectResultSizeDataAccessException` iff there are two or more, which a valid store rules out |
| GenreService.AddNewGenre | src/main/java/ru/otus/istyazhkina/library/service/impl/GenreServiceImpl.java:68-74 | a duplicate name gives "Can not add genre because genre already exists!" and no change; otherwise the genre is stored |
| GenreService.UpdateGenre | src/main/java/ru/otus/istyazhkina/library/service/impl/GenreServiceImpl.java:78-89 | unknown id: "Can not update genre. Genre by provided ID not found"; same name: the stored genre, no write; taken name: "Can not update genre because genre with same name already exists!"; otherwise only the name changes and the id stays |
| GenreService.DeleteGenre | src/main/java/ru/otus/istyazhkina/library/service/impl/GenreServiceImpl.java:93-99 | a referenced genre gives "You can not delete genre because exists book with this genre!"; otherwise as the repository |
| BookService.GetBooksCount | src/main/java/ru/otus/istyazhkina/library/service/impl/BookServiceImpl.java:27-29 | the number of stored books, which in a valid store all have different ids |
| BookService.GetBookById | src/main/java/ru/otus/istyazhkina/library/service/impl/BookServiceImpl.java:46-49 | the unique stored book with the id, or "Book by provided ID not found" |
| BookService.GetBooksByTitle | src/main/java/ru/otus/istyazhkina/library/service/impl/BookServiceImpl.java:63-66 | exactly the stored books with that title, possibly none |
| BookService.AddNewBook | src/main/java/ru/otus/istyazhkina/library/service/impl/BookServiceImpl.java:80-83 | always stores the book (no title, author or genre check) and returns it with its id; a new book is appended |
| BookService.UpdateBook | src/main/java/ru/otus/istyazhkina/library/service/impl/BookServiceImpl.java:87-94 | unknown id: "Book by provided ID not found"; otherwise the stored book keeps its id and takes title, genre and author from the argument, and the argument is returned |
| BookService.DeleteBookById | src/main/java/ru/otus/istyazhkina/library/service/impl/BookServiceImpl.java:98-104 | missing id: "There is no book with provided id"; otherwise the book and its comments go |
| CommentService.GetCommentById | src/main/java/ru/otus/istyazhkina/library/service/impl/CommentServiceImpl.java:31-33 | the unique stored comment with the id, or "Comment by provided ID not found" |
| CommentService.AddNewComment | src/main/java/ru/otus/istyazhkina/library/service/impl/CommentServiceImpl.java:37-41 | unknown book: "Can not add new Comment. Book by provided id is not found!" and nothing saved; otherwise exactly one comment with that content and book is appended under the fresh id |
| CommentService.UpdateCommentContent | src/main/java/ru/otus/istyazhkina/library/service/impl/CommentServiceImpl.java:45-49 | unknown id: "Can not update comment. Comment by provided ID not found"; otherwise only the content changes |
| CommentService.DeleteComment | src/main/java/ru/otus/istyazhkina/library/service/impl/CommentServiceImpl.java:53-59 | missing id: "There is no comment with provided id"; otherwise exactly that comment goes |
| CommentService.GetCommentsByBookId | src/main/java/ru/otus/istyazhkina/library/service/impl/CommentServiceImpl.java:63-65 | exactly the stored comments on that book |
| SeedScenarios.AuthorSaveScenarios | src/test/java/ru/otus/istyazhkina/library/repository/AuthorRepositoryTest.java:80-108 | a new "Lev Tolstoy" and author 12347 renamed to him are vetoed; 12346 may become "Aleksander Pushkin" |
| SeedScenarios.AuthorDeleteScenarios | src/test/java/ru/otus/istyazhkina/library/repository/AuthorRepositoryTest.java:110-127 | deleting 12345 is vetoed; deleting 12348 passes and leaves three authors |
| SeedScenarios.GenreSaveScenarios | src/test/java/ru/otus/istyazhkina/library/repository/GenreRepositoryTest.java:75-103 | a new "novel" and genre 2135 renamed to "novel" are vetoed; 2136 may become "science fiction" |
| SeedScenarios.GenreDeleteScenarios | src/test/java/ru/otus/istyazhkina/library/repository/GenreRepositoryTest.java:105-122 | deleting 2134 is vetoed; deleting 2137 passes and leaves three genres |
| SeedScenarios.BookDeleteScenarios | src/test/java/ru/otus/istyazhkina/library/repository/BookRepositoryTest.java:96-121 | The Hobbit has comments 9088 and 9089, and deleting it leaves comment 9087 and two books; deleting 45633 leaves two books |
| SeedScenarios.TitleScenarios | src/test/java/ru/otus/istyazhkina/library/repository/BookRepositoryTest.java:52-61 | "War and Peace" finds its one book; "Unknown" finds none |

## Left out

- The `getAll*` service methods: each just returns the whole collection.
- The `@HystrixCommand` fallbacks and `HystrixSleepUtil`: they depend on random sleeps and timeouts.
- REST controllers, shell commands, the exception handler, security and users: these are routing and framework configuration over the services.
- The data changelogs: their values appear only as the constants of `SeedScenarios`.
- Concurrency: operations are strictly sequential.
  - The race between a hook's existence check and the write is not modelled.
  - `@Transactional` rollback is not modelled.
- Generated `ObjectId`s: the identifier is the parameter `newId`, assumed unused in its collection.
- Spring Data MongoDB's own `deleteById` does not fail on a missing id. The model follows the services, which treat that case as `EmptyResultDataAccessException`.
- Null names, surnames, titles and contents: only ids may be null.
- JavaLang.StringHashCode: works on `char` values as code points. Java hashes UTF-16 units, so characters above U+FFFF are not modelled.
- Embedded documents: `Book` holds an author id and a genre id, not embedded `Author` and `Genre` objects, and `Comment` holds a book id. Changes to an embedded copy are not modelled.
- Snapshots and DTOs:
  - The source has several package snapshots of the entities and exceptions; they are treated as one type each.
  - `GenreRepository` in this snapshot lacks the `existsByName` query that the `listener/` genre hook calls; it is modelled as the derived query it names.
  - `BookDTO`, `AuthorDTO` and `GenreDTO` are not part of this model; the converters' DTOs are plain records of the fields read.
- The cascade's own failure after the book is gone: the hook is modelled as always completing.
- BookService.AddNewBook: the book's author and genre ids are not checked against the stored authors and genres, as in the source. "Every book's author exists" is not an invariant of the services.
