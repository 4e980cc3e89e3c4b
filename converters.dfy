/**
 * StringToAuthorDTOConverter: reads "id,name,surname", the text Author.toString
 * writes, by splitting on commas and taking fields 0, 1 and 2.
 */
module StringToAuthorDtoConverter {
  import opened Results
  import opened Exceptions
  import opened Entities
  import JavaLang

  datatype AuthorDto = AuthorDto(id: string, name: string, surname: string)

  /**
   * convert: the text starts with "id,name,surname", comma-free fields, and
   * goes on with a comma or ends there, so anything after the third field is
   * ignored. It fails exactly when split leaves fewer than three fields, at
   * the first missing index.
   */
  function Convert(from: string): (r: Result<AuthorDto, ArrayIndexOutOfBounds>)
    ensures r.Success? <==> |JavaLang.Split(from, ',')| >= 3
    ensures r.Success? ==> ',' !in r.value.id && ',' !in r.value.name && ',' !in r.value.surname
    ensures r.Success? ==> var text := r.value.id + "," + r.value.name + "," + r.value.surname;
      text <= from && (|text| == |from| || from[|text|] == ',')
    ensures r.Success? ==> var data := JavaLang.Split(from, ',');
      r.value == AuthorDto(data[0], data[1], data[2])
    ensures r.Failure? ==> r.error.index == r.error.length == |JavaLang.Split(from, ',')|
  {
    var data := JavaLang.Split(from, ',');
    if |data| < 3 then Failure(ArrayIndexOutOfBounds(|data|, |data|))
    else
      JavaLang.SplitPrefix(from, ',', 3);
      assert JavaLang.Join(data[..3], ',') == data[0] + "," + data[1] + "," + data[2] by {
        assert data[..3][1..][1..] == [data[2]];
        assert JavaLang.Join(data[..3][1..], ',') == data[1] + "," + data[2];
      }
      Success(AuthorDto(data[0], data[1], data[2]))
  }

  /**
   * Reading back Author.toString: with comma-free fields, the text converts
   * exactly when the surname is not empty, and then gives back id, name and
   * surname (a null id reads back as the text "null").
   */
  lemma RoundTrip(a: Author)
    requires ',' !in JavaLang.NullableText(a.id) && ',' !in a.name && ',' !in a.surname
    ensures Convert(AuthorToString(a)).Success? <==> a.surname != ""
    ensures a.surname != "" ==>
      Convert(AuthorToString(a)) == Success(AuthorDto(JavaLang.NullableText(a.id), a.name, a.surname))
  {
    var fs := [JavaLang.NullableText(a.id), a.name, a.surname];
    AuthorToStringIsJoin(a);
    JavaLang.SplitOfJoin(fs, ',');
  }

  /** The form value "1,Lev,Tolstoy" converts field by field. */
  lemma FormValueExample()
    ensures Convert("1,Lev,Tolstoy") == Success(AuthorDto("1", "Lev", "Tolstoy"))
  {
    var a := Author(Some("1"), "Lev", "Tolstoy");
    assert AuthorToString(a) == "1,Lev,Tolstoy";
    RoundTrip(a);
  }

  /** A fourth field is ignored. */
  lemma ExtraFieldExample()
    ensures Convert("1,Lev,Tolstoy,1828") == Success(AuthorDto("1", "Lev", "Tolstoy"))
  {
    var fs := ["1", "Lev", "Tolstoy", "1828"];
    assert JavaLang.Join(fs[2..], ',') == "Tolstoy,1828";
    assert JavaLang.Join(fs[1..], ',') == "Lev,Tolstoy,1828";
    assert JavaLang.Join(fs, ',') == "1,Lev,Tolstoy,1828";
    JavaLang.SplitOfJoin(fs, ',');
  }

  /** "1,Lev," loses its empty surname to split and fails at index 2. */
  lemma EmptySurnameExample()
    ensures Convert("1,Lev,") == Failure(ArrayIndexOutOfBounds(2, 2))
  {
    var fs := ["1", "Lev", ""];
    assert JavaLang.Join(fs, ',') == "1,Lev,";
    JavaLang.FieldsOfJoin(fs, ',');
    assert JavaLang.DropTrailingEmpty(fs) == ["1", "Lev"];
  }
}

/**
 * StringToGenreDTOConverter: reads "id,name", the text Genre.toString writes,
 * by splitting on commas and taking fields 0 and 1.
 */
module StringToGenreDtoConverter {
  import opened Results
  import opened Exceptions
  import opened Entities
  import JavaLang

  datatype GenreDto = GenreDto(id: string, name: string)

  /**
   * convert: the text starts with "id,name", comma-free fields, and goes on
   * with a comma or ends there, so later fields are ignored. It fails exactly
   * when split leaves fewer than two fields, at the first missing index.
   */
  function Convert(from: string): (r: Result<GenreDto, ArrayIndexOutOfBounds>)
    ensures r.Success? <==> |JavaLang.Split(from, ',')| >= 2
    ensures r.Success? ==> ',' !in r.value.id && ',' !in r.value.name
    ensures r.Success? ==> var text := r.value.id + "," + r.value.name;
      text <= from && (|text| == |from| || from[|text|] == ',')
    ensures r.Success? ==> var data := JavaLang.Split(from, ',');
      r.value == GenreDto(data[0], data[1])
    ensures r.Failure? ==> r.error.index == r.error.length == |JavaLang.Split(from, ',')|
  {
    var data := JavaLang.Split(from, ',');
    if |data| < 2 then Failure(ArrayIndexOutOfBounds(|data|, |data|))
    else
      JavaLang.SplitPrefix(from, ',', 2);
      assert JavaLang.Join(data[..2], ',') == data[0] + "," + data[1] by {
        assert data[..2][1..] == [data[1]];
      }
      Success(GenreDto(data[0], data[1]))
  }

  /**
   * Reading back Genre.toString: with comma-free fields, the text converts
   * exactly when the name is not empty, and then gives back id and name.
   */
  lemma RoundTrip(g: Genre)
    requires ',' !in JavaLang.NullableText(g.id) && ',' !in g.name
    ensures Convert(GenreToString(g)).Success? <==> g.name != ""
    ensures g.name != "" ==>
      Convert(GenreToString(g)) == Success(GenreDto(JavaLang.NullableText(g.id), g.name))
  {
    var fs := [JavaLang.NullableText(g.id), g.name];
    GenreToStringIsJoin(g);
    JavaLang.SplitOfJoin(fs, ',');
  }

  /**
   * The form value "1,novel" converts; "1" and "1," have a single field after
   * split and fail at index 1.
   */
  lemma Examples()
    ensures Convert("1,novel") == Success(GenreDto("1", "novel"))
    ensures Convert("1") == Failure(ArrayIndexOutOfBounds(1, 1))
    ensures Convert("1,") == Failure(ArrayIndexOutOfBounds(1, 1))
  {
    var g := Genre(Some("1"), "novel");
    assert GenreToString(g) == "1,novel";
    RoundTrip(g);
    var fs := ["1", ""];
    assert JavaLang.Join(fs, ',') == "1,";
    JavaLang.FieldsOfJoin(fs, ',');
    assert JavaLang.DropTrailingEmpty(fs) == ["1"];
  }
}
