/**
 * The parts of java.lang and java.util the entities and converters rely on:
 * 32-bit int arithmetic, String.hashCode, Objects.hash and String.split with a
 * one-character separator.
 */
module JavaLang {
  import opened Results

  const TWO_TO_32: int := 0x1_0000_0000
  const INT_MIN: int := -0x8000_0000
  const INT_MAX: int := 0x7FFF_FFFF

  /** Java int arithmetic: x wrapped into 32-bit two's complement. */
  function Int32(x: int): (r: int)
    ensures INT_MIN <= r <= INT_MAX
    ensures (x - r) % TWO_TO_32 == 0
    ensures INT_MIN <= x <= INT_MAX ==> r == x
  {
    (x - INT_MIN) % TWO_TO_32 + INT_MIN
  }

  /** String.hashCode: h = 31 * h + c over the characters, in int arithmetic. */
  function StringHashCode(s: string): (h: int)
    ensures INT_MIN <= h <= INT_MAX
  {
    if |s| == 0 then 0
    else Int32(31 * StringHashCode(s[..|s| - 1]) + s[|s| - 1] as int)
  }

  /** The hash code of a possibly-null String field: 0 for null. */
  function NullableHashCode(s: Option<string>): (h: int)
    ensures INT_MIN <= h <= INT_MAX
  {
    if s.None? then 0 else StringHashCode(s.value)
  }

  /** Objects.hash over the given element hash codes: r = 31 * r + h, from 1. */
  function ObjectsHash(hs: seq<int>): (h: int)
    ensures INT_MIN <= h <= INT_MAX
  {
    if |hs| == 0 then 1
    else Int32(31 * ObjectsHash(hs[..|hs| - 1]) + hs[|hs| - 1])
  }

  /** String.valueOf of a possibly-null String, as string concatenation renders it. */
  function NullableText(s: Option<string>): string
  {
    if s.None? then "null" else s.value
  }

  /** Every field between separators, empty fields included. */
  function Fields(s: string, sep: char): (r: seq<string>)
    ensures |r| >= 1
    ensures forall i :: 0 <= i < |r| ==> sep !in r[i]
  {
    if |s| == 0 then [""]
    else
      var rest := Fields(s[1..], sep);
      if s[0] == sep then [""] + rest
      else [[s[0]] + rest[0]] + rest[1..]
  }

  /** The fields without the empty ones at the end. */
  function DropTrailingEmpty(fs: seq<string>): (r: seq<string>)
    ensures r <= fs
    ensures |r| > 0 ==> r[|r| - 1] != ""
    ensures forall i :: |r| <= i < |fs| ==> fs[i] == ""
  {
    if |fs| > 0 && fs[|fs| - 1] == "" then DropTrailingEmpty(fs[..|fs| - 1]) else fs
  }

  /**
   * String.split on a one-character separator (limit 0): a string without the
   * separator comes back whole, even when empty; otherwise its fields, with
   * trailing empty fields removed.
   */
  function Split(s: string, sep: char): (r: seq<string>)
    ensures forall i :: 0 <= i < |r| ==> sep !in r[i]
  {
    if sep !in s then [s] else DropTrailingEmpty(Fields(s, sep))
  }

  /** The fields written out with the separator between them. */
  function Join(fs: seq<string>, sep: char): string
    requires |fs| >= 1
  {
    if |fs| == 1 then fs[0] else fs[0] + [sep] + Join(fs[1..], sep)
  }

  /** A string without the separator is a single field. */
  lemma {:induction false} FieldsWithoutSeparator(s: string, sep: char)
    requires sep !in s
    ensures Fields(s, sep) == [s]
  {
    if |s| > 0 {
      FieldsWithoutSeparator(s[1..], sep);
      assert [s[0]] + s[1..] == s;
    }
  }

  /** A separator after a separator-free prefix ends the first field. */
  lemma {:induction false} FieldsOfPrefix(a: string, b: string, sep: char)
    requires sep !in a
    ensures Fields(a + [sep] + b, sep) == [a] + Fields(b, sep)
  {
    if |a| == 0 {
      assert a + [sep] + b == [sep] + b;
      assert ([sep] + b)[1..] == b;
    } else {
      var s := a + [sep] + b;
      assert s[1..] == a[1..] + [sep] + b;
      FieldsOfPrefix(a[1..], b, sep);
      assert [a[0]] + a[1..] == a;
    }
  }

  /** Splitting the joined fields gives the fields back, when none contains the separator. */
  lemma {:induction false} FieldsOfJoin(fs: seq<string>, sep: char)
    requires |fs| >= 1
    requires forall i :: 0 <= i < |fs| ==> sep !in fs[i]
    ensures Fields(Join(fs, sep), sep) == fs
  {
    if |fs| == 1 {
      FieldsWithoutSeparator(fs[0], sep);
    } else {
      FieldsOfJoin(fs[1..], sep);
      FieldsOfPrefix(fs[0], Join(fs[1..], sep), sep);
      assert [fs[0]] + fs[1..] == fs;
    }
  }

  /**
   * Round trip of split over join: the fields come back exactly when none holds
   * the separator and the last is not empty; with an empty last field, split
   * returns fewer fields.
   */
  lemma SplitOfJoin(fs: seq<string>, sep: char)
    requires |fs| >= 2
    requires forall i :: 0 <= i < |fs| ==> sep !in fs[i]
    ensures fs[|fs| - 1] != "" ==> Split(Join(fs, sep), sep) == fs
    ensures fs[|fs| - 1] == "" ==> |Split(Join(fs, sep), sep)| < |fs|
  {
    var s := Join(fs, sep);
    FieldsOfJoin(fs, sep);
    assert s == fs[0] + [sep] + Join(fs[1..], sep);
    assert s[|fs[0]|] == sep;
  }

  /** Joining the fields of a string gives the string back. */
  lemma {:induction false} JoinOfFields(s: string, sep: char)
    ensures Join(Fields(s, sep), sep) == s
  {
    if |s| > 0 {
      var rest := Fields(s[1..], sep);
      JoinOfFields(s[1..], sep);
      if s[0] == sep {
        assert ([""] + rest)[1..] == rest;
        assert [s[0]] + s[1..] == s;
      } else if |rest| == 1 {
        assert [s[0]] + s[1..] == s;
      } else {
        var fs := [[s[0]] + rest[0]] + rest[1..];
        assert fs[1..] == rest[1..];
        assert Join(rest, sep) == rest[0] + [sep] + Join(rest[1..], sep);
        assert Join(fs, sep) == [s[0]] + (rest[0] + [sep] + Join(rest[1..], sep));
        assert [s[0]] + s[1..] == s;
      }
    }
  }

  /** A join breaks at every field boundary into the join of the fields before and after. */
  lemma {:induction false} JoinSplitsAt(fs: seq<string>, k: nat, sep: char)
    requires 1 <= k < |fs|
    ensures Join(fs, sep) == Join(fs[..k], sep) + [sep] + Join(fs[k..], sep)
  {
    if k > 1 {
      JoinSplitsAt(fs[1..], k - 1, sep);
      assert fs[1..][..k - 1] == fs[..k][1..];
      assert fs[1..][k - 1..] == fs[k..];
      assert Join(fs[..k], sep) == fs[0] + [sep] + Join(fs[..k][1..], sep);
    }
  }

  /**
   * The first k fields of a split, joined back, are where the text starts:
   * the text goes on from there with a separator, or ends.
   */
  lemma SplitPrefix(s: string, sep: char, k: nat)
    requires 1 <= k <= |Split(s, sep)|
    ensures var p := Join(Split(s, sep)[..k], sep);
      p <= s && (|p| == |s| || s[|p|] == sep)
  {
    if sep !in s {
      assert Split(s, sep)[..k] == [s];
    } else {
      var fs := Fields(s, sep);
      var r := Split(s, sep);
      assert r[..k] == fs[..k];
      JoinOfFields(s, sep);
      if k == |fs| {
        assert fs[..k] == fs;
      } else {
        JoinSplitsAt(fs, k, sep);
      }
    }
  }
}
