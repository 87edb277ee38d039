/** The case-insensitive substring match behind the repositories'
    `findAllByNameContainingIgnoreCase` / `findAllByTitleContainingIgnoreCase`
    queries, which compare `UPPER(column)` with `UPPER('%' + text + '%')`
    after escaping the wildcard characters of the text. */
module Text {

  /** Upper-casing of one character, restricted to the ASCII letters. */
  function UpperChar(c: char): (r: char)
    ensures 'a' <= c <= 'z' ==> r as int == c as int - 32
    ensures !('a' <= c <= 'z') ==> r == c
  {
    if 'a' <= c <= 'z' then (c as int - 32) as char else c
  }

  /** Upper-casing of a string, character by character. */
  function Upper(s: string): (r: string)
    ensures |r| == |s|
    ensures forall i :: 0 <= i < |s| ==> r[i] == UpperChar(s[i])
  {
    if s == [] then [] else [UpperChar(s[0])] + Upper(s[1..])
  }

  /** `needle` occurs in `hay` at position `i`. */
  ghost predicate OccursAt(needle: string, hay: string, i: int) {
    0 <= i && i + |needle| <= |hay| && hay[i..i + |needle|] == needle
  }

  /** The reference meaning of "contains": some position holds the needle. */
  ghost predicate ContainsSpec(hay: string, needle: string) {
    exists i :: OccursAt(needle, hay, i)
  }

  /** Executable substring test: the needle is a prefix of `hay` or of one of its suffixes. */
  predicate Contains(hay: string, needle: string)
    decreases |hay|
  {
    |needle| <= |hay| && (hay[..|needle|] == needle || (|hay| > 0 && Contains(hay[1..], needle)))
  }

  /** An occurrence in the tail of `hay` is an occurrence in `hay`, one position later. */
  lemma OccursInTail(needle: string, hay: string, i: int)
    requires |hay| > 0 && OccursAt(needle, hay[1..], i)
    ensures OccursAt(needle, hay, i + 1)
  {
    forall j | 0 <= j < |needle| ensures hay[i + 1 + j] == needle[j] {
      assert hay[1..][i..i + |needle|][j] == needle[j];
    }
    assert hay[i + 1..i + 1 + |needle|] == needle;
  }

  /** An occurrence in `hay` past position 0 is an occurrence in its tail. */
  lemma OccursPastHead(needle: string, hay: string, i: int)
    requires i > 0 && OccursAt(needle, hay, i)
    ensures OccursAt(needle, hay[1..], i - 1)
  {
    assert hay[1..][i - 1..i - 1 + |needle|] == hay[i..i + |needle|];
  }

  /** `Contains` agrees with the positional definition in both directions. */
  lemma {:induction false} ContainsMeansOccurs(hay: string, needle: string)
    ensures Contains(hay, needle) <==> ContainsSpec(hay, needle)
    decreases |hay|
  {
    if |needle| > |hay| {
    } else if hay[..|needle|] == needle {
      assert OccursAt(needle, hay, 0);
    } else {
      ContainsMeansOccurs(hay[1..], needle);
      if Contains(hay[1..], needle) {
        var i :| OccursAt(needle, hay[1..], i);
        OccursInTail(needle, hay, i);
      }
      if ContainsSpec(hay, needle) {
        var i :| OccursAt(needle, hay, i);
        assert i != 0;
        OccursPastHead(needle, hay, i);
      }
    }
  }

  /** The repository match: `text` occurs in `column`, ignoring the case of ASCII
      letters, that is the upper-cased text occurs at some position of the
      upper-cased column. */
  predicate ContainsIgnoreCase(column: string, text: string): (r: bool)
    ensures r <==> ContainsSpec(Upper(column), Upper(text))
  {
    ContainsMeansOccurs(Upper(column), Upper(text));
    Contains(Upper(column), Upper(text))
  }

  /** Every string contains the empty one, so an empty query matches every row. */
  lemma EmptyTextMatchesAll(column: string)
    ensures ContainsIgnoreCase(column, "")
  {
    assert Upper(column)[..0] == [];
  }

  /** A column always matches its own value, whatever the case of the query. */
  lemma {:induction false} ColumnMatchesItself(column: string)
    ensures ContainsIgnoreCase(column, column)
  {
    assert Upper(column)[..|Upper(column)|] == Upper(column);
  }

  /** Upper-casing is idempotent, so querying with an upper-cased text finds the same rows. */
  lemma {:induction false} UpperIdempotent(s: string)
    ensures Upper(Upper(s)) == Upper(s)
  {
    if s != [] {
      UpperIdempotent(s[1..]);
    }
  }

  /** The match ignores the case of the query text. */
  lemma QueryCaseIrrelevant(column: string, text: string)
    ensures ContainsIgnoreCase(column, Upper(text)) == ContainsIgnoreCase(column, text)
  {
    UpperIdempotent(text);
  }

  /** A text occurring at a position of the column once both are upper-cased,
      that is whatever the case of their letters, is matched. */
  lemma OccurrenceIsMatched(column: string, text: string, i: int)
    requires OccursAt(Upper(text), Upper(column), i)
    ensures ContainsIgnoreCase(column, text)
  {
  }

  /** In particular a text occurring in the column exactly, case included, is matched. */
  lemma {:induction false} ExactOccurrenceIsMatched(column: string, text: string, i: int)
    requires OccursAt(text, column, i)
    ensures ContainsIgnoreCase(column, text)
  {
    var uc, ut := Upper(column), Upper(text);
    assert uc[i..i + |ut|] == ut;
    OccurrenceIsMatched(column, text, i);
  }
}
