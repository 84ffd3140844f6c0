/** Case-insensitive substring matching, the rule the search applies to its
    free-text keys. Letters are folded over the ASCII range only, and the
    query is read as a literal string, not as a regular expression. */
module Text {

  /** Folds an ASCII capital letter to lower case; any other character is kept. */
  function LowerChar(c: char): (r: char)
    ensures !('A' <= r <= 'Z')
  {
    if 'A' <= c <= 'Z' then (c as int + 32) as char else c
  }

  /** Folds an ASCII small letter to upper case; any other character is kept. */
  function UpperChar(c: char): (r: char)
    ensures !('a' <= r <= 'z')
  {
    if 'a' <= c <= 'z' then (c as int - 32) as char else c
  }

  function Lower(s: string): (r: string)
    ensures |r| == |s|
    ensures forall i :: 0 <= i < |s| ==> r[i] == LowerChar(s[i])
  {
    seq(|s|, i requires 0 <= i < |s| => LowerChar(s[i]))
  }

  function Upper(s: string): (r: string)
    ensures |r| == |s|
    ensures forall i :: 0 <= i < |s| ==> r[i] == UpperChar(s[i])
  {
    seq(|s|, i requires 0 <= i < |s| => UpperChar(s[i]))
  }

  /** `query` occurs in `text` starting at position `i`. */
  ghost predicate OccursAt(text: string, query: string, i: int)
  {
    0 <= i && i + |query| <= |text| && text[i..i + |query|] == query
  }

  /** An occurrence past the first position of `text` is an occurrence in its tail. */
  lemma OccursInTail(text: string, query: string)
    requires |text| > 0
    ensures (exists i :: OccursAt(text, query, i)) <==>
            OccursAt(text, query, 0) || exists j :: OccursAt(text[1..], query, j)
  {
    if i :| OccursAt(text, query, i) {
      if i > 0 {
        assert text[1..][i - 1..i - 1 + |query|] == text[i..i + |query|];
        assert OccursAt(text[1..], query, i - 1);
      }
    }
    if j :| OccursAt(text[1..], query, j) {
      assert text[1..][j..j + |query|] == text[j + 1..j + 1 + |query|];
      assert OccursAt(text, query, j + 1);
    }
  }

  /** Literal substring test: does `query` occur anywhere in `text`? */
  function Contains(text: string, query: string): (b: bool)
    ensures b <==> exists i :: OccursAt(text, query, i)
    decreases |text|
  {
    if |query| <= |text| && text[..|query|] == query then
      assert OccursAt(text, query, 0);
      true
    else if |text| == 0 then
      assert forall i :: !OccursAt(text, query, i);
      false
    else
      OccursInTail(text, query);
      Contains(text[1..], query)
  }

  /** Case-insensitive substring test, `str.contains(query, case=False)`. */
  function ContainsIgnoringCase(text: string, query: string): (b: bool)
    ensures b <==> exists i :: OccursAt(Lower(text), Lower(query), i)
  {
    Contains(Lower(text), Lower(query))
  }

  lemma LowerOfSlice(s: string, i: nat, j: nat)
    requires i <= j <= |s|
    ensures Lower(s)[i..j] == Lower(s[i..j])
  {
  }

  /** A text that literally contains the query also matches ignoring case. */
  lemma LiteralMatchIgnoringCase(text: string, query: string)
    requires Contains(text, query)
    ensures ContainsIgnoringCase(text, query)
  {
    var i :| OccursAt(text, query, i);
    LowerOfSlice(text, i, i + |query|);
    assert OccursAt(Lower(text), Lower(query), i);
  }

  /** Folding a string to either case and then to lower case gives the same string. */
  lemma LowerAbsorbsCase(s: string)
    ensures Lower(Upper(s)) == Lower(s)
    ensures Lower(Lower(s)) == Lower(s)
  {
  }

  /** The letter case of the query and of the text never affects the outcome:
      "park" matches "Park" and "PARK", and so does "PARK". */
  lemma CaseOfQueryAndTextIrrelevant(text: string, query: string)
    ensures ContainsIgnoringCase(text, Upper(query)) == ContainsIgnoringCase(text, query)
    ensures ContainsIgnoringCase(text, Lower(query)) == ContainsIgnoringCase(text, query)
    ensures ContainsIgnoringCase(Upper(text), query) == ContainsIgnoringCase(text, query)
    ensures ContainsIgnoringCase(Lower(text), query) == ContainsIgnoringCase(text, query)
  {
    LowerAbsorbsCase(text);
    LowerAbsorbsCase(query);
  }

  /** The empty query matches every text. */
  lemma EmptyQueryMatchesAll(text: string)
    ensures ContainsIgnoringCase(text, "")
  {
    assert OccursAt(Lower(text), Lower(""), 0);
  }

  /** The query "park" matches "Central PARK" and does not match "Plaza". */
  lemma ParkExample()
    ensures ContainsIgnoringCase("Central PARK", "park")
    ensures !ContainsIgnoringCase("Plaza", "park")
  {
    var text, query := Lower("Central PARK"), Lower("park");
    assert query == "park";
    assert text[8..12] == "park";
    assert OccursAt(text, query, 8);
    var other := Lower("Plaza");
    assert other == "plaza";
    forall i
      ensures !OccursAt(other, query, i)
    {
      if i == 0 {
        assert other[i..i + 4][1] == 'l';
      } else if i == 1 {
        assert other[i..i + 4][0] == 'l';
      }
    }
  }
}
