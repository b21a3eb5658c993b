/** Case folding and substring search, as the queries use them: a stored value
    matches a search term when the upper-cased value contains the upper-cased
    term. Upper-casing is ASCII-only here. */
module Text {

  /** Upper case of one character: 'a'..'z' map to 'A'..'Z', everything else is kept. */
  function UpperChar(c: char): char
  {
    if 'a' <= c <= 'z' then (c as int - 32) as char else c
  }

  /** Lower case of one character: 'A'..'Z' map to 'a'..'z', everything else is kept. */
  function LowerChar(c: char): char
  {
    if 'A' <= c <= 'Z' then (c as int + 32) as char else c
  }

  /** The string upper-cased character by character (the model of `String.toUpperCase`). */
  function ToUpper(s: string): string
  {
    seq(|s|, i requires 0 <= i < |s| => UpperChar(s[i]))
  }

  /** The string lower-cased character by character. */
  function ToLower(s: string): string
  {
    seq(|s|, i requires 0 <= i < |s| => LowerChar(s[i]))
  }

  /** `t` occurs in `s` starting at position `i`. */
  predicate OccursAt(s: string, t: string, i: int)
  {
    0 <= i <= |s| - |t| && s[i..i + |t|] == t
  }

  /** `s` contains `t` as a contiguous substring (the model of `String.contains`). */
  predicate Contains(s: string, t: string)
  {
    exists i :: 0 <= i <= |s| - |t| && OccursAt(s, t, i)
  }

  /** `value.toUpperCase().contains(term.toUpperCase())`. */
  predicate ContainsIgnoreCase(value: string, term: string)
  {
    Contains(ToUpper(value), ToUpper(term))
  }

  /** The empty term is contained in every value. */
  lemma EmptyTermMatches(value: string)
    ensures ContainsIgnoreCase(value, "")
  {
    assert OccursAt(ToUpper(value), ToUpper(""), 0);
  }

  /** A term that occurs in a value, in any letter case, is found. */
  lemma OccurrenceMatches(value: string, term: string, i: int)
    requires 0 <= i <= |value| - |term|
    requires ToUpper(value[i..i + |term|]) == ToUpper(term)
    ensures ContainsIgnoreCase(value, term)
  {
    var u, v := ToUpper(value), ToUpper(term);
    assert u[i..i + |term|] == v by {
      forall k | 0 <= k < |term|
        ensures u[i..i + |term|][k] == v[k]
      {
        assert v[k] == ToUpper(value[i..i + |term|])[k] == UpperChar(value[i + k]);
      }
    }
    assert OccursAt(u, v, i);
  }

  /** Matching ignores the letter case of the term: the term, its upper-cased and its
      lower-cased forms all match the same values. */
  lemma TermCaseIrrelevant(value: string, term: string)
    ensures ContainsIgnoreCase(value, ToUpper(term)) <==> ContainsIgnoreCase(value, term)
    ensures ContainsIgnoreCase(value, ToLower(term)) <==> ContainsIgnoreCase(value, term)
  {
    assert ToUpper(ToUpper(term)) == ToUpper(term);
    assert ToUpper(ToLower(term)) == ToUpper(term) by {
      forall k | 0 <= k < |term|
        ensures ToUpper(ToLower(term))[k] == ToUpper(term)[k]
      {
        var c := term[k];
        assert UpperChar(LowerChar(c)) == UpperChar(c);
      }
    }
  }

  /** The example of the search documentation: "Enterprise" in any case matches
      "Enterprise Holdings, Inc". */
  lemma EnterpriseExample()
    ensures ContainsIgnoreCase("Enterprise Holdings, Inc", "Enterprise")
    ensures ContainsIgnoreCase("Enterprise Holdings, Inc", "enterprise")
    ensures ContainsIgnoreCase("Enterprise Holdings, Inc", "ENTERPRISE")
    ensures !ContainsIgnoreCase("Enterprise Holdings, Inc", "Globex")
  {
    var value := "Enterprise Holdings, Inc";
    OccurrenceMatches(value, "Enterprise", 0);
    OccurrenceMatches(value, "enterprise", 0);
    OccurrenceMatches(value, "ENTERPRISE", 0);
    var u, v := ToUpper(value), ToUpper("Globex");
    forall i | 0 <= i <= |u| - |v|
      ensures !OccursAt(u, v, i)
    {
      assert u[i..i + |v|][0] == u[i] != 'G' || u[i..i + |v|][1] == u[i + 1] != 'L';
    }
  }
}
