/**
 The name filter of the reconciliation: `re.search('^[a-zA-Z0-9-]+$', name)`.
 Without the MULTILINE flag `^` matches only at the start, and `$` matches at
 the end of the string or just before a single newline that ends it, so the
 names that pass are a non-empty word over ASCII letters, digits and hyphen,
 optionally followed by one "\n".
 */
module NameFilter {

  /** A member of the character class `[a-zA-Z0-9-]`. */
  predicate IsNameChar(ch: char)
  {
    ('a' <= ch <= 'z') || ('A' <= ch <= 'Z') || ('0' <= ch <= '9') || ch == '-'
  }

  /** What `[a-zA-Z0-9-]+` matches in full. */
  predicate IsNameWord(w: string)
  {
    |w| > 0 && forall i :: 0 <= i < |w| ==> IsNameChar(w[i])
  }

  /** The truth value of the `re.search` call. */
  predicate NameMatches(name: string)
  {
    IsNameWord(name) || (|name| >= 2 && name[|name| - 1] == '\n' && IsNameWord(name[..|name| - 1]))
  }

  /** The filter accepts exactly a word, or a word and one trailing newline. */
  lemma NameMatchesShape(name: string)
    ensures NameMatches(name) <==> exists w :: IsNameWord(w) && (name == w || name == w + "\n")
  {
    if NameMatches(name) && !IsNameWord(name) {
      var w := name[..|name| - 1];
      assert name == w + "\n";
    }
    if w :| IsNameWord(w) && (name == w || name == w + "\n") {
      if name != w {
        assert name[..|name| - 1] == w;
      }
    }
  }

  /** Only a trailing newline separates the filter from an exact match. */
  lemma NameMatchesWithoutNewline(name: string)
    requires |name| == 0 || name[|name| - 1] != '\n'
    ensures NameMatches(name) <==> IsNameWord(name)
  {
  }

  /** The filter rejects every name that holds a character outside the class
      anywhere but in a single final newline. */
  lemma {:induction false} RejectsForeignCharacter(name: string, i: nat)
    requires i < |name| && !IsNameChar(name[i])
    requires !(i == |name| - 1 && name[i] == '\n')
    ensures !NameMatches(name)
  {
    if |name| >= 2 && name[|name| - 1] == '\n' {
      assert i < |name| - 1;
      assert name[..|name| - 1][i] == name[i];
    }
  }

  lemma NameFilterExamples()
    ensures NameMatches("host-1") && NameMatches("ABC123")
    ensures !NameMatches("host_1") && !NameMatches("host 1") && !NameMatches("héllo")
    ensures !NameMatches("") && !NameMatches("\n")
    ensures NameMatches("host-1\n") && !NameMatches("host-1\n\n")
  {
    RejectsForeignCharacter("host_1", 4);
    RejectsForeignCharacter("host 1", 4);
    RejectsForeignCharacter("héllo", 1);
    RejectsForeignCharacter("host-1\n\n", 6);
    assert "host-1\n"[..6] == "host-1";
    assert !IsNameChar("\n"[0]);
  }
}
