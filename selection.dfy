/** The check made on the selected text, and the body handed to the extractor. */
module Selection {
  import opened Text

  predicate IsQuote(c: char) {
    c == '\'' || c == '"'
  }

  /** The guard of the command, in the shape the source writes it: the selection is refused
      when it is empty, when it starts with neither quote, or when it ends with neither.
      Nothing asks the two quotes to be the same. */
  predicate IsValidSelection(s: string) {
    !(s == "" || (!StartsWith(s, "'") && !StartsWith(s, "\"")) || (!EndsWith(s, "'") && !EndsWith(s, "\"")))
  }

  /** A selection is accepted exactly when it is non-empty and both its first and its last
      character are quotes, of either kind. */
  lemma ValidSelectionIff(s: string)
    ensures IsValidSelection(s) <==> |s| > 0 && IsQuote(s[0]) && IsQuote(s[|s| - 1])
  {
    if |s| > 0 {
      assert StartsWith(s, "'") <==> s[0] == '\'' by { assert s[..1] == [s[0]]; }
      assert StartsWith(s, "\"") <==> s[0] == '"' by { assert s[..1] == [s[0]]; }
      assert EndsWith(s, "'") <==> s[|s| - 1] == '\'' by { assert s[|s| - 1..] == [s[|s| - 1]]; }
      assert EndsWith(s, "\"") <==> s[|s| - 1] == '"' by { assert s[|s| - 1..] == [s[|s| - 1]]; }
    }
  }

  /** Mismatched quote pairs and a lone quote pass the guard; empty and unquoted text do not. */
  lemma GuardExamples()
    ensures IsValidSelection("'abc\"") && IsValidSelection("\"abc'") && IsValidSelection("'")
    ensures !IsValidSelection("") && !IsValidSelection("unquoted") && !IsValidSelection("'open")
  {
    ValidSelectionIff("'abc\"");
    ValidSelectionIff("\"abc'");
    ValidSelectionIff("'");
    ValidSelectionIff("unquoted");
    ValidSelectionIff("'open");
  }

  /** `s.slice(1, -1)`: the selection without its first and its last character; empty
      when the selection has fewer than three characters. */
  function Body(s: string): (b: string)
    ensures |s| >= 2 ==> s == [s[0]] + b + [s[|s| - 1]]
    ensures |s| <= 2 ==> b == []
  {
    Slice(s, 1, -1)
  }
}
