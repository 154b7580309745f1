/**
 * The answer to "Execute? [yes/No/edit]" (src/main.rs:105-138): the line
 * read is trimmed and lower-cased, then matched against the two spellings
 * of "yes" and the two spellings of "edit"; everything else cancels.
 */
module Confirm {
  import opened Text

  datatype Choice = Execute | CopyForEdit | Cancel

  /**
   * `trim` and then `to_lowercase` on the line read: the result is no longer
   * than the line, has no white space at its ends and no upper-case letter.
   */
  function Normalize(line: string): (r: string)
    ensures |r| <= |line| && TightEdges(r)
    ensures forall k :: 0 <= k < |r| ==> !('A' <= r[k] <= 'Z')
  {
    var t := Trim(line);
    LowerKeepsTight(t);
    ToLower(t)
  }

  /** Lower-casing a string without white space at its ends keeps it so. */
  lemma LowerKeepsTight(m: string)
    requires TightEdges(m)
    ensures TightEdges(ToLower(m))
  {
    if m != [] {
      LowerKeepsWhitespace(m[0]);
      LowerKeepsWhitespace(m[|m| - 1]);
    }
  }

  /** The `match input.as_str()` of src/main.rs:109-138. */
  function Classify(line: string): Choice {
    var input := Normalize(line);
    if input == "y" || input == "yes" then Execute
    else if input == "e" || input == "edit" then CopyForEdit
    else Cancel
  }

  /**
   * `line` is `word` in any mix of upper and lower case, with any white
   * space before and after it: the reference reading of what the user typed.
   */
  ghost predicate Spells(line: string, word: string) {
    exists i, j :: 0 <= i <= j <= |line| && AllWhitespace(line[..i]) && AllWhitespace(line[j..]) && ToLower(line[i..j]) == word
  }

  /** Lower-casing keeps the edges tight or loose. */
  lemma LowerTight(m: string)
    requires TightEdges(ToLower(m))
    ensures TightEdges(m)
  {
    if m != [] {
      LowerKeepsWhitespace(m[0]);
      LowerKeepsWhitespace(m[|m| - 1]);
    }
  }

  lemma NormalizedSpells(line: string)
    ensures Spells(line, Normalize(line))
  {
    var a, m, b := TrimParts(line);
    var i, j := |a|, |a| + |m|;
    assert line[..i] == a && line[i..j] == m && line[j..] == b;
  }

  lemma SpelledNormalizes(line: string, word: string)
    requires TightEdges(word) && Spells(line, word)
    ensures Normalize(line) == word
  {
    var i, j :| 0 <= i <= j <= |line| && AllWhitespace(line[..i]) && AllWhitespace(line[j..]) && ToLower(line[i..j]) == word;
    var m := line[i..j];
    LowerTight(m);
    Cut3(line, i, j);
    TrimUnique(line[..i], m, line[j..]);
  }

  /** Normalisation recognises a word exactly when the line spells it. */
  lemma NormalizeRecognises(line: string, word: string)
    requires TightEdges(word)
    ensures Normalize(line) == word <==> Spells(line, word)
  {
    if Normalize(line) == word {
      NormalizedSpells(line);
    }
    if Spells(line, word) {
      SpelledNormalizes(line, word);
    }
  }

  /** The four accepted answers have no white space at their ends. */
  lemma AnswersTight()
    ensures TightEdges("y") && TightEdges("yes") && TightEdges("e") && TightEdges("edit")
  {
    LetterNotWhitespace('y');
    LetterNotWhitespace('s');
    LetterNotWhitespace('e');
    LetterNotWhitespace('t');
  }

  /** The three outcomes, each by what the line spells; they are exhaustive and exclusive by construction. */
  lemma ClassifyMeaning(line: string)
    ensures Classify(line) == Execute <==> Spells(line, "y") || Spells(line, "yes")
    ensures Classify(line) == CopyForEdit <==> Spells(line, "e") || Spells(line, "edit")
    ensures Classify(line) == Cancel
        <==> !Spells(line, "y") && !Spells(line, "yes") && !Spells(line, "e") && !Spells(line, "edit")
  {
    AnswersTight();
    NormalizeRecognises(line, "y");
    NormalizeRecognises(line, "yes");
    NormalizeRecognises(line, "e");
    NormalizeRecognises(line, "edit");
  }

  /** Case and surrounding white space, the newline `read_line` keeps included, do not matter. */
  lemma ClassifyIgnoresPadding(before: string, typed: string, after: string)
    requires AllWhitespace(before) && AllWhitespace(after)
    ensures Classify(before + typed + after) == Classify(typed)
  {
    TrimPadding(before, typed, after);
  }

  /** For instance " YES\n" executes. */
  lemma ShoutedYesExecutes()
    ensures Classify(" YES\n") == Execute
  {
    var line := " YES\n";
    assert AllWhitespace(line[..1]) && AllWhitespace(line[4..]);
    assert ToLower(line[1..4]) == "yes";
    ClassifyMeaning(line);
  }
}
