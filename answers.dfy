/**
 * The answers to the repair prompt (notes_tool.cpp:140-170).  A typed line
 * is an answer when, lower-cased, it is the whole word or the word's first
 * letter.
 */
module Answers {
  import opened Chars

  /** `is_input`: `t` lower-cased is `word` or the first letter of `word`. */
  function IsInput(t: string, word: string): bool
    requires word != []
  {
    var lo := Lower(t);
    lo == word || lo == [word[0]]
  }

  predicate IsYes(t: string) { IsInput(t, "yes") }
  predicate IsAll(t: string) { IsInput(t, "all") }
  /** `is_file_all_repairs`. */
  predicate IsFile(t: string) { IsInput(t, "file") }
  /** `is_file_skip`. */
  predicate IsSkip(t: string) { IsInput(t, "skip") }
  predicate IsQuit(t: string) { IsInput(t, "quit") }

  /** Character by character: an answer is the word, or its first letter, in any mix of cases. */
  lemma IsInputByChars(t: string, word: string)
    requires word != []
    ensures IsInput(t, word) <==>
      (|t| == |word| && forall i :: 0 <= i < |t| ==> ToLower(t[i]) == word[i]) ||
      (|t| == 1 && ToLower(t[0]) == word[0])
  {
    var lo := Lower(t);
    if |t| == |word| && forall i :: 0 <= i < |t| ==> ToLower(t[i]) == word[i] {
      assert lo == word;
    }
    if |t| == 1 && ToLower(t[0]) == word[0] {
      assert lo == [word[0]];
    }
  }

  /** Lower-casing twice is lower-casing once. */
  lemma LowerIdempotent(t: string)
    ensures Lower(Lower(t)) == Lower(t)
  {
    assert forall i :: 0 <= i < |t| ==> ToLower(ToLower(t[i])) == ToLower(t[i]);
  }

  /** The case of what the user types does not matter. */
  lemma IsInputIgnoresCase(t: string, word: string)
    requires word != []
    ensures IsInput(Lower(t), word) == IsInput(t, word)
  {
    LowerIdempotent(t);
  }

  /** An answer is one letter long or as long as its word. */
  lemma AnswerLength(t: string, word: string)
    requires word != [] && IsInput(t, word)
    ensures |t| == 1 || |t| == |word|
  {
  }

  /** The five answers exclude each other: their words and their first letters all differ. */
  lemma AnswersExclusive(t: string)
    ensures (if IsYes(t) then 1 else 0) + (if IsAll(t) then 1 else 0) + (if IsFile(t) then 1 else 0) +
      (if IsSkip(t) then 1 else 0) + (if IsQuit(t) then 1 else 0) <= 1
  {
    var lo := Lower(t);
    assert IsYes(t) ==> lo == "yes" || lo == "y";
    assert IsAll(t) ==> lo == "all" || lo == "a";
    assert IsFile(t) ==> lo == "file" || lo == "f";
    assert IsSkip(t) ==> lo == "skip" || lo == "s";
    assert IsQuit(t) ==> lo == "quit" || lo == "q";
  }

  /** An empty line, `n` and `no` are no answer at all: they only decline the one repair. */
  lemma DeclinesAreNoAnswer()
    ensures !IsYes("") && !IsAll("") && !IsFile("") && !IsSkip("") && !IsQuit("")
    ensures !IsYes("n") && !IsAll("n") && !IsFile("n") && !IsSkip("n") && !IsQuit("n")
    ensures !IsYes("no") && !IsAll("no") && !IsFile("no") && !IsSkip("no") && !IsQuit("no")
  {
    assert Lower("n") == "n";
    assert Lower("no") == "no";
  }

  /** Upper-case words and single letters are answers; a longer or shorter word is not. */
  lemma AnswerExamples()
    ensures IsAll("A") && IsAll("ALL") && IsAll("All")
    ensures IsYes("Y") && IsFile("FILE") && IsSkip("s") && IsQuit("Quit")
    ensures !IsYes("ye") && !IsYes("yess")
  {
    assert Lower("A") == "a";
    assert Lower("ALL") == "all";
    assert Lower("All") == "all";
    assert Lower("Y") == "y";
    assert Lower("FILE") == "file";
    assert Lower("s") == "s";
    assert Lower("Quit") == "quit";
  }
}
