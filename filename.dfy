/**
 * The filename grammar of `parse_filename` (notes_tool.cpp:199-222): a stem
 * matches `(\S+) (\S+) ([\S ]+)` — two runs of non-whitespace, each followed
 * by exactly one space, then a subject made of non-whitespace characters and
 * spaces — and the subject must not start or end with whitespace.  The
 * sphere and the project are the two runs with `#` in front.
 */
module Filename {
  import opened Chars
  import opened Options

  /** The parts of a filename; `None` for a part that was not assigned. */
  datatype Name = Name(sphere: Option<string>, project: Option<string>, subject: Option<string>)

  /** A default-constructed `Name`, which is what `parse_filename` starts from. */
  const NoName := Name(None, None, None)

  /** The characters `[\S ]` allows in the subject: non-whitespace or a space. */
  predicate SubjectChars(r: string) {
    forall i :: 0 <= i < |r| ==> !IsWs(r[i]) || r[i] == ' '
  }

  /** `stem` matches the regular expression with the groups `t1`, `t2` and `r`. */
  predicate Matches(stem: string, t1: string, t2: string, r: string) {
    stem == t1 + " " + t2 + " " + r &&
    t1 != [] && NoWs(t1) &&
    t2 != [] && NoWs(t2) &&
    r != [] && SubjectChars(r)
  }

  /**
   * The regular-expression match written as a split: the first group ends at
   * the first whitespace, which must be a space; so does the second; the
   * rest is the third.  The match, when there is one, is the only one.
   */
  function SplitStem(stem: string): (m: Option<(string, string, string)>)
    ensures m.Some? ==> Matches(stem, m.value.0, m.value.1, m.value.2)
    ensures forall t1, t2, r :: Matches(stem, t1, t2, r) ==> m == Some((t1, t2, r))
  {
    var i := RunEnd(stem);
    if i == 0 || i == |stem| || stem[i] != ' ' then
      NoMatchAfterBadFirstRun(stem);
      None
    else
      var rest := stem[i + 1..];
      var j := RunEnd(rest);
      if j == 0 || j == |rest| || rest[j] != ' ' then
        NoMatchAfterBadSecondRun(stem, i);
        None
      else
        var r := rest[j + 1..];
        if r == [] || !SubjectChars(r) then
          NoMatchAfterBadSubject(stem, i, j);
          None
        else
          assert stem == stem[..i] + " " + rest[..j] + " " + r;
          MatchUnique(stem, stem[..i], rest[..j], r);
          Some((stem[..i], rest[..j], r))
  }

  /** In a match, the first group is the leading run of the stem. */
  lemma MatchFirstRun(stem: string, t1: string, t2: string, r: string)
    requires Matches(stem, t1, t2, r)
    ensures RunEnd(stem) == |t1| && stem[|t1|] == ' '
    ensures stem[|t1| + 1..] == t2 + " " + r
    ensures RunEnd(stem[|t1| + 1..]) == |t2| && stem[|t1| + 1..][|t2|] == ' '
    ensures stem[|t1| + 1..][|t2| + 1..] == r
  {
    assert stem == t1 + " " + (t2 + " " + r);
    RunThenSpace(stem, t1, t2 + " " + r);
    RunThenSpace(t2 + " " + r, t2, r);
  }

  /** A word followed by a space and `rest`: the leading run is the word, and `rest` follows the space. */
  lemma RunThenSpace(s: string, w: string, rest: string)
    requires s == w + " " + rest && NoWs(w)
    ensures RunEnd(s) == |w| && s[|w|] == ' ' && s[|w| + 1..] == rest
  {
    assert s == w + (" " + rest);
    RunEndConcat(w, " " + rest);
  }

  lemma MatchUnique(stem: string, t1: string, t2: string, r: string)
    requires Matches(stem, t1, t2, r)
    ensures forall a, b, c :: Matches(stem, a, b, c) ==> a == t1 && b == t2 && c == r
  {
    forall a, b, c | Matches(stem, a, b, c) ensures a == t1 && b == t2 && c == r {
      MatchFirstRun(stem, a, b, c);
      MatchFirstRun(stem, t1, t2, r);
      assert a == stem[..|a|] && t1 == stem[..|t1|];
      var rest := stem[|t1| + 1..];
      assert b == rest[..|b|] && t2 == rest[..|t2|];
    }
  }

  lemma NoMatchAfterBadFirstRun(stem: string)
    requires RunEnd(stem) == 0 || RunEnd(stem) == |stem| || stem[RunEnd(stem)] != ' '
    ensures forall t1, t2, r :: !Matches(stem, t1, t2, r)
  {
    forall t1, t2, r | Matches(stem, t1, t2, r) ensures false {
      MatchFirstRun(stem, t1, t2, r);
    }
  }

  lemma NoMatchAfterBadSecondRun(stem: string, i: nat)
    requires i == RunEnd(stem) && 0 < i < |stem| && stem[i] == ' '
    requires var rest := stem[i + 1..];
      RunEnd(rest) == 0 || RunEnd(rest) == |rest| || rest[RunEnd(rest)] != ' '
    ensures forall t1, t2, r :: !Matches(stem, t1, t2, r)
  {
    forall t1, t2, r | Matches(stem, t1, t2, r) ensures false {
      MatchFirstRun(stem, t1, t2, r);
    }
  }

  lemma NoMatchAfterBadSubject(stem: string, i: nat, j: nat)
    requires i == RunEnd(stem) && 0 < i < |stem| && stem[i] == ' '
    requires var rest := stem[i + 1..];
      j == RunEnd(rest) && 0 < j < |rest| && rest[j] == ' ' &&
      (rest[j + 1..] == [] || !SubjectChars(rest[j + 1..]))
    ensures forall t1, t2, r :: !Matches(stem, t1, t2, r)
  {
    forall t1, t2, r | Matches(stem, t1, t2, r) ensures false {
      MatchFirstRun(stem, t1, t2, r);
    }
  }

  /**
   * `parse_filename`: the flag says whether the stem is a well-formed note
   * name.  When the regular expression matches but the subject starts or ends
   * with whitespace, the sphere and the project are already assigned.
   */
  function ParseFilename(stem: string): (bool, Name) {
    match SplitStem(stem)
    case None => (false, NoName)
    case Some((t1, t2, r)) =>
      var partial := Name(Some("#" + t1), Some("#" + t2), None);
      if IsWs(r[0]) || IsWs(r[|r| - 1]) then (false, partial)
      else (true, partial.(subject := Some(r)))
  }

  /** A well-formed stem: the grammar together with the check on the subject's ends. */
  predicate WellFormed(stem: string, t1: string, t2: string, r: string) {
    Matches(stem, t1, t2, r) && r[0] != ' ' && r[|r| - 1] != ' '
  }

  /** Every well-formed stem parses, to `#t1`, `#t2` and the subject `r`. */
  lemma {:induction false} ParseWellFormed(stem: string, t1: string, t2: string, r: string)
    requires WellFormed(stem, t1, t2, r)
    ensures ParseFilename(stem) == (true, Name(Some("#" + t1), Some("#" + t2), Some(r)))
  {
    assert SplitStem(stem) == Some((t1, t2, r));
  }

  /** A stem that parses is well-formed, and the name holds its three parts. */
  lemma {:induction false} ParsedIsWellFormed(stem: string)
    requires ParseFilename(stem).0
    ensures exists t1, t2, r ::
      WellFormed(stem, t1, t2, r) && ParseFilename(stem).1 == Name(Some("#" + t1), Some("#" + t2), Some(r))
  {
    var m := SplitStem(stem);
    var (t1, t2, r) := m.value;
    assert WellFormed(stem, t1, t2, r);
  }

  /**
   * The names are not all-or-nothing: a stem that matches the regular
   * expression but whose subject starts or ends with a space fails with the
   * sphere and the project assigned and no subject.
   */
  lemma {:induction false} SubjectSpaceKeepsSphereAndProject(stem: string, t1: string, t2: string, r: string)
    requires Matches(stem, t1, t2, r)
    requires r[0] == ' ' || r[|r| - 1] == ' '
    ensures ParseFilename(stem) == (false, Name(Some("#" + t1), Some("#" + t2), None))
  {
    assert SplitStem(stem) == Some((t1, t2, r));
  }

  /** When no part of the stem matches, the name stays empty. */
  lemma NoMatchLeavesNameEmpty(stem: string)
    requires forall t1, t2, r :: !Matches(stem, t1, t2, r)
    ensures ParseFilename(stem) == (false, NoName)
  {
  }

  /** Every character of a matching stem is a non-whitespace character or a space. */
  lemma MatchedStemChars(stem: string, t1: string, t2: string, r: string)
    requires Matches(stem, t1, t2, r)
    ensures SubjectChars(stem) && !IsWs(stem[0])
  {
  }

  /** A tab, carriage return, line feed or any whitespace other than a space makes the stem fail. */
  lemma OtherWhitespaceFails(stem: string, k: nat)
    requires k < |stem| && IsWs(stem[k]) && stem[k] != ' '
    ensures ParseFilename(stem) == (false, NoName)
  {
    if SplitStem(stem).Some? {
      var m := SplitStem(stem).value;
      MatchedStemChars(stem, m.0, m.1, m.2);
    }
  }

  /** A stem that starts with a space fails. */
  lemma LeadingSpaceFails(stem: string)
    requires stem != [] && stem[0] == ' '
    ensures ParseFilename(stem) == (false, NoName)
  {
    if SplitStem(stem).Some? {
      var m := SplitStem(stem).value;
      MatchedStemChars(stem, m.0, m.1, m.2);
    }
  }

  /** A stem that ends with a space (a subject ending in a space) fails. */
  lemma TrailingSpaceFails(stem: string)
    requires stem != [] && stem[|stem| - 1] == ' '
    ensures !ParseFilename(stem).0
  {
  }

  /** Two spaces between the sphere and the project make the stem fail. */
  lemma DoubleSpaceAfterSphereFails(t1: string, rest: string)
    requires t1 != [] && NoWs(t1)
    ensures ParseFilename(t1 + "  " + rest) == (false, NoName)
  {
    var stem := t1 + "  " + rest;
    assert stem == t1 + " " + (" " + rest);
    RunThenSpace(stem, t1, " " + rest);
    assert RunEnd(" " + rest) == 0;
  }

  /**
   * Two spaces between the project and the subject: the subject then starts
   * with a space, so the stem fails with the sphere and the project assigned.
   */
  lemma DoubleSpaceAfterProjectFails(t1: string, t2: string, rest: string)
    requires t1 != [] && NoWs(t1) && t2 != [] && NoWs(t2)
    requires SubjectChars(rest)
    ensures ParseFilename(t1 + " " + t2 + "  " + rest) == (false, Name(Some("#" + t1), Some("#" + t2), None))
  {
    var r := " " + rest;
    assert t1 + " " + t2 + "  " + rest == t1 + " " + t2 + " " + r;
    SubjectSpaceKeepsSphereAndProject(t1 + " " + t2 + " " + r, t1, t2, r);
  }

  /** A stem with a sphere and a project but no subject fails. */
  lemma NoSubjectFails(t1: string, t2: string)
    requires NoWs(t1) && NoWs(t2)
    ensures ParseFilename(t1 + " " + t2) == (false, NoName)
  {
    var stem := t1 + " " + t2;
    if t1 != [] {
      assert stem == t1 + (" " + t2);
      RunEndConcat(t1, " " + t2);
      assert stem[|t1| + 1..] == t2;
      RunEndConcat(t2, []);
      assert t2 + [] == t2;
    }
  }

  /** A stem that is a single run of non-whitespace (no project) fails. */
  lemma NoProjectFails(t1: string)
    requires NoWs(t1)
    ensures ParseFilename(t1) == (false, NoName)
  {
    RunEndConcat(t1, []);
    assert t1 + [] == t1;
  }

  /** Three words joined by single spaces parse to their parts when the subject has no space at either end. */
  lemma ParseWords(t1: string, t2: string, r: string)
    requires t1 != [] && NoWs(t1) && t2 != [] && NoWs(t2)
    requires r != [] && SubjectChars(r) && r[0] != ' ' && r[|r| - 1] != ' '
    ensures ParseFilename(t1 + " " + t2 + " " + r) == (true, Name(Some("#" + t1), Some("#" + t2), Some(r)))
  {
    ParseWellFormed(t1 + " " + t2 + " " + r, t1, t2, r);
  }

  /** The words of the unit test `simple`. */
  lemma SimpleWords()
    ensures NoWs("inro") && NoWs("desktop") && SubjectChars("The subject")
  {
    assert "The subject"[3] == ' ';
  }

  /** The unit test `simple`. */
  lemma ParseSimpleExample()
    ensures ParseFilename("inro" + " " + "desktop" + " " + "The subject")
      == (true, Name(Some("#" + "inro"), Some("#" + "desktop"), Some("The subject")))
  {
    SimpleWords();
    ParseWords("inro", "desktop", "The subject");
  }

  /** The words of the unit test `accented`. */
  lemma AccentedWords()
    ensures SubjectChars("Arrêt")
  {
  }

  /** The unit test `accented`: accented letters are ordinary characters. */
  lemma ParseAccentedExample()
    ensures ParseFilename("inro" + " " + "desktop" + " " + "Arrêt")
      == (true, Name(Some("#" + "inro"), Some("#" + "desktop"), Some("Arrêt")))
  {
    SimpleWords();
    AccentedWords();
    ParseWords("inro", "desktop", "Arrêt");
  }

  /** The words of the unit test `any_character`. */
  lemma PunctuationWords()
    ensures NoWs("+=*\\") && NoWs("d!@#$%^&()") && SubjectChars("~`|,.<>{}[]")
  {
  }

  /** The unit test `any_character`: punctuation and `#` are ordinary characters. */
  lemma ParseAnyCharacterExample()
    ensures ParseFilename("+=*\\" + " " + "d!@#$%^&()" + " " + "~`|,.<>{}[]")
      == (true, Name(Some("#" + "+=*\\"), Some("#" + "d!@#$%^&()"), Some("~`|,.<>{}[]")))
  {
    PunctuationWords();
    ParseWords("+=*\\", "d!@#$%^&()", "~`|,.<>{}[]");
  }

  /** The unit tests in which `parse_filename` fails for a missing part. */
  lemma ParseMissingPartExamples()
    ensures !ParseFilename("").0
    ensures !ParseFilename("inro" + " " + "desktop").0
    ensures !ParseFilename("inro").0
    ensures !ParseFilename(".md").0
  {
    SimpleWords();
    NoProjectFails("");
    NoSubjectFails("inro", "desktop");
    NoProjectFails("inro");
    NoProjectFails(".md");
  }

  /** The unit tests in which `parse_filename` fails for a misplaced space. */
  lemma ParseSpaceExamples()
    ensures !ParseFilename(" " + "inro desktop Arrêt").0
    ensures !ParseFilename("inro desktop Arrêt" + " ").0
    ensures !ParseFilename("inro" + "  " + "desktop Two spaces").0
  {
    LeadingSpaceFails(" " + "inro desktop Arrêt");
    TrailingSpaceFails("inro desktop Arrêt" + " ");
    DoubleSpaceAfterSphereFails("inro", "desktop Two spaces");
  }

  /** The unit tests in which two spaces precede the subject. */
  lemma ParseDoubleSpaceExamples()
    ensures !ParseFilename("inro" + " " + "desktop" + "  " + "Two spaces").0
    ensures !ParseFilename("inro" + " " + "desktop" + "  " + "").0
  {
    DoubleSpaceAfterProjectFails("inro", "desktop", "Two spaces");
    DoubleSpaceAfterProjectFails("inro", "desktop", "");
  }

  /** The unit tests in which a tab, a carriage return or a line feed makes `parse_filename` fail. */
  lemma ParseOtherWhitespaceExamples()
    ensures !ParseFilename("in" + "\t" + "ro desktop OK").0
    ensures !ParseFilename("in" + "\r" + "ro desktop OK").0
    ensures !ParseFilename("in" + "\n" + "ro desktop OK").0
  {
    OtherWhitespaceFails("in" + "\t" + "ro desktop OK", 2);
    OtherWhitespaceFails("in" + "\r" + "ro desktop OK", 2);
    OtherWhitespaceFails("in" + "\n" + "ro desktop OK", 2);
  }
}
