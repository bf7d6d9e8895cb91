/**
 * The checks of a note (notes_tool.cpp:497-672).  Each check inspects its
 * own copy of the note and holds a message; it passes when the message is
 * empty.  Here each check is a function from the note to its message.
 */
module Checks {
  import opened Options
  import opened Chars
  import opened Tags
  import opened Filename
  import opened Notes

  /** `BaseCheck::operator bool`: a check passes when its message is empty. */
  predicate Passes(msg: string) {
    msg == []
  }

  /** `HasSubjectFieldCheck`: the header has the subject field. */
  function HasSubjectField(n: NoteValue): (msg: string)
    ensures Passes(msg) <==> SubjectField in n.header
  {
    if SubjectField in n.header then "" else "missing \"" + SubjectField + "\" header"
  }

  /** `HasSubjectFieldCheck::subject`: the subject field's value, or empty when it is missing. */
  function HeaderSubject(n: NoteValue): (s: string)
    ensures SubjectField in n.header ==> s == n.header[SubjectField]
    ensures SubjectField !in n.header ==> s == []
  {
    if SubjectField in n.header then n.header[SubjectField] else ""
  }

  /** `MatchingSubjectsCheck::subject`: the subject from the filename, or empty when there is none. */
  function NameSubject(n: NoteValue): (s: string)
    ensures n.name.subject.Some? ==> s == n.name.subject.value
    ensures n.name.subject.None? ==> s == []
  {
    match n.name.subject
    case Some(s) => s
    case None => ""
  }

  /**
   * `MatchingSubjectsCheck`: when both the subject field and the subject of
   * the filename exist, they are equal.
   */
  function MatchingSubjects(n: NoteValue): (msg: string)
    ensures Passes(msg) <==>
      !(SubjectField in n.header && n.name.subject.Some? && n.name.subject.value != n.header[SubjectField])
  {
    if Passes(HasSubjectField(n)) && n.name.subject.Some? && n.name.subject.value != HeaderSubject(n)
    then "subject mismatch"
    else ""
  }

  /** `NonEmptyAnnexCheck`: an annex directory, when there is one, is not empty. */
  function NonEmptyAnnex(n: NoteValue): (msg: string)
    ensures Passes(msg) <==> n.file.annex.None? || !n.file.annex.value.empty
  {
    match n.file.annex
    case Some(d) => if d.empty then "annex is empty: " + d.path else ""
    case None => ""
  }

  /** `ExtensionCheck`: the file's extension is `.md`. */
  function Extension(n: NoteValue): (msg: string)
    ensures Passes(msg) <==> n.file.ext == ".md"
  {
    if n.file.ext != ".md" then "wrong extension" else ""
  }

  /** `FilenameCheck`: the stem parses as a note name. */
  function FilenameFormat(n: NoteValue): (msg: string)
    ensures Passes(msg) <==> ParseFilename(n.file.stem).0
  {
    if !ParseFilename(n.file.stem).0 then "filename format" else ""
  }

  /** `HasTagsFieldCheck`: the header has the tags field. */
  function HasTagsField(n: NoteValue): (msg: string)
    ensures Passes(msg) <==> TagsField in n.header
  {
    if TagsField !in n.header then "missing \"" + TagsField + "\" header" else ""
  }

  /** `EolCheck`: the text holds no carriage return. */
  function Eol(n: NoteValue): (msg: string)
    ensures Passes(msg) <==> '\r' !in n.text
  {
    if Count(n.text, '\r') != 0 then "CR detected" else ""
  }

  /** `BaseFilenameTagCheck`: a tag taken from the filename, when there is one, is among the note's tags. */
  function FilenameTag(n: NoteValue, tag: Option<string>, desc: string): (msg: string)
    ensures Passes(msg) <==> tag.None? || tag.value in n.tags
  {
    match tag
    case Some(t) => if t !in n.tags then desc + " from filename not found in tags" else ""
    case None => ""
  }

  /** `SphereFilenameTagCheck`. */
  function SphereFilenameTag(n: NoteValue): (msg: string)
    ensures Passes(msg) <==> n.name.sphere.None? || n.name.sphere.value in n.tags
  {
    FilenameTag(n, n.name.sphere, "sphere of life")
  }

  /** `ProjectFilenameTagCheck`. */
  function ProjectFilenameTag(n: NoteValue): (msg: string)
    ensures Passes(msg) <==> n.name.project.None? || n.name.project.value in n.tags
  {
    FilenameTag(n, n.name.project, "project")
  }

  /** The messages of the checks `WarningVisitor::file` runs, in its order. */
  function CheckMessages(n: NoteValue): (ms: seq<string>)
    ensures |ms| == 9
  {
    [NonEmptyAnnex(n), Extension(n), FilenameFormat(n), HasSubjectField(n), HasTagsField(n),
     MatchingSubjects(n), Eol(n), SphereFilenameTag(n), ProjectFilenameTag(n)]
  }

  /** The messages that are not empty, in order. */
  function Failing(ms: seq<string>): (ws: seq<string>)
    ensures |ws| <= |ms|
    ensures forall i :: 0 <= i < |ws| ==> ws[i] != [] && ws[i] in ms
    ensures forall i :: 0 <= i < |ms| && ms[i] != [] ==> ms[i] in ws
    ensures ws == [] <==> forall i :: 0 <= i < |ms| ==> ms[i] == []
  {
    if ms == [] then []
    else
      var rest := Failing(ms[1..]);
      assert forall i :: 1 <= i < |ms| ==> ms[i] == ms[1..][i - 1];
      assert forall i :: 0 <= i < |rest| ==> rest[i] in ms by {
        forall i | 0 <= i < |rest| ensures rest[i] in ms {
          assert rest[i] in ms[1..];
        }
      }
      if ms[0] == [] then rest
      else [ms[0]] + rest
  }

  /** The warning one message gives: itself when the check fails, nothing when it passes. */
  function Flagged(msg: string): (ws: seq<string>)
    ensures ws == [] <==> Passes(msg)
    ensures |ws| <= 1 && forall i :: 0 <= i < |ws| ==> ws[i] == msg
  {
    if msg == [] then [] else [msg]
  }

  /** The failing messages of two runs of checks, one after the other, are those of the first run, then those of the second. */
  lemma {:induction false} FailingConcat(a: seq<string>, b: seq<string>)
    ensures Failing(a + b) == Failing(a) + Failing(b)
    decreases |a|
  {
    if a == [] {
      assert a + b == b;
    } else {
      assert (a + b)[1..] == a[1..] + b;
      FailingConcat(a[1..], b);
    }
  }

  /** The warnings `WarningVisitor::file` prints for a note: the message of every check that fails, in order. */
  function Warnings(n: NoteValue): (ws: seq<string>)
    ensures |ws| <= 9
    ensures forall i :: 0 <= i < |ws| ==> ws[i] != [] && ws[i] in CheckMessages(n)
    ensures forall i :: 0 <= i < 9 && !Passes(CheckMessages(n)[i]) ==> CheckMessages(n)[i] in ws
  {
    Failing(CheckMessages(n))
  }

  /** The warnings of a note are the flagged messages of the nine checks, in the order they run. */
  lemma {:induction false} WarningsInOrder(n: NoteValue)
    ensures Warnings(n) ==
      Flagged(NonEmptyAnnex(n)) + (Flagged(Extension(n)) + (Flagged(FilenameFormat(n)) +
      (Flagged(HasSubjectField(n)) + (Flagged(HasTagsField(n)) + (Flagged(MatchingSubjects(n)) +
      (Flagged(Eol(n)) + (Flagged(SphereFilenameTag(n)) + Flagged(ProjectFilenameTag(n)))))))))
  {
    var ms := CheckMessages(n);
    FailingSplit(ms);
  }

  /** The failing messages of nine checks, message by message. */
  lemma FailingSplit(ms: seq<string>)
    requires |ms| == 9
    ensures Failing(ms) ==
      Flagged(ms[0]) + (Flagged(ms[1]) + (Flagged(ms[2]) + (Flagged(ms[3]) + (Flagged(ms[4]) +
      (Flagged(ms[5]) + (Flagged(ms[6]) + (Flagged(ms[7]) + Flagged(ms[8]))))))))
  {
    assert Failing(ms[8..]) == Flagged(ms[8]) by {
      FailingCons(ms[8..]);
      assert ms[8..][1..] == [];
    }
    assert Failing(ms[7..]) == Flagged(ms[7]) + Failing(ms[8..]) by {
      FailingCons(ms[7..]);
      assert ms[7..][1..] == ms[8..];
    }
    assert Failing(ms[6..]) == Flagged(ms[6]) + Failing(ms[7..]) by {
      FailingCons(ms[6..]);
      assert ms[6..][1..] == ms[7..];
    }
    assert Failing(ms[5..]) == Flagged(ms[5]) + Failing(ms[6..]) by {
      FailingCons(ms[5..]);
      assert ms[5..][1..] == ms[6..];
    }
    assert Failing(ms[4..]) == Flagged(ms[4]) + Failing(ms[5..]) by {
      FailingCons(ms[4..]);
      assert ms[4..][1..] == ms[5..];
    }
    assert Failing(ms[3..]) == Flagged(ms[3]) + Failing(ms[4..]) by {
      FailingCons(ms[3..]);
      assert ms[3..][1..] == ms[4..];
    }
    assert Failing(ms[2..]) == Flagged(ms[2]) + Failing(ms[3..]) by {
      FailingCons(ms[2..]);
      assert ms[2..][1..] == ms[3..];
    }
    assert Failing(ms[1..]) == Flagged(ms[1]) + Failing(ms[2..]) by {
      FailingCons(ms[1..]);
      assert ms[1..][1..] == ms[2..];
    }
    assert Failing(ms[0..]) == Flagged(ms[0]) + Failing(ms[1..]) by {
      FailingCons(ms[0..]);
      assert ms[0..][1..] == ms[1..];
    }
    assert ms[0..] == ms;
  }

  /** The first message is flagged ahead of the failing messages after it. */
  lemma FailingCons(ms: seq<string>)
    requires ms != []
    ensures Failing(ms) == Flagged(ms[0]) + Failing(ms[1..])
  {
  }

  /** A note draws no warning exactly when every check passes. */
  lemma NoWarningsIffAllPass(n: NoteValue)
    ensures Warnings(n) == [] <==>
      (n.file.annex.None? || !n.file.annex.value.empty) &&
      n.file.ext == ".md" &&
      ParseFilename(n.file.stem).0 &&
      SubjectField in n.header &&
      TagsField in n.header &&
      (n.name.subject.Some? ==> n.name.subject.value == n.header[SubjectField]) &&
      '\r' !in n.text &&
      (n.name.sphere.Some? ==> n.name.sphere.value in n.tags) &&
      (n.name.project.Some? ==> n.name.project.value in n.tags)
  {
    AllEmptyOfNine(CheckMessages(n));
  }

  /** Nine messages are all empty exactly when each one is. */
  lemma AllEmptyOfNine(ms: seq<string>)
    requires |ms| == 9
    ensures (forall i :: 0 <= i < |ms| ==> ms[i] == []) <==>
      ms[0] == [] && ms[1] == [] && ms[2] == [] && ms[3] == [] && ms[4] == [] &&
      ms[5] == [] && ms[6] == [] && ms[7] == [] && ms[8] == []
  {
  }

  /**
   * A well-named note: the stem parses, and the header's subject and tags
   * agree with it.  Only the annex, the extension and carriage returns are
   * then left to check.
   */
  lemma WellNamedNoteWarnings(n: NoteValue, t1: string, t2: string, r: string)
    requires WellFormed(n.file.stem, t1, t2, r)
    requires n.name == ParseFilename(n.file.stem).1
    requires SubjectField in n.header && n.header[SubjectField] == r
    requires TagsField in n.header && "#" + t1 in n.tags && "#" + t2 in n.tags
    requires n.file.annex.None? && n.file.ext == ".md" && '\r' !in n.text
    ensures Warnings(n) == []
  {
    ParseWellFormed(n.file.stem, t1, t2, r);
    NoWarningsIffAllPass(n);
  }

  /** A subject field that differs from the filename's subject draws exactly the mismatch warning among the subject checks. */
  lemma MismatchExample(n: NoteValue)
    requires n.name.subject == Some("sub") && n.header == map[SubjectField := "other"]
    ensures MatchingSubjects(n) == "subject mismatch" && HasSubjectField(n) == ""
  {
  }

  /** A stem that does not parse leaves no subject to compare: the subject check passes. */
  lemma NoSubjectNoMismatch(n: NoteValue)
    requires n.name == ParseFilename(n.file.stem).1 && !ParseFilename(n.file.stem).0
    ensures Passes(MatchingSubjects(n))
  {
  }
}
