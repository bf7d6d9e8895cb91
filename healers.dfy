/**
 * The repairs (notes_tool.cpp:674-793).  A healer checks a note when it is
 * built; it is satisfied when its checks pass, it has a message otherwise,
 * and its `heal` edits the note and writes it.  Here the edit is a function
 * from the note to the edited note; writing is `Note::write`.
 */
module Healers {
  import opened Options
  import opened Chars
  import opened Order
  import opened Tags
  import opened Filename
  import opened HeaderField
  import opened NoteText
  import opened Notes
  import opened Checks

  datatype Healer = EolHealer | SubjectHealer | TagsHealer

  /** `operator bool` of each healer: nothing for it to repair. */
  predicate Satisfied(k: Healer, n: NoteValue) {
    match k
    case EolHealer => Passes(Eol(n))
    case SubjectHealer => Passes(HasSubjectField(n)) && Passes(MatchingSubjects(n))
    case TagsHealer =>
      // A stem that does not parse gives nothing to repair the tags from.
      Passes(FilenameFormat(n)) ==>
        Passes(HasTagsField(n)) && Passes(SphereFilenameTag(n)) && Passes(ProjectFilenameTag(n))
  }

  /** `message()` of each healer: empty exactly when the healer is satisfied. */
  function Message(k: Healer, n: NoteValue): (msg: string)
    ensures Passes(msg) <==> Satisfied(k, n)
  {
    match k
    case EolHealer => Eol(n)
    case SubjectHealer =>
      if !Passes(HasSubjectField(n)) then HasSubjectField(n) else MatchingSubjects(n)
    case TagsHealer =>
      if !Passes(FilenameFormat(n)) then ""
      else if !Passes(HasTagsField(n)) then HasTagsField(n)
      else if !Passes(SphereFilenameTag(n)) || !Passes(ProjectFilenameTag(n)) then "tag(s) from filename are missing"
      else ""
  }

  // ----- the edits -----

  /** `boost::algorithm::erase_all(s, "\r")`: `s` without its carriage returns, in order. */
  function EraseCr(s: string): (r: string)
    ensures '\r' !in r
    ensures '\r' !in s ==> r == s
  {
    if s == [] then []
    else
      assert s == [s[0]] + s[1..];
      (if s[0] == '\r' then [] else [s[0]]) + EraseCr(s[1..])
  }

  /** Erasing carriage returns keeps every other character, as often as it occurs. */
  lemma {:induction false} EraseCrKeepsOthers(s: string)
    ensures multiset(EraseCr(s)) == multiset(s)['\r' := 0]
  {
    if s != [] {
      EraseCrKeepsOthers(s[1..]);
      assert s == [s[0]] + s[1..];
      assert multiset(s) == multiset([s[0]]) + multiset(s[1..]);
    }
  }

  /** `EolHealer::heal`, on the note: carriage returns leave the text and the body. */
  function HealEol(n: NoteValue): (r: NoteValue)
    ensures Satisfied(EolHealer, r) && '\r' !in r.body
    ensures r.file == n.file && r.name == n.name && r.header == n.header && r.tags == n.tags
    ensures multiset(r.body) == multiset(n.body)['\r' := 0]
  {
    EraseCrKeepsOthers(n.body);
    n.(text := EraseCr(n.text), body := EraseCr(n.body))
  }

  /** `SubjectFieldHealer::heal`, on the note: the subject field takes the filename's subject (empty when there is none). */
  function HealSubject(n: NoteValue): (r: NoteValue)
    ensures Satisfied(SubjectHealer, r)
    ensures SubjectField in r.header && r.header[SubjectField] == NameSubject(n)
    ensures forall k :: k != SubjectField ==> (k in r.header <==> k in n.header)
    ensures forall k :: k != SubjectField && k in n.header ==> r.header[k] == n.header[k]
    ensures r.file == n.file && r.name == n.name && r.text == n.text && r.body == n.body && r.tags == n.tags
  {
    n.(header := n.header[SubjectField := NameSubject(n)])
  }

  /**
   * `TagsFieldHealer::heal`, on the note: the sphere and the project join the
   * tags, and the tags field is printed from the new set.  It dereferences
   * both name parts.
   */
  function HealTags(n: NoteValue): (r: NoteValue)
    requires n.name.sphere.Some? && n.name.project.Some?
    ensures Satisfied(TagsHealer, r)
    ensures r.tags == n.tags + {n.name.sphere.value, n.name.project.value}
    ensures TagsField in r.header && r.header[TagsField] == PrintTagsSpec(r.tags)
    ensures forall k :: k != TagsField ==> (k in r.header <==> k in n.header)
    ensures forall k :: k != TagsField && k in n.header ==> r.header[k] == n.header[k]
    ensures r.file == n.file && r.name == n.name && r.text == n.text && r.body == n.body
  {
    var tags := n.tags + {n.name.sphere.value, n.name.project.value};
    n.(tags := tags, header := n.header[TagsField := PrintTagsSpec(tags)])
  }

  /** `heal()` of each healer. */
  function Heal(k: Healer, n: NoteValue): (r: NoteValue)
    requires k == TagsHealer ==> n.name.sphere.Some? && n.name.project.Some?
    ensures Satisfied(k, r)
    ensures r.file == n.file && r.name == n.name
  {
    match k
    case EolHealer => HealEol(n)
    case SubjectHealer => HealSubject(n)
    case TagsHealer => HealTags(n)
  }

  // ----- when the repairs apply -----

  /** The tags healer is only ever unsatisfied about a note whose stem parsed, so both name parts exist. */
  lemma UnsatisfiedTagsHaveNames(n: NoteValue)
    requires n.name == ParseFilename(n.file.stem).1
    requires !Satisfied(TagsHealer, n)
    ensures n.name.sphere.Some? && n.name.project.Some? && n.name.subject.Some?
  {
    ParsedIsWellFormed(n.file.stem);
  }

  /** A later repair does not undo an earlier one: the tags repair keeps a satisfied subject. */
  lemma HealTagsKeepsSubject(n: NoteValue)
    requires n.name.sphere.Some? && n.name.project.Some?
    requires Satisfied(SubjectHealer, n)
    ensures Satisfied(SubjectHealer, HealTags(n))
  {
    assert SubjectField != TagsField;
  }

  /** Repairing a satisfied subject leaves the header as it was. */
  lemma HealSubjectSatisfiedNoOp(n: NoteValue)
    requires n.name.subject.Some? && Satisfied(SubjectHealer, n)
    ensures HealSubject(n).header == n.header
  {
  }

  // ----- what the written file holds -----

  /**
   * Each part of the filename is a word: the sphere and the project are runs
   * of non-whitespace, the subject is trimmed and holds no whitespace but
   * spaces.  Line and paragraph separators are not whitespace in the C
   * locale, so a part holds one exactly when the stem does there; a stem
   * without any gives parts without any.
   */
  lemma NamePartsAreWords(stem: string)
    ensures var nm := ParseFilename(stem).1;
      (nm.sphere.Some? ==> nm.sphere.value != [] && NoWs(nm.sphere.value)) &&
      (nm.project.Some? ==> nm.project.value != [] && NoWs(nm.project.value)) &&
      (nm.subject.Some? ==> IsTrimmed(nm.subject.value) && SubjectChars(nm.subject.value))
    ensures var nm := ParseFilename(stem).1;
      NoLineEnd(stem) ==>
        (nm.sphere.Some? ==> NoLineEnd(nm.sphere.value)) &&
        (nm.project.Some? ==> NoLineEnd(nm.project.value)) &&
        (nm.subject.Some? ==> NoLineEnd(nm.subject.value))
  {
    match SplitStem(stem)
    case None =>
    case Some((t1, t2, r)) =>
      assert NoWs("#");
      StemPartsOneLine(stem, t1, t2, r);
  }

  /** The parts of a stem without line terminators hold none, and neither do the sphere and project built from them. */
  lemma StemPartsOneLine(stem: string, t1: string, t2: string, r: string)
    requires stem == t1 + " " + t2 + " " + r
    ensures NoLineEnd(stem) ==> NoLineEnd("#" + t1) && NoLineEnd("#" + t2) && NoLineEnd(r)
  {
    if NoLineEnd(stem) {
      NoLineEndConcat(t1 + " " + t2 + " ", r);
      NoLineEndConcat(t1 + " " + t2, " ");
      NoLineEndConcat(t1 + " ", t2);
      NoLineEndConcat(t1, " ");
      NoLineEndConcat("#", t1);
      NoLineEndConcat("#", t2);
    }
  }

  /** The words of `Join` are separated by single spaces and hold no other whitespace. */
  lemma {:induction false} JoinChars(xs: seq<string>)
    requires forall k :: 0 <= k < |xs| ==> xs[k] != [] && NoWs(xs[k])
    ensures forall i :: 0 <= i < |Join(xs)| ==> Join(xs)[i] == ' ' || !IsWs(Join(xs)[i])
    ensures xs != [] ==> Join(xs) != [] && Join(xs)[0] == xs[0][0]
  {
    if |xs| > 1 {
      JoinChars(xs[1..]);
      var j := Join(xs);
      var tail := Join(xs[1..]);
      assert j == xs[0] + " " + tail;
      forall i | 0 <= i < |j| ensures j[i] == ' ' || !IsWs(j[i]) {
        if i < |xs[0]| {
          assert j[i] == xs[0][i];
        } else if i > |xs[0]| {
          assert j[i] == tail[i - |xs[0]| - 1];
        }
      }
    }
  }

  /**
   * When every tag is a word, the printed tags field has a trimmed body
   * without line feeds, and it is a valid field exactly when no tag holds a
   * line terminator.
   */
  lemma PrintedTagsFieldGood(tags: set<string>)
    requires forall t :: t in tags ==> t != [] && NoWs(t)
    ensures IsTrimmed(PrintTagsSpec(tags)) && NoLf(PrintTagsSpec(tags))
    ensures GoodField(Field(TagsField, PrintTagsSpec(tags))) <==> forall t :: t in tags ==> NoLineEnd(t)
  {
    var xs := SortedElems(tags);
    forall k | 0 <= k < |xs| ensures xs[k] != [] && NoWs(xs[k]) {
      assert xs[k] in tags;
    }
    JoinedWordsGood(xs);
    TagsFieldNameGood();
    if forall k :: 0 <= k < |xs| ==> NoLineEnd(xs[k]) {
      forall t | t in tags ensures NoLineEnd(t) {
        assert t in xs;
      }
    } else {
      var k :| 0 <= k < |xs| && !NoLineEnd(xs[k]);
      assert xs[k] in tags;
    }
  }

  /**
   * Words joined by single spaces form a trimmed body without line feeds,
   * on one line exactly when every word is.
   */
  lemma JoinedWordsGood(xs: seq<string>)
    requires forall k :: 0 <= k < |xs| ==> xs[k] != [] && NoWs(xs[k])
    ensures IsTrimmed(Join(xs)) && NoLf(Join(xs))
    ensures NoLineEnd(Join(xs)) <==> forall k :: 0 <= k < |xs| ==> NoLineEnd(xs[k])
  {
    JoinChars(xs);
    JoinNoLineEnd(xs);
    if xs != [] {
      JoinLast(xs);
      assert !IsWs(xs[0][0]);
      assert !IsWs(xs[|xs| - 1][|xs[|xs| - 1]| - 1]);
    }
  }

  /** A joined string holds a line terminator exactly when one of its words does. */
  lemma {:induction false} JoinNoLineEnd(xs: seq<string>)
    ensures NoLineEnd(Join(xs)) <==> forall k :: 0 <= k < |xs| ==> NoLineEnd(xs[k])
  {
    if |xs| > 1 {
      JoinNoLineEnd(xs[1..]);
      NoLineEndConcat(xs[0] + " ", Join(xs[1..]));
      NoLineEndConcat(xs[0], " ");
      assert forall k :: 1 <= k < |xs| ==> xs[k] == xs[1..][k - 1];
    }
  }

  /** The name of the tags field is a word. */
  lemma TagsFieldNameGood()
    ensures TagsField != [] && NoWs(TagsField)
  {
  }

  /**
   * The subject the subject repair writes is trimmed and has no line feed;
   * it makes a valid field exactly when it holds no line terminator.
   */
  lemma SubjectFieldGood(n: NoteValue)
    requires n.name == ParseFilename(n.file.stem).1
    ensures IsTrimmed(NameSubject(n)) && NoLf(NameSubject(n))
    ensures GoodField(Field(SubjectField, NameSubject(n))) <==> NoLineEnd(NameSubject(n))
  {
    NamePartsAreWords(n.file.stem);
    assert NoWs(SubjectField);
    var s := NameSubject(n);
    forall i | 0 <= i < |s| ensures s[i] != '\n' {
      assert IsWs('\n');
    }
  }

  /** `JoinLines` adds only line feeds. */
  lemma {:induction false} JoinLinesNoCr(ls: seq<string>)
    requires forall i :: 0 <= i < |ls| ==> '\r' !in ls[i]
    ensures '\r' !in JoinLines(ls)
  {
    if ls != [] {
      JoinLinesNoCr(ls[1..]);
    }
  }

  /** A printed note holds no carriage return when its body holds none. */
  lemma SerializeNoCr(h: map<string, string>, body: string)
    requires GoodHeader(h) && '\r' !in body
    ensures '\r' !in Serialize(h, body)
  {
    var fl := FieldLines(h);
    FieldLinesNoCr(h);
    var ls := fl + (if h == map[] then [] else [""]);
    forall i | 0 <= i < |ls| ensures '\r' !in ls[i] {
      if i < |fl| {
        assert ls[i] == fl[i];
      }
    }
    JoinLinesNoCr(ls);
    NoCrConcat(JoinLines(ls), body);
  }

  /** The field lines of a header as parsing builds it hold no carriage return. */
  lemma FieldLinesNoCr(h: map<string, string>)
    requires GoodHeader(h)
    ensures forall i :: 0 <= i < |FieldLines(h)| ==> '\r' !in FieldLines(h)[i]
  {
    var keys := SortedElems(h.Keys);
    forall i | 0 <= i < |FieldLines(h)| ensures '\r' !in FieldLines(h)[i] {
      assert keys[i] in h;
      FieldLineNoCr(keys[i], h[keys[i]]);
    }
  }

  /** A well-formed field prints as a line with no carriage return. */
  lemma FieldLineNoCr(name: string, body: string)
    requires GoodField(Field(name, body))
    ensures '\r' !in FieldLine(name, body)
  {
    var l := FieldLine(name, body);
    forall i | 0 <= i < |l| ensures l[i] != '\r' {
      if i < |name| {
        assert l[i] == name[i];
      } else if i >= |name| + 2 {
        assert l[i] == body[i - |name| - 2];
      }
    }
  }

  lemma NoCrConcat(a: string, b: string)
    requires '\r' !in a && '\r' !in b
    ensures '\r' !in a + b
  {
  }

  /** The line-end repair holds once the file is reloaded: the written text has no carriage return. */
  lemma EolHealDurable(n: NoteValue)
    requires GoodHeader(n.header)
    ensures Satisfied(EolHealer, Reloaded(HealEol(n)))
  {
    SerializeNoCr(n.header, HealEol(n).body);
  }

  /** Erasing carriage returns distributes over concatenation. */
  lemma {:induction false} EraseCrConcat(a: string, b: string)
    ensures EraseCr(a + b) == EraseCr(a) + EraseCr(b)
  {
    if a == [] {
      assert a + b == b;
    } else {
      var c, tail := a[0], a[1..];
      assert a == [c] + tail && a + b == [c] + (tail + b);
      EraseCrCons(c, tail + b);
      EraseCrCons(c, tail);
      EraseCrConcat(tail, b);
      AppendAssoc(if c == '\r' then [] else [c], EraseCr(tail), EraseCr(b));
    }
  }

  /** Erasing from a string that starts with `c`: `c` goes exactly when it is a carriage return. */
  lemma EraseCrCons(c: char, s: string)
    ensures EraseCr([c] + s) == (if c == '\r' then [] else [c]) + EraseCr(s)
  {
    assert ([c] + s)[0] == c && ([c] + s)[1..] == s;
  }

  lemma AppendAssoc(x: string, y: string, z: string)
    ensures x + (y + z) == (x + y) + z
  {
  }

  /**
   * A field line that ends with a carriage return is no header field, so the
   * whole text goes to the body; once the line-end repair removes the
   * carriage return, reloading parses the line as the header.
   */
  lemma EolHealRevealsHeader(n: NoteValue, name: string, value: string)
    requires GoodField(Field(name, value))
    requires Loaded(n) && n.text == FieldLine(name, value) + "\r\n"
    ensures n.header == map[] && n.body == n.text
    ensures Reloaded(HealEol(n)).header == map[name := value] && Reloaded(HealEol(n)).body == ""
  {
    var line := FieldLine(name, value);
    FieldLineChars(name, value);
    CrFieldLineIsNoField(name, value);
    NoLfWithCr(line);
    EolExampleLoaded(n, line);
    EolExampleReloaded(n, name, value);
  }

  /** A line with a carriage return before its line feed loads as a body without a header. */
  lemma EolExampleLoaded(n: NoteValue, line: string)
    requires Loaded(n) && n.text == line + "\r\n"
    requires NoLf(line + "\r") && ParseHeaderField(line + "\r").None?
    ensures n.header == map[] && n.body == n.text
  {
    assert line + "\r" + "\n" == n.text;
    CrLineText(line + "\r");
  }

  /** Once its carriage return is erased, a body of one field line reloads as that field. */
  lemma EolExampleReloaded(n: NoteValue, name: string, value: string)
    requires GoodField(Field(name, value)) && '\r' !in FieldLine(name, value)
    requires n.header == map[] && n.body == FieldLine(name, value) + "\r\n"
    ensures Reloaded(HealEol(n)).header == map[name := value] && Reloaded(HealEol(n)).body == ""
  {
    var line := FieldLine(name, value);
    EraseCrLine(line);
    SerializeNoHeader(line + "\n");
    OneFieldText(Field(name, value));
  }

  /** A carriage return adds no line feed. */
  lemma NoLfWithCr(line: string)
    requires NoLf(line)
    ensures NoLf(line + "\r")
  {
    assert forall i :: 0 <= i < |line| ==> (line + "\r")[i] == line[i];
  }

  /** A printed field line holds neither a line feed nor a carriage return. */
  lemma FieldLineChars(name: string, value: string)
    requires GoodField(Field(name, value))
    ensures NoLf(FieldLine(name, value)) && '\r' !in FieldLine(name, value)
  {
    var line := FieldLine(name, value);
    forall i | 0 <= i < |line| ensures line[i] != '\n' && line[i] != '\r' {
      if i < |name| {
        assert line[i] == name[i];
      } else if i >= |name| + 2 {
        assert line[i] == value[i - |name| - 2];
      }
    }
  }

  /** A field line followed by a carriage return is no header field. */
  lemma CrFieldLineIsNoField(name: string, value: string)
    requires GoodField(Field(name, value))
    ensures ParseHeaderField(FieldLine(name, value) + "\r").None?
  {
    assert FieldLine(name, value) + "\r" == name + ":" + (" " + value) + "\r" + "";
    CarriageReturnRejects(FieldLine(name, value) + "\r", name, " " + value, "");
  }

  /** Erasing the carriage return of a CR LF line end. */
  lemma EraseCrLine(line: string)
    requires '\r' !in line
    ensures EraseCr(line + "\r\n") == line + "\n"
  {
    EraseCrConcat(line, "\r\n");
    EraseCrLineEnd();
  }

  /** Erasing carriage returns from a CR LF pair leaves the line feed. */
  lemma EraseCrLineEnd()
    ensures EraseCr("\r\n") == "\n"
  {
    var crlf := "\r\n";
    assert crlf[0] == '\r' && crlf[1..] == "\n";
    assert '\r' !in "\n";
  }

  /** A text of one line that is no header field: no header, and the whole text as the body. */
  lemma CrLineText(x: string)
    requires NoLf(x) && ParseHeaderField(x).None?
    ensures SplitText(x + "\n") == Split(map[], x + "\n")
  {
    var t := x + "\n";
    LinesCons(t, x, "");
    var ls := Lines(t);
    assert ls == [x];
    ParsedLine(ls, 0);
    FieldRunStops(ParseLines(ls), 0);
    HeaderOfIs(t);
    assert ParseLines(ls)[..0] == [];
    JoinOne(x);
    assert FirstLines(map[], x) + [] == [x];
  }

  /** Printing a note without a header prints its body alone. */
  lemma SerializeNoHeader(body: string)
    ensures Serialize(map[], body) == body
  {
    SerializeParts(map[], body);
  }

  /** A text of one terminated field line: that field is the header, and the body is empty. */
  lemma OneFieldText(f: Field)
    requires GoodField(f)
    ensures SplitText(FieldLine(f.name, f.body) + "\n") == Split(map[f.name := f.body], "")
  {
    SplitHeaderOnly([f]);
    OnePrinted(f);
    OneField(f);
  }

  /** One field printed and joined is its line. */
  lemma OnePrinted(f: Field)
    ensures JoinLines(Printed([f])) == FieldLine(f.name, f.body) + "\n"
  {
    assert Printed([f]) == [FieldLine(f.name, f.body)];
    JoinOne(FieldLine(f.name, f.body));
  }

  /** One field stored into an empty header. */
  lemma OneField(f: Field)
    ensures Fields(Somes([f])) == map[f.name := f.body]
  {
    assert Somes([f]) == [Some(f)];
    assert Somes([f])[..0] == [];
  }

  // ----- the repairs hold once the note is reloaded -----

  /** The subject repair keeps a coherent note coherent exactly when the subject holds no line terminator. */
  lemma HealSubjectCoherent(n: NoteValue)
    requires Coherent(n)
    ensures Coherent(HealSubject(n)) <==> NoLineEnd(NameSubject(n))
  {
    SubjectFieldGood(n);
    assert SubjectField != TagsField;
    var r := HealSubject(n);
    assert GoodHeader(r.header) ==> GoodField(Field(SubjectField, r.header[SubjectField]));
  }

  /**
   * After the subject repair writes the note, loading the file again gives
   * the repaired header and body back, and the subject healer is satisfied,
   * exactly when the subject holds no line terminator.
   */
  lemma SubjectHealDurable(n: NoteValue)
    requires Coherent(n)
    ensures var r := HealSubject(n);
      Reloaded(r) == r.(text := Serialize(r.header, r.body)) <==> NoLineEnd(NameSubject(n))
    ensures Satisfied(SubjectHealer, Reloaded(HealSubject(n))) <==> NoLineEnd(NameSubject(n))
  {
    var r := HealSubject(n);
    HealSubjectCoherent(n);
    if NoLineEnd(NameSubject(n)) {
      ReloadCoherent(r);
    } else {
      SubjectHealLost(n);
      assert SubjectField in r.header;
    }
  }

  /**
   * A subject with a line or paragraph separator (the stem `a b x\u2028y`)
   * is written into a subject line that does not parse back: loading the
   * file again ends the header before it, so the subject field is missing
   * and the subject healer is unsatisfied again.
   */
  lemma SubjectHealLost(n: NoteValue)
    requires Coherent(n) && !NoLineEnd(NameSubject(n))
    ensures SubjectField !in Reloaded(HealSubject(n)).header
    ensures !Satisfied(SubjectHealer, Reloaded(HealSubject(n)))
  {
    var r := HealSubject(n);
    var h := r.header;
    SubjectLineRejected(n);
    SubjectFieldNameGood();
    assert SubjectField in h && h[SubjectField] == NameSubject(n);
    forall k | k in h && k != SubjectField ensures GoodField(Field(k, h[k])) {
      assert k in n.header && GoodField(Field(k, n.header[k]));
    }
    BrokenFieldLost(h, r.body, SubjectField);
  }

  /**
   * Every tag of the tags repair is a word, so the header it leaves is valid
   * exactly when neither name part holds a line terminator (the note's own
   * tags hold none).
   */
  lemma HealTagsFieldGood(n: NoteValue)
    requires Coherent(n) && n.name.sphere.Some? && n.name.project.Some?
    ensures GoodHeader(HealTags(n).header) <==> NoLineEnd(n.name.sphere.value) && NoLineEnd(n.name.project.value)
  {
    var r := HealTags(n);
    HealTagsWords(n);
    PrintedTagsFieldGood(r.tags);
    CoherentTagsOneLine(n);
    AddedTagsOneLine(n.tags, n.name.sphere.value, n.name.project.value);
    forall k | k in r.header && k != TagsField ensures GoodField(Field(k, r.header[k])) {
      assert k in n.header && r.header[k] == n.header[k];
    }
    GoodHeaderButOne(r.header, TagsField);
  }

  /** Adding two words to tags on one line leaves tags on one line exactly when the two words are. */
  lemma AddedTagsOneLine(tags: set<string>, a: string, b: string)
    requires forall t :: t in tags ==> NoLineEnd(t)
    ensures (forall t :: t in tags + {a, b} ==> NoLineEnd(t)) <==> NoLineEnd(a) && NoLineEnd(b)
  {
    assert a in tags + {a, b} && b in tags + {a, b};
  }

  /** A header whose other entries are valid is valid exactly when the entry `key` is. */
  lemma GoodHeaderButOne(h: map<string, string>, key: string)
    requires key in h && forall k :: k in h && k != key ==> GoodField(Field(k, h[k]))
    ensures GoodHeader(h) <==> GoodField(Field(key, h[key]))
  {
  }

  /** The subject line printed from a subject with a line terminator is no header field. */
  lemma SubjectLineRejected(n: NoteValue)
    requires n.name == ParseFilename(n.file.stem).1 && !NoLineEnd(NameSubject(n))
    ensures NoLf(NameSubject(n)) && ParseHeaderField(FieldLine(SubjectField, NameSubject(n))).None?
  {
    var s := NameSubject(n);
    SubjectFieldGood(n);
    assert s[|s| - 1] != '\n';
    SubjectFieldNameGood();
    FieldLineRejected(SubjectField, s);
  }

  /** The name of the subject field is a word. */
  lemma SubjectFieldNameGood()
    ensures SubjectField != [] && NoWs(SubjectField)
  {
  }

  /** A tags line printed from a body without line feeds but with another line terminator is no header field. */
  lemma TagsLineRejected(s: string)
    requires NoLf(s) && !NoLineEnd(s)
    ensures ParseHeaderField(FieldLine(TagsField, s)).None?
  {
    assert s[|s| - 1] != '\n';
    TagsFieldNameGood();
    FieldLineRejected(TagsField, s);
  }

  /** The tags of a coherent note come from a field on one line, so none holds a line terminator. */
  lemma CoherentTagsOneLine(n: NoteValue)
    requires Coherent(n)
    ensures forall t :: t in n.tags ==> NoLineEnd(t)
  {
    if TagsField in n.header {
      var body := n.header[TagsField];
      assert GoodField(Field(TagsField, body));
      TokensOneLine(body);
      forall t | t in n.tags ensures NoLineEnd(t) {
        assert t in Tokens(body);
      }
    }
  }

  /** The words of a string without line terminators hold none. */
  lemma {:induction false} TokensOneLine(s: string)
    requires NoLineEnd(s)
    ensures forall k :: 0 <= k < |Tokens(s)| ==> NoLineEnd(Tokens(s)[k])
    decreases |s|
  {
    if s != [] {
      if IsWs(s[0]) {
        NoLineEndConcat([s[0]], s[1..]);
        assert s == [s[0]] + s[1..];
        TokensOneLine(s[1..]);
      } else {
        var n := RunEnd(s);
        assert s == s[..n] + s[n..];
        NoLineEndConcat(s[..n], s[n..]);
        TokensOneLine(s[n..]);
        assert Tokens(s) == [s[..n]] + Tokens(s[n..]);
      }
    }
  }

  /** The tags the tags repair writes are words: the note's tags and the two name parts. */
  lemma HealTagsWords(n: NoteValue)
    requires n.name == ParseFilename(n.file.stem).1 && n.name.sphere.Some? && n.name.project.Some?
    requires forall t :: t in n.tags ==> IsTag(t)
    ensures forall t :: t in n.tags + {n.name.sphere.value, n.name.project.value} ==> t != [] && NoWs(t)
  {
    NamePartsAreWords(n.file.stem);
    forall t | t in n.tags ensures t != [] && NoWs(t) {
      assert IsTag(t);
    }
  }

  /** The tags repair keeps the header and body producible exactly when neither name part holds a line terminator. */
  lemma HealTagsProducible(n: NoteValue)
    requires Coherent(n) && n.name.sphere.Some? && n.name.project.Some?
    ensures Producible(HealTags(n).header, HealTags(n).body) <==>
      NoLineEnd(n.name.sphere.value) && NoLineEnd(n.name.project.value)
  {
    HealTagsFieldGood(n);
    assert TagsField in HealTags(n).header;
  }

  /**
   * The tags repair keeps a coherent note coherent when both name parts are
   * tags, exactly when neither holds a line terminator.
   */
  lemma HealTagsCoherent(n: NoteValue)
    requires Coherent(n) && n.name.sphere.Some? && n.name.project.Some?
    requires IsTag(n.name.sphere.value) && IsTag(n.name.project.value)
    ensures Coherent(HealTags(n)) <==> NoLineEnd(n.name.sphere.value) && NoLineEnd(n.name.project.value)
  {
    var r := HealTags(n);
    HealTagsProducible(n);
    HealTagsAreTags(n.tags, n.header, n.name.sphere.value, n.name.project.value);
    TagsFieldReparses(r.header, r.tags);
  }

  /** Adding two tags to the tags parsed from a header leaves a set of tags. */
  lemma HealTagsAreTags(tags: set<string>, h: map<string, string>, sphere: string, project: string)
    requires tags == HeaderTags(h) && IsTag(sphere) && IsTag(project)
    ensures forall t :: t in tags + {sphere, project} ==> IsTag(t)
  {
  }

  /** A tags field printed from a set of tags gives that set back. */
  lemma TagsFieldReparses(h: map<string, string>, tags: set<string>)
    requires forall t :: t in tags ==> IsTag(t)
    requires TagsField in h && h[TagsField] == PrintTagsSpec(tags)
    ensures HeaderTags(h) == tags
  {
    PrintParseRoundTrip(tags);
  }

  /**
   * After the tags repair writes the note, loading the file again gives the
   * repaired header, body and tags back, and the tags healer is satisfied.
   */
  lemma TagsHealDurable(n: NoteValue)
    requires Coherent(n) && n.name.sphere.Some? && n.name.project.Some?
    requires IsTag(n.name.sphere.value) && IsTag(n.name.project.value)
    ensures var r := HealTags(n);
      Reloaded(r) == r.(text := Serialize(r.header, r.body)) <==>
        NoLineEnd(n.name.sphere.value) && NoLineEnd(n.name.project.value)
    ensures Satisfied(TagsHealer, Reloaded(HealTags(n))) <==>
      (ParseFilename(n.file.stem).0 ==> NoLineEnd(n.name.sphere.value) && NoLineEnd(n.name.project.value))
  {
    var r := HealTags(n);
    HealTagsCoherent(n);
    if NoLineEnd(n.name.sphere.value) && NoLineEnd(n.name.project.value) {
      ReloadCoherent(r);
    } else {
      TagsHealBroken(n);
      assert TagsField in r.header;
    }
  }

  /**
   * A sphere or project with a line or paragraph separator (the stem
   * `a\u2028b p s`) is written into a tags line that does not parse back:
   * loading the file again ends the header before it, so the tags field is
   * missing and the note has no tags.
   */
  lemma TagsHealBroken(n: NoteValue)
    requires Coherent(n) && n.name.sphere.Some? && n.name.project.Some?
    requires !(NoLineEnd(n.name.sphere.value) && NoLineEnd(n.name.project.value))
    ensures TagsField !in Reloaded(HealTags(n)).header && Reloaded(HealTags(n)).tags == {}
  {
    var r := HealTags(n);
    var h := r.header;
    HealTagsLineRejected(n);
    TagsFieldNameGood();
    forall k | k in h && k != TagsField ensures GoodField(Field(k, h[k])) {
      assert k in n.header && GoodField(Field(k, n.header[k]));
    }
    BrokenFieldLost(h, r.body, TagsField);
  }

  /** The tags line the tags repair prints from a name part with a line terminator is no header field. */
  lemma HealTagsLineRejected(n: NoteValue)
    requires n.name == ParseFilename(n.file.stem).1 && n.name.sphere.Some? && n.name.project.Some?
    requires forall t :: t in n.tags ==> IsTag(t)
    requires !(NoLineEnd(n.name.sphere.value) && NoLineEnd(n.name.project.value))
    ensures var s := HealTags(n).header[TagsField];
      NoLf(s) && ParseHeaderField(FieldLine(TagsField, s)).None?
  {
    var tags := HealTags(n).tags;
    var s := PrintTagsSpec(tags);
    HealTagsWords(n);
    PrintedTagsFieldGood(tags);
    assert n.name.sphere.value in tags && n.name.project.value in tags;
    TagsFieldNameGood();
    assert !GoodField(Field(TagsField, s));
    TagsLineRejected(s);
  }

  /**
   * A sphere or project with a `#` after its first character (the stem
   * `a#b p s` gives the sphere `#a#b`, the stem `a b#c s` the project
   * `#b#c`) is no tag.  The tags repair still writes it into the tags field,
   * but loading the file again parses no tags at all: the note loses every
   * tag it had and the tags healer is unsatisfied again.
   */
  lemma TagsHealLost(n: NoteValue)
    requires Coherent(n) && ParseFilename(n.file.stem).0
    requires n.name.sphere.Some? && n.name.project.Some?
    requires !(IsTag(n.name.sphere.value) && IsTag(n.name.project.value))
    ensures var r := HealTags(n);
      NoLineEnd(n.name.sphere.value) && NoLineEnd(n.name.project.value) ==>
        Reloaded(r).header == r.header && Reloaded(r).body == r.body
    ensures Reloaded(HealTags(n)).tags == {} && !Satisfied(TagsHealer, Reloaded(HealTags(n)))
  {
    var r := HealTags(n);
    HealTagsProducible(n);
    if NoLineEnd(n.name.sphere.value) && NoLineEnd(n.name.project.value) {
      HealTagsWords(n);
      var bad := if IsTag(n.name.sphere.value) then n.name.project.value else n.name.sphere.value;
      PrintNonTagFails(r.tags, bad);
      ReloadedTagsLost(r);
    } else {
      TagsHealBroken(n);
    }
    var m := Reloaded(r);
    assert m.file == n.file && m.name == n.name;
    MissingSphereUnsatisfied(m);
  }

  /** A parsed stem whose sphere is not among the tags leaves the tags healer unsatisfied. */
  lemma MissingSphereUnsatisfied(m: NoteValue)
    requires ParseFilename(m.file.stem).0 && m.name.sphere.Some? && m.name.sphere.value !in m.tags
    ensures !Satisfied(TagsHealer, m)
  {
  }

  /** A note whose tags field does not parse reloads with the same header and body and no tags. */
  lemma ReloadedTagsLost(r: NoteValue)
    requires Producible(r.header, r.body)
    requires TagsField in r.header && ParseTagsSpec(r.header[TagsField]) == None
    ensures Reloaded(r).header == r.header && Reloaded(r).body == r.body && Reloaded(r).tags == {}
  {
    SerializeSplits(r.header, r.body);
  }

  // ----- `heal()`: the edit applied to the note in place, then written -----

  /** `EolHealer::heal`: erase every carriage return from the text and from the body, then write the note. */
  method HealEolNote(note: Note, disk: Disk)
    modifies note, disk
    ensures note.Value() == HealEol(old(note.Value()))
    ensures disk.files == old(disk.files)[note.file.path := Serialize(note.header, note.body)]
  {
    ghost var before := note.Value();
    note.text := EraseCr(note.text);
    note.body := EraseCr(note.body);
    assert note.Value() == before.(text := EraseCr(before.text), body := EraseCr(before.body));
    note.Write(disk);
  }

  /** `SubjectFieldHealer::heal`: store the filename's subject in the subject field, then write the note. */
  method HealSubjectNote(note: Note, disk: Disk)
    modifies note, disk
    ensures note.Value() == HealSubject(old(note.Value()))
    ensures disk.files == old(disk.files)[note.file.path := Serialize(note.header, note.body)]
  {
    var subject := NameSubject(note.Value());
    note.header := note.header[SubjectField := subject];
    note.Write(disk);
  }

  /**
   * `TagsFieldHealer::heal`: insert the sphere and the project into the tag
   * set, print the set into the tags field, then write the note.
   */
  method HealTagsNote(note: Note, disk: Disk)
    requires note.name.sphere.Some? && note.name.project.Some?
    modifies note, disk
    ensures note.Value() == HealTags(old(note.Value()))
    ensures disk.files == old(disk.files)[note.file.path := Serialize(note.header, note.body)]
  {
    ghost var before := note.Value();
    note.tags := note.tags + {note.name.sphere.value};
    note.tags := note.tags + {note.name.project.value};
    var printed := PrintTags(note.tags);
    note.header := note.header[TagsField := printed];
    assert note.tags == before.tags + {before.name.sphere.value, before.name.project.value};
    assert note.header == before.header[TagsField := PrintTagsSpec(note.tags)];
    assert note.Value() == HealTags(before);
    note.Write(disk);
  }

  /** `heal()` of the healer `k`. */
  method HealNote(k: Healer, note: Note, disk: Disk)
    requires k == TagsHealer ==> note.name.sphere.Some? && note.name.project.Some?
    modifies note, disk
    ensures note.Value() == Heal(k, old(note.Value()))
    ensures disk.files == old(disk.files)[note.file.path := Serialize(note.header, note.body)]
  {
    match k
    case EolHealer => HealEolNote(note, disk);
    case SubjectHealer => HealSubjectNote(note, disk);
    case TagsHealer => HealTagsNote(note, disk);
  }

  /** A healer only repairs a note it is unsatisfied with; for the tags healer that note has a sphere and a project. */
  lemma RepairableHasNames(k: Healer, n: NoteValue)
    requires n.name == ParseFilename(n.file.stem).1
    requires !Satisfied(k, n)
    ensures k == TagsHealer ==> n.name.sphere.Some? && n.name.project.Some?
  {
    if k == TagsHealer {
      UnsatisfiedTagsHaveNames(n);
    }
  }

  /**
   * The text the line-end repair writes is never empty, so the file can be
   * loaded again: a header prints at least one line, and a body without a
   * header is a line feed-terminated line that keeps its line feed.
   */
  lemma HealEolWritesText(n: NoteValue)
    requires Coherent(n)
    ensures Serialize(HealEol(n).header, HealEol(n).body) != []
  {
    var r := HealEol(n);
    SerializeParts(r.header, r.body);
    if n.header == map[] {
      EraseCrKeepsLastLf(n.body);
    }
  }

  /** A text that ends with a line feed still holds one once its carriage returns are erased. */
  lemma EraseCrKeepsLastLf(s: string)
    requires s != [] && s[|s| - 1] == '\n'
    ensures EraseCr(s) != []
  {
    var head := s[..|s| - 1];
    assert s == head + "\n";
    EraseCrConcat(head, "\n");
    assert EraseCr("\n") == "\n" by {
      assert "\n"[1..] == [];
    }
  }
}
