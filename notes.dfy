/**
 * A note (notes_tool.cpp:292-412): a file, the name parsed from its stem,
 * its text, and the header map, body and tag set parsed from the text.  The
 * file system is a store from path to text.
 */
module Notes {
  import opened Options
  import opened Chars
  import opened Order
  import opened Tags
  import opened Filename
  import opened HeaderField
  import opened NoteText

  /** `SUBJECT_FIELD_NAME`. */
  const SubjectField: string := "Sujet"
  /** `TAG_FIELD_NAME`: "Étiquettes". */
  const TagsField: string := "\U{C9}tiquettes"

  /** A directory of the listing: its path, its stem, and whether it is empty. */
  datatype Dir = Dir(path: string, stem: string, empty: bool)

  /** `File`: the note's path, its stem and extension, and the annex directory paired with it. */
  datatype File = File(path: string, stem: string, ext: string, annex: Option<Dir>)

  /** A copy of a note, as each check keeps one. */
  datatype NoteValue = NoteValue(
    file: File, name: Name, text: string,
    header: map<string, string>, body: string, tags: set<string>)

  /** The tag set `::parse_tags` leaves: the parsed tags, or nothing when a word is not a tag. */
  function TagsOf(field: string): (ts: set<string>)
    ensures forall t :: t in ts ==> IsTag(t)
  {
    match ParseTagsSpec(field)
    case Some(s) => s
    case None => {}
  }

  /** The tags `Note::parse_tags` leaves for the header `h`: none when there is no tags field. */
  function HeaderTags(h: map<string, string>): (ts: set<string>)
    ensures forall t :: t in ts ==> IsTag(t)
    ensures TagsField !in h ==> ts == {}
  {
    if TagsField in h then TagsOf(h[TagsField]) else {}
  }

  /** The note `Note(File)` builds from a file whose text is `t`. */
  function NoteOf(f: File, t: string): (n: NoteValue)
    ensures n.file == f && n.text == t && n.name == ParseFilename(f.stem).1
    ensures GoodHeader(n.header) && !Unterminated(n.body)
    ensures forall tag :: tag in n.tags ==> IsTag(tag)
  {
    var p := SplitText(t);
    NoteValue(f, ParseFilename(f.stem).1, t, p.header, p.body, HeaderTags(p.header))
  }

  /** A note as it was loaded from its text. */
  predicate Loaded(n: NoteValue) {
    n == NoteOf(n.file, n.text)
  }

  /** The note as loading the text `Note::write` prints for it gives it back. */
  function Reloaded(n: NoteValue): (m: NoteValue)
    ensures m.file == n.file && m.name == ParseFilename(n.file.stem).1
  {
    NoteOf(n.file, Serialize(n.header, n.body))
  }

  /**
   * A note whose parts agree with each other the way loading makes them
   * agree: the name comes from the stem, the header and body could have been
   * parsed, and the tags come from the tags field.  Repairs that edit the
   * header keep this.
   */
  predicate Coherent(n: NoteValue) {
    n.name == ParseFilename(n.file.stem).1 &&
    Producible(n.header, n.body) &&
    n.tags == HeaderTags(n.header)
  }

  /** `NoteOf` part by part. */
  lemma NoteOfParts(f: File, t: string)
    ensures var p := SplitText(t);
      NoteOf(f, t) == NoteValue(f, ParseFilename(f.stem).1, t, p.header, p.body, HeaderTags(p.header))
  {
  }

  /** A loaded note is coherent. */
  lemma LoadedIsCoherent(n: NoteValue)
    requires Loaded(n)
    ensures Coherent(n)
  {
    SplitTextProducible(n.text);
  }

  /** Reloading a coherent note after writing it changes nothing but the text. */
  lemma ReloadCoherent(n: NoteValue)
    requires Coherent(n)
    ensures Reloaded(n) == n.(text := Serialize(n.header, n.body))
  {
    SerializeSplits(n.header, n.body);
  }

  /**
   * `load_text`: the text of the file, or nothing when reading it fails.
   * Streaming a file that does not exist, or one with no characters,
   * inserts nothing, which sets the failure bit and throws.
   */
  function LoadText(files: map<string, string>, path: string): (t: Option<string>)
    ensures t.Some? <==> path in files && files[path] != []
    ensures t.Some? ==> t.value == files[path]
  {
    if path in files && files[path] != [] then Some(files[path]) else None
  }

  /** The notes directory: the text of each file by path. */
  class Disk {
    var files: map<string, string>

    constructor (files: map<string, string>)
      ensures this.files == files
    {
      this.files := files;
    }

    /** Replace the contents of the file at `path`, creating it if needed. */
    method Put(path: string, text: string)
      modifies this
      ensures files == old(files)[path := text]
    {
      files := files[path := text];
    }
  }

  class Note {
    var file: File
    var name: Name
    var text: string
    var header: map<string, string>
    var body: string
    var tags: set<string>

    function Value(): NoteValue
      reads this
    {
      NoteValue(file, name, text, header, body, tags)
    }

    /** `Note(File)`, after `load_text` has read `t`. */
    constructor (f: File, t: string)
      ensures Value() == NoteOf(f, t)
    {
      file := f;
      name := NoName;
      text := t;
      header := map[];
      body := "";
      tags := {};
      new;
      name := ParseFilename(f.stem).1;
      ParseText(text);
      ParseTags();
      assert tags == HeaderTags(header);
      NoteOfParts(f, t);
    }

    /**
     * `parse_text`: read lines while they are header fields, storing each;
     * then put the line that ended the run into the body when there is no
     * header or the line is not blank; then append every remaining line.
     */
    method ParseText(t: string)
      modifies this
      ensures header == SplitText(t).header && body == SplitText(t).body
      ensures file == old(file) && name == old(name) && text == old(text) && tags == old(tags)
    {
      header, body := ReadText(t);
    }

    /** `Note::parse_tags`: when there is a tags field, the tags parsed from it (none when a word is not a tag). */
    method ParseTags()
      modifies this
      ensures tags == if TagsField in header then HeaderTags(header) else old(tags)
      ensures file == old(file) && name == old(name) && text == old(text)
      ensures header == old(header) && body == old(body)
    {
      if TagsField in header {
        var ok, parsed := Tags.ParseTags(header[TagsField]);
        tags := parsed;
      }
    }

    /**
     * `Note::write`: print every header field in key order, an empty line
     * when there is a header, then the body, replacing the file.
     */
    method Write(disk: Disk)
      modifies disk
      ensures disk.files == old(disk.files)[file.path := Serialize(header, body)]
    {
      var out := Print(header, body);
      disk.Put(file.path, out);
    }
  }

  /** The text `Note::write` streams out for the header `h` and the body. */
  method Print(h: map<string, string>, body: string) returns (out: string)
    ensures out == Serialize(h, body)
  {
    out := PrintFields(h);
    if h != map[] {
      out := out + "\n";
    }
    out := out + body;
    SerializeParts(h, body);
  }

  /** The first loop of `Note::write`: one line per header entry, in key order. */
  method PrintFields(h: map<string, string>) returns (out: string)
    ensures out == JoinLines(FieldLines(h))
  {
    var keys := SortedElems(h.Keys);
    ghost var ls := FieldLines(h);
    out := "";
    for i := 0 to |keys|
      invariant out == JoinLines(ls[..i])
    {
      JoinLinesPrefix(ls, i);
      out := out + FieldLine(keys[i], h[keys[i]]) + "\n";
    }
    assert ls[..|keys|] == ls;
  }

  /** The work of `parse_text` on the text `t`: the header map and the body. */
  method ReadText(t: string) returns (header: map<string, string>, body: string)
    ensures Split(header, body) == SplitText(t)
  {
    var r;
    header, r := ReadHeader(t);
    body := ReadBody(header, r.line, r.stream);
    HeaderOfIs(t);
  }

  /**
   * The body `parse_text` builds once the header run has ended on `line`:
   * that line when there is no header or it is not blank, then every line
   * the stream still yields.
   */
  method ReadBody(header: map<string, string>, line: string, s: LineStream) returns (body: string)
    ensures body == JoinLines(FirstLines(header, line) + Pending(s))
  {
    body := FirstBodyLine(header, line);
    var rest := ReadLines(s, line);
    JoinLinesAppend(FirstLines(header, line), Pending(s));
    body := body + rest;
  }

  /** The line that ended the header run, as `parse_text` puts it into the body: kept unless it separates a header. */
  method FirstBodyLine(header: map<string, string>, line: string) returns (first: string)
    ensures first == JoinLines(FirstLines(header, line))
  {
    first := "";
    if header == map[] {
      // No header at all: the body holds every line.
      first := line + "\n";
      JoinOne(line);
    } else {
      // A blank line after the header is the separator and is dropped.
      var tmp := Trim(line);
      if tmp != [] {
        first := line + "\n";
        JoinOne(line);
      }
    }
  }

  /**
   * The first loop of `parse_text`: `getline` from the text while each line
   * is a header field, storing the field.  Returns the header and the state
   * the failed `getline` or the first non-field line leaves.
   */
  method ReadHeader(t: string) returns (header: map<string, string>, r: Read)
    ensures header == Fields(ParseLines(Lines(t))[..FieldRun(ParseLines(Lines(t)))])
    ensures r.line == Boundary(t) && Pending(r.stream) == AfterBoundary(t)
  {
    header := map[];
    ghost var ls := Lines(t);
    r := FirstLine(t);
    ghost var i := 0;
    while r.ok
      invariant ReadAt(t, i, r)
      invariant i <= FieldRun(ParseLines(ls))
      invariant header == Fields(ParseLines(ls)[..i])
      decreases |ls| - i
    {
      var field := ParseHeaderField(r.line);
      if field.None? {
        break;
      }
      HeaderStep(ls, i);
      header := header[field.value.name := field.value.body];
      r := NextLine(t, i, r);
      i := i + 1;
    }
    HeaderStop(ls, i);
    ReadAtBoundary(t, r);
  }

  /** The second loop of `parse_text`: every line the stream still yields, each followed by a line feed. */
  method ReadLines(s: LineStream, line: string) returns (lines: string)
    ensures lines == JoinLines(Pending(s))
  {
    lines := "";
    ghost var rest := Pending(s);
    var r := FirstPending(s, line);
    ghost var j := 0;
    while r.ok
      invariant PendingAt(rest, j, r)
      invariant lines == JoinLines(rest[..j])
      decreases |rest| - j
    {
      JoinLinesPrefix(rest, j);
      lines := lines + r.line + "\n";
      r := NextPending(rest, j, r);
      j := j + 1;
    }
    assert rest[..j] == rest;
  }

  /**
   * Reloading a note after writing it gives back the same name, header,
   * body and tags; only the text may differ.
   */
  lemma ReloadAfterWrite(f: File, t: string)
    ensures var n := NoteOf(f, t);
      Reloaded(n) == n.(text := Serialize(n.header, n.body))
  {
    LoadedIsCoherent(NoteOf(f, t));
    ReloadCoherent(NoteOf(f, t));
  }
}
