/**
 * The visitors of the walk (notes_tool.cpp:798-1015): the tag-frequency
 * counters every visitor keeps when it loads a note, the audit that prints a
 * warning per failing check, and the interactive repair session.
 *
 * The three visitor classes of the tool become one class with a kind.  The
 * user at the console is a sequence of typed lines; the file system is the
 * store of `Notes.Disk`.
 */
module Visitors {
  import opened Options
  import opened Order
  import opened Answers
  import opened Filename
  import opened Notes
  import opened Checks
  import opened Healers
  import NoteText

  // ----- tag frequencies (`accumulate_tags`) -----

  /** `std::map<wstring, int>::operator[]` reads a missing key as 0. */
  function Get(m: map<string, int>, k: string): int {
    if k in m then m[k] else 0
  }

  /** `++m[k]`. */
  function Inc(m: map<string, int>, k: string): (r: map<string, int>)
    ensures r.Keys == m.Keys + {k}
    ensures Get(r, k) == Get(m, k) + 1
    ensures forall j :: j != k ==> Get(r, j) == Get(m, j)
  {
    m[k := Get(m, k) + 1]
  }

  /** `++m[k]` for every `k` of `ks`, in any order. */
  function IncAll(m: map<string, int>, ks: set<string>): (r: map<string, int>)
    ensures r.Keys == m.Keys + ks
    ensures forall j :: Get(r, j) == Get(m, j) + (if j in ks then 1 else 0)
  {
    map j | j in m.Keys + ks :: Get(m, j) + (if j in ks then 1 else 0)
  }

  /** The three counters: spheres of life, projects, and the other tags. */
  datatype Counts = Counts(sphere: map<string, int>, project: map<string, int>, other: map<string, int>)

  const NoCounts := Counts(map[], map[], map[])

  /** `m` after counting the name part `part`, when the filename has one. */
  function CountPart(m: map<string, int>, part: Option<string>): map<string, int> {
    match part
    case Some(x) => Inc(m, x)
    case None => m
  }

  /** The tags of a note that are neither a sphere nor a project counted so far. */
  function OtherTags(tags: set<string>, sphere: map<string, int>, project: map<string, int>): set<string> {
    set t | t in tags && t !in sphere && t !in project
  }

  /**
   * `accumulate_tags`: the note's sphere and project are counted, then each
   * of its tags is counted as an other tag unless it is, by now, a key of
   * the sphere or the project counter.
   */
  function Accumulate(c: Counts, n: NoteValue): (r: Counts)
    ensures forall k :: Get(r.sphere, k) == Get(c.sphere, k) + (if n.name.sphere == Some(k) then 1 else 0)
    ensures forall k :: Get(r.project, k) == Get(c.project, k) + (if n.name.project == Some(k) then 1 else 0)
    ensures forall k :: (Get(r.other, k) ==
      Get(c.other, k) + (if k in n.tags && k !in r.sphere && k !in r.project then 1 else 0))
    ensures r.other.Keys == c.other.Keys + OtherTags(n.tags, r.sphere, r.project)
  {
    var s := CountPart(c.sphere, n.name.sphere);
    var p := CountPart(c.project, n.name.project);
    Counts(s, p, IncAll(c.other, OtherTags(n.tags, s, p)))
  }

  /** The counters after loading the notes `ns`, one after the other. */
  function AccumulateAll(c: Counts, ns: seq<NoteValue>): Counts
    decreases |ns|
  {
    if ns == [] then c else AccumulateAll(Accumulate(c, ns[0]), ns[1..])
  }

  /** A tag that is the note's own sphere or project never counts as an other tag. */
  lemma OwnNameNotOther(c: Counts, n: NoteValue, x: string)
    requires n.name.sphere == Some(x) || n.name.project == Some(x)
    ensures Get(Accumulate(c, n).other, x) == Get(c.other, x)
  {
    var r := Accumulate(c, n);
    assert x in r.sphere || x in r.project;
  }

  /**
   * Which counter a tag lands in depends on the order of the notes: a tag
   * first met in the tags field of a note without a name counts as an other
   * tag, and a later note whose sphere it is does not take that count back.
   */
  lemma CountsDependOnOrder(a: NoteValue, b: NoteValue, x: string)
    requires a.name == NoName && a.tags == {x}
    requires b.name.sphere == Some(x) && b.name.project.None? && b.tags == {}
    ensures Get(AccumulateAll(NoCounts, [a, b]).other, x) == 1
    ensures Get(AccumulateAll(NoCounts, [b, a]).other, x) == 0
  {
    var ab := Accumulate(Accumulate(NoCounts, a), b);
    assert AccumulateAll(NoCounts, [a, b]) == AccumulateAll(Accumulate(NoCounts, a), [b]);
    assert AccumulateAll(Accumulate(NoCounts, a), [b]) == ab;
    var ba := Accumulate(Accumulate(NoCounts, b), a);
    assert AccumulateAll(NoCounts, [b, a]) == AccumulateAll(Accumulate(NoCounts, b), [a]);
    assert AccumulateAll(Accumulate(NoCounts, b), [a]) == ba;
    assert x in Accumulate(NoCounts, b).sphere;
  }

  // ----- the console -----

  /** The line a `getline` from the console gives: the next typed line, or an empty line once none is left. */
  function Typed(lines: seq<string>): string {
    if lines == [] then "" else lines[0]
  }

  /** The typed lines left after one `getline`. */
  function AfterTyped(lines: seq<string>): seq<string> {
    if lines == [] then [] else lines[1..]
  }

  /** The user at the console: the lines still to be typed, and how many prompts were shown. */
  class Console {
    var lines: seq<string>
    var prompts: nat

    constructor (lines: seq<string>)
      ensures this.lines == lines && prompts == 0
    {
      this.lines := lines;
      prompts := 0;
    }

    /** Print the repair prompt and `getline` the answer. */
    method Prompt() returns (line: string)
      modifies this
      ensures line == Typed(old(lines)) && lines == AfterTyped(old(lines))
      ensures prompts == old(prompts) + 1
    {
      prompts := prompts + 1;
      line := Typed(lines);
      lines := AfterTyped(lines);
    }
  }

  // ----- the repair state machine (`HealerVisitor::heal`) -----

  /** The state a repair session carries: the scope, the console, and the files. */
  datatype Session = Session(input: string, console: seq<string>, prompts: nat, files: map<string, string>)

  /** The outcome of `heal<H>` on a note: its result, whether it signalled quit, the note after it, the session after it. */
  datatype Healed = Healed(done: bool, quit: bool, note: NoteValue, session: Session)

  /** Whether an answer asks for the repair: `yes`, `file` or `all`. */
  predicate Accepts(answer: string) {
    IsYes(answer) || IsFile(answer) || IsAll(answer)
  }

  /**
   * The prompt of `heal<H>`: unless the scope is `all` or `file`, the next
   * line from the console becomes the answer.
   */
  function Ask(s: Session): (r: Session)
    ensures r.files == s.files
    ensures IsAll(s.input) || IsFile(s.input) ==> r == s
    ensures !IsAll(s.input) && !IsFile(s.input) ==>
      r.input == Typed(s.console) && r.console == AfterTyped(s.console) && r.prompts == s.prompts + 1
  {
    if IsAll(s.input) || IsFile(s.input) then s
    else s.(input := Typed(s.console), console := AfterTyped(s.console), prompts := s.prompts + 1)
  }

  /**
   * The end of `heal<H>` for an unsatisfied healer, on the answer in
   * `s.input`: repair and write the note, signal quit, or pass.
   */
  function Respond(k: Healer, n: NoteValue, s: Session): (h: Healed)
    requires n.name == ParseFilename(n.file.stem).1 && !Satisfied(k, n)
    ensures h.session.input == s.input && h.session.console == s.console && h.session.prompts == s.prompts
    ensures h.done <==> Accepts(s.input)
    ensures h.quit <==> !Accepts(s.input) && IsQuit(s.input)
    ensures h.done ==>
      Satisfied(k, h.note) && h.session.files == s.files[n.file.path := NoteText.Serialize(h.note.header, h.note.body)]
    ensures !h.done ==> h.note == n && h.session.files == s.files
    ensures k == EolHealer && h.done ==> h.note == HealEol(n)
  {
    if Accepts(s.input) then
      RepairableHasNames(k, n);
      var m := Heal(k, n);
      Healed(true, false, m, s.(files := s.files[n.file.path := NoteText.Serialize(m.header, m.body)]))
    else
      Healed(false, IsQuit(s.input), n, s)
  }

  /**
   * `heal<H>(note)` on the session `s`: report true at once when the file is
   * being skipped, false when the healer is satisfied, and otherwise ask
   * and act on the answer.
   */
  function HealAt(k: Healer, n: NoteValue, s: Session): (h: Healed)
    requires n.name == ParseFilename(n.file.stem).1
    ensures h.note.file == n.file && h.note.name == n.name
    ensures h.quit ==> IsQuit(h.session.input) && !h.done
    ensures (h.note == n && h.session.files == s.files) ||
      (h.done && !Satisfied(k, n) && h.note == Heal(k, n) && Satisfied(k, h.note) &&
       h.session.files == s.files[n.file.path := NoteText.Serialize(h.note.header, h.note.body)] &&
       (k == EolHealer ==> h.note == HealEol(n)))
    ensures k == EolHealer ==> h.note == n || h.note == HealEol(n)
  {
    if IsSkip(s.input) then Healed(true, false, n, s)
    else if Satisfied(k, n) then Healed(false, false, n, s)
    else Respond(k, n, Ask(s))
  }

  /** Under `skip` no healer runs: it reports true, and nothing changes. */
  lemma HealAtSkip(k: Healer, n: NoteValue, s: Session)
    requires n.name == ParseFilename(n.file.stem).1
    requires IsSkip(s.input)
    ensures HealAt(k, n, s) == Healed(true, false, n, s)
  {
  }

  /** A satisfied healer neither prompts nor repairs, unless the file is skipped. */
  lemma HealAtSatisfied(k: Healer, n: NoteValue, s: Session)
    requires n.name == ParseFilename(n.file.stem).1
    requires !IsSkip(s.input) && Satisfied(k, n)
    ensures HealAt(k, n, s) == Healed(false, false, n, s)
  {
  }

  /**
   * Under `all` or `file`, a healer prompts for nothing, keeps the scope,
   * never quits, and repairs exactly when it is unsatisfied.
   */
  lemma HealAtScoped(k: Healer, n: NoteValue, s: Session)
    requires n.name == ParseFilename(n.file.stem).1
    requires IsAll(s.input) || IsFile(s.input)
    ensures var h := HealAt(k, n, s);
      !h.quit && h.session.input == s.input && h.session.console == s.console && h.session.prompts == s.prompts
    ensures var h := HealAt(k, n, s); Satisfied(k, h.note) && (h.done <==> !Satisfied(k, n))
  {
    AnswersExclusive(s.input);
  }

  /**
   * Without a scope, an unsatisfied healer prompts once and the typed
   * line decides: `yes`, `file` and `all` repair, `quit` aborts, and
   * anything else (an empty line, `no`, `skip`) passes over this repair.
   */
  lemma HealAtPrompts(k: Healer, n: NoteValue, s: Session)
    requires n.name == ParseFilename(n.file.stem).1
    requires !IsSkip(s.input) && !IsAll(s.input) && !IsFile(s.input) && !Satisfied(k, n)
    ensures var h := HealAt(k, n, s); var typed := Typed(s.console);
      h.session.prompts == s.prompts + 1 && h.session.console == AfterTyped(s.console) &&
      h.session.input == typed &&
      (h.done <==> Accepts(typed)) && (h.quit <==> !Accepts(typed) && IsQuit(typed)) &&
      (h.done ==> Satisfied(k, h.note)) &&
      (!h.done ==> h.note == n && h.session.files == s.files)
  {
  }

  /** An answer that is none of the words passes over the repair and leaves no scope: the next unsatisfied healer prompts again. */
  lemma OtherAnswerDeclinesOnce(k: Healer, n: NoteValue, s: Session, k2: Healer, n2: NoteValue)
    requires n.name == ParseFilename(n.file.stem).1 && n2.name == ParseFilename(n2.file.stem).1
    requires !IsSkip(s.input) && !IsAll(s.input) && !IsFile(s.input) && !Satisfied(k, n)
    requires var typed := Typed(s.console);
      !IsYes(typed) && !IsFile(typed) && !IsAll(typed) && !IsQuit(typed) && !IsSkip(typed)
    requires !Satisfied(k2, n2)
    ensures var h := HealAt(k, n, s);
      !h.done && !h.quit && h.note == n && h.session.files == s.files &&
      HealAt(k2, n2, h.session).session.prompts == h.session.prompts + 1
  {
    HealAtPrompts(k, n, s);
  }

  /** What the repair of one file gives back to the walk. */
  datatype FileResult = Continue | Halt | LoadError

  /** The outcome of repairing one file: the result, the session after it, and the notes it loaded, in order. */
  datatype FileRun = FileRun(result: FileResult, session: Session, loaded: seq<NoteValue>)

  /**
   * `HealerVisitor::file`: load the note, run the line-end healer, reload
   * the note when that healer reports true, run the subject and the tags
   * healers on it, and clear the scope unless it is `all`.  A load failure
   * is an `IOStreamError` that leaves the scope as it is; quit ends the file
   * at once, keeping what was written.
   */
  function RepairFile(f: File, s: Session): (run: FileRun)
    ensures run.result == Halt ==> IsQuit(run.session.input)
    ensures run.result == Continue ==> run.session.input == [] || IsAll(run.session.input)
  {
    match LoadText(s.files, f.path)
    case None => FileRun(LoadError, s, [])
    case Some(t) => RepairLoaded(NoteOf(f, t), s)
  }

  /** `HealerVisitor::file` once the note `n0` is loaded: the line-end healer, then the reload or the rest. */
  function RepairLoaded(n0: NoteValue, s: Session): (run: FileRun)
    requires n0.name == ParseFilename(n0.file.stem).1
    ensures run.result == Halt ==> IsQuit(run.session.input)
    ensures run.result == Continue ==> run.session.input == [] || IsAll(run.session.input)
    ensures |run.loaded| >= 1 && run.loaded[0] == n0
  {
    var eol := HealAt(EolHealer, n0, s);
    if eol.quit then FileRun(Halt, eol.session, [n0])
    else if !eol.done then RepairRest(eol.note, eol.session, [n0])
    else Reload(n0.file, eol.session, [n0])
  }

  /** `note = load_note(file)` after a line-end repair, then the rest of the file. */
  function Reload(f: File, s: Session, loaded: seq<NoteValue>): (run: FileRun)
    ensures run.result == Halt ==> IsQuit(run.session.input)
    ensures run.result == Continue ==> run.session.input == [] || IsAll(run.session.input)
    ensures run.result == LoadError <==> LoadText(s.files, f.path).None?
    ensures run.loaded == (if LoadText(s.files, f.path).None? then loaded else loaded + [NoteOf(f, LoadText(s.files, f.path).value)])
  {
    match LoadText(s.files, f.path)
    case None => FileRun(LoadError, s, loaded)
    case Some(t) => RepairRest(NoteOf(f, t), s, loaded + [NoteOf(f, t)])
  }

  /** The end of `HealerVisitor::file`: the subject and the tags healers, then the scope is cleared unless it is `all`. */
  function RepairRest(n: NoteValue, s: Session, loaded: seq<NoteValue>): (run: FileRun)
    requires n.name == ParseFilename(n.file.stem).1
    ensures run.result != LoadError && run.loaded == loaded
    ensures run.result == Halt ==> IsQuit(run.session.input)
    ensures run.result == Continue ==> run.session.input == [] || IsAll(run.session.input)
  {
    var subject := HealAt(SubjectHealer, n, s);
    if subject.quit then FileRun(Halt, subject.session, loaded)
    else
      var tags := HealAt(TagsHealer, subject.note, subject.session);
      if tags.quit then FileRun(Halt, tags.session, loaded)
      else FileRun(Continue, EndOfFile(tags.session), loaded)
  }

  /** The scope at the end of a file: kept when it is `all`, cleared otherwise. */
  function EndOfFile(s: Session): (r: Session)
    ensures r.input == [] || IsAll(r.input)
    ensures r.console == s.console && r.prompts == s.prompts && r.files == s.files
  {
    if IsAll(s.input) then s else s.(input := "")
  }

  // ----- properties of the repair session -----

  /**
   * Once the scope is `all`, repairing a file shows no prompt, reads no
   * line, never aborts, and leaves the scope `all` for the next file.
   */
  lemma AllSuppressesPrompts(f: File, s: Session)
    requires IsAll(s.input)
    ensures var run := RepairFile(f, s);
      run.result != Halt && run.session.input == s.input &&
      run.session.console == s.console && run.session.prompts == s.prompts
  {
    if LoadText(s.files, f.path).Some? {
      LoadedUnderAll(NoteOf(f, LoadText(s.files, f.path).value), s);
    }
  }

  lemma LoadedUnderAll(n0: NoteValue, s: Session)
    requires n0.name == ParseFilename(n0.file.stem).1
    requires IsAll(s.input)
    ensures var run := RepairLoaded(n0, s);
      run.result != Halt && run.session.input == s.input &&
      run.session.console == s.console && run.session.prompts == s.prompts
  {
    HealAtScoped(EolHealer, n0, s);
    var eol := HealAt(EolHealer, n0, s);
    if !eol.done {
      RestUnderAll(eol.note, eol.session, [n0]);
    } else {
      ReloadUnderAll(n0.file, eol.session, [n0]);
    }
  }

  lemma ReloadUnderAll(f: File, s: Session, loaded: seq<NoteValue>)
    requires IsAll(s.input)
    ensures var run := Reload(f, s, loaded);
      run.result != Halt && run.session.input == s.input &&
      run.session.console == s.console && run.session.prompts == s.prompts
  {
    if LoadText(s.files, f.path).Some? {
      var n1 := NoteOf(f, LoadText(s.files, f.path).value);
      RestUnderAll(n1, s, loaded + [n1]);
    }
  }

  lemma RestUnderAll(n: NoteValue, s: Session, loaded: seq<NoteValue>)
    requires n.name == ParseFilename(n.file.stem).1
    requires IsAll(s.input)
    ensures var run := RepairRest(n, s, loaded);
      run.result != Halt && run.session.input == s.input &&
      run.session.console == s.console && run.session.prompts == s.prompts
  {
    HealAtScoped(SubjectHealer, n, s);
    var subject := HealAt(SubjectHealer, n, s);
    HealAtScoped(TagsHealer, subject.note, subject.session);
  }

  /**
   * Once `skip` is answered for a file, no later healer of that file runs:
   * after the subject healer answers skip, the tags healer prompts for
   * nothing and writes nothing.
   */
  lemma SkipStopsLaterHealers(n: NoteValue, s: Session, loaded: seq<NoteValue>)
    requires n.name == ParseFilename(n.file.stem).1
    requires IsSkip(HealAt(SubjectHealer, n, s).session.input)
    ensures var subject := HealAt(SubjectHealer, n, s); var run := RepairRest(n, s, loaded);
      run.result == Continue && run.session.files == subject.session.files &&
      run.session.console == subject.session.console && run.session.prompts == subject.session.prompts &&
      run.session.input == []
  {
    var subject := HealAt(SubjectHealer, n, s);
    AnswersExclusive(subject.session.input);
    HealAtSkip(TagsHealer, subject.note, subject.session);
  }

  /**
   * Skip answered at the line-end healer: the subject and the tags healers
   * prompt for nothing and write nothing, and the scope is cleared.
   */
  lemma SkipAtEolSkipsFile(n0: NoteValue, s: Session)
    requires n0.name == ParseFilename(n0.file.stem).1 && !IsSkip(s.input)
    requires IsSkip(HealAt(EolHealer, n0, s).session.input)
    ensures var eol := HealAt(EolHealer, n0, s); var run := RepairLoaded(n0, s);
      run.result == Continue && run.loaded == [n0] && run.session.files == eol.session.files &&
      run.session.console == eol.session.console && run.session.prompts == eol.session.prompts &&
      run.session.input == []
  {
    var eol := HealAt(EolHealer, n0, s);
    AnswersExclusive(eol.session.input);
    // A skip answer repairs nothing, so the line-end healer reports false and no reload happens.
    assert !eol.done;
    SkipStopsRest(eol.note, eol.session, [n0]);
  }

  /** Under `skip`, the subject and the tags healers do nothing, and the scope is cleared. */
  lemma SkipStopsRest(n: NoteValue, s: Session, loaded: seq<NoteValue>)
    requires n.name == ParseFilename(n.file.stem).1 && IsSkip(s.input)
    ensures var run := RepairRest(n, s, loaded);
      run.result == Continue && run.session == s.(input := [])
  {
    AnswersExclusive(s.input);
    HealAtSkip(SubjectHealer, n, s);
    HealAtSkip(TagsHealer, n, s);
  }

  /**
   * After a line-end repair the note is loaded again from what was written:
   * the subject and the tags healers see the repaired note as reloaded,
   * which has no carriage return left.
   */
  lemma EolRepairReloads(n0: NoteValue, s: Session)
    requires Loaded(n0)
    requires !IsSkip(s.input) && !Satisfied(EolHealer, n0) && Accepts(Ask(s).input)
    ensures var run := RepairLoaded(n0, s);
      |run.loaded| == 2 && run.loaded[1] == Reloaded(HealEol(n0)) && Satisfied(EolHealer, run.loaded[1])
  {
    LoadedIsCoherent(n0);
    EolHealDurable(n0);
    var eol := EolRepairStep(n0, s);
    ReloadAfterEolRepair(n0, eol.session, s.files);
  }

  /** The line-end healer repairs: it reports true and writes the repaired note. */
  lemma EolRepairStep(n0: NoteValue, s: Session) returns (eol: Healed)
    requires n0.name == ParseFilename(n0.file.stem).1
    requires !IsSkip(s.input) && !Satisfied(EolHealer, n0) && Accepts(Ask(s).input)
    ensures eol == HealAt(EolHealer, n0, s)
    ensures eol.session.files == s.files[n0.file.path := NoteText.Serialize(HealEol(n0).header, HealEol(n0).body)]
    ensures RepairLoaded(n0, s) == Reload(n0.file, eol.session, [n0])
  {
    eol := HealAt(EolHealer, n0, s);
  }

  /** Reloading the file the line-end repair wrote gives the repaired note as reloaded. */
  lemma ReloadAfterEolRepair(n0: NoteValue, s: Session, before: map<string, string>)
    requires Coherent(n0)
    requires s.files == before[n0.file.path := NoteText.Serialize(HealEol(n0).header, HealEol(n0).body)]
    ensures var run := Reload(n0.file, s, [n0]); |run.loaded| == 2 && run.loaded[1] == Reloaded(HealEol(n0))
  {
    EolRepairWrites(n0, s.files, before);
  }

  /** The file the line-end repair wrote reads back as the repaired note's text. */
  lemma EolRepairWrites(n0: NoteValue, files: map<string, string>, before: map<string, string>)
    requires Coherent(n0)
    requires files == before[n0.file.path := NoteText.Serialize(HealEol(n0).header, HealEol(n0).body)]
    ensures LoadText(files, n0.file.path) == Some(NoteText.Serialize(HealEol(n0).header, HealEol(n0).body))
  {
    HealEolWritesText(n0);
  }

  /** The reload after a line-end repair never fails: the written text is not empty. */
  lemma ReloadNeverFails(n0: NoteValue, s: Session)
    requires Loaded(n0) && LoadText(s.files, n0.file.path) == Some(n0.text)
    ensures RepairLoaded(n0, s).result != LoadError
  {
    var eol := HealAt(EolHealer, n0, s);
    if !eol.quit && eol.done {
      assert RepairLoaded(n0, s) == Reload(n0.file, eol.session, [n0]);
      LoadedIsCoherent(n0);
      HealEolWritesText(n0);
      assert eol.session.files[n0.file.path] != [];
    }
  }

  /** Repairing a file fails to load only when its text cannot be read in the first place. */
  lemma RepairLoadErrorOnlyAtStart(f: File, s: Session)
    ensures RepairFile(f, s).result == LoadError <==> LoadText(s.files, f.path).None?
  {
    if LoadText(s.files, f.path).Some? {
      ReloadNeverFails(NoteOf(f, LoadText(s.files, f.path).value), s);
      assert RepairFile(f, s) == RepairLoaded(NoteOf(f, LoadText(s.files, f.path).value), s);
    }
  }

  // ----- the visitor -----

  /** `WarningVisitor`, `PrintTagsVisitor` or `HealerVisitor`. */
  datatype Kind = WarningVisitor | PrintTagsVisitor | HealerVisitor

  /** A line `print_warning` prints: about an orphan directory, or about a note. */
  datatype Warning = OrphanDirectory(dir: string) | NoteWarning(path: string, message: string)

  /** What the walk reports to a visitor: a directory left without a note, or a note file with its annex. */
  datatype Report = DirReport(dir: Dir) | FileReport(file: File)

  /** One report the walk made to the visitor, whether the visitor let the walk go on, and whether loading failed. */
  datatype Call = Call(report: Report, proceed: bool, failed: bool)

  /** The warning lines for the failing checks of the note at `path`, in order. */
  function NoteWarnings(path: string, ms: seq<string>): (ws: seq<Warning>)
    ensures |ws| == |ms|
    ensures forall i :: 0 <= i < |ms| ==> ws[i] == NoteWarning(path, ms[i])
  {
    seq(|ms|, i requires 0 <= i < |ms| => NoteWarning(path, ms[i]))
  }

  class Visitor {
    const kind: Kind
    var sphereTags: map<string, int>
    var projectTags: map<string, int>
    var tags: map<string, int>
    /** The warnings printed so far. */
    var warnings: seq<Warning>
    /** `input_`: the last answer, which carries the scope of the repairs. */
    var input: string
    /** Every report the walk made to this visitor, in order. */
    ghost var calls: seq<Call>

    constructor (kind: Kind)
      ensures this.kind == kind && Counters() == NoCounts && warnings == [] && input == [] && calls == []
    {
      this.kind := kind;
      sphereTags, projectTags, tags := map[], map[], map[];
      warnings := [];
      input := "";
      calls := [];
    }

    function Counters(): Counts
      reads this
    {
      Counts(sphereTags, projectTags, tags)
    }

    /** The state of the repair session this visitor runs with the console and the files. */
    function SessionWith(console: Console, disk: Disk): Session
      reads this, console, disk
    {
      Session(input, console.lines, console.prompts, disk.files)
    }

    /** `accumulate_tags`: count the note's sphere and project, then its other tags in the set's order. */
    method AccumulateTags(n: NoteValue)
      modifies this
      ensures Counters() == Accumulate(old(Counters()), n)
      ensures warnings == old(warnings) && input == old(input) && calls == old(calls)
    {
      ghost var c := Counters();
      if n.name.sphere.Some? {
        sphereTags := Inc(sphereTags, n.name.sphere.value);
      }
      if n.name.project.Some? {
        projectTags := Inc(projectTags, n.name.project.value);
      }
      assert sphereTags == CountPart(c.sphere, n.name.sphere) && projectTags == CountPart(c.project, n.name.project);
      var order := SortedElems(n.tags);
      SortedElemsDistinct(n.tags);
      var others := CountOthers(tags, order, sphereTags, projectTags);
      tags := others;
      assert Counters() == Counts(sphereTags, projectTags, IncAll(c.other, OtherTags(n.tags, sphereTags, projectTags)));
    }

    /** `load_note`: construct the note from the text of its file and count its tags; none when the file cannot be read. */
    method LoadNote(f: File, disk: Disk) returns (note: Note?)
      modifies this
      ensures note == null <==> LoadText(disk.files, f.path).None?
      ensures note != null ==> fresh(note) && note.Value() == NoteOf(f, LoadText(disk.files, f.path).value)
      ensures Counters() == if note == null then old(Counters()) else Accumulate(old(Counters()), note.Value())
      ensures warnings == old(warnings) && input == old(input) && calls == old(calls)
    {
      var t := LoadText(disk.files, f.path);
      if t.None? {
        return null;
      }
      note := new Note(f, t.value);
      AccumulateTags(note.Value());
    }

    /** `directory(path)`: the audit warns about an orphan directory; every visitor lets the walk go on. */
    method Directory(d: Dir) returns (proceed: bool)
      modifies this
      ensures proceed
      ensures calls == old(calls) + [Call(DirReport(d), proceed, false)]
      ensures warnings == old(warnings) + (if kind == WarningVisitor then [OrphanDirectory(d.path)] else [])
      ensures Counters() == old(Counters()) && input == old(input)
    {
      if kind == WarningVisitor {
        warnings := warnings + [OrphanDirectory(d.path)];
      }
      proceed := true;
      calls := calls + [Call(DirReport(d), proceed, false)];
    }

    /** `WarningVisitor::file`: load the note and warn about each check it fails, in order. */
    method Audit(f: File, disk: Disk) returns (r: FileResult)
      modifies this
      ensures r != Halt
      ensures r == LoadError <==> LoadText(disk.files, f.path).None?
      ensures r == LoadError ==> Counters() == old(Counters()) && warnings == old(warnings)
      ensures r == Continue ==>
        var n := NoteOf(f, LoadText(disk.files, f.path).value);
        Counters() == Accumulate(old(Counters()), n) && warnings == old(warnings) + NoteWarnings(f.path, Warnings(n))
      ensures input == old(input) && calls == old(calls)
    {
      var note := LoadNote(f, disk);
      if note == null {
        return LoadError;
      }
      var ms := Warnings(note.Value());
      warnings := warnings + NoteWarnings(f.path, ms);
      return Continue;
    }

    /**
     * `heal<H>(note)`: when the file is being skipped, report true at once;
     * otherwise, when the healer is unsatisfied, prompt unless the scope is
     * `all` or `file`, then repair, abort or pass according to the answer.
     */
    method HealStep(k: Healer, note: Note, disk: Disk, console: Console) returns (done: bool, quit: bool)
      requires note.name == ParseFilename(note.file.stem).1
      modifies this`input, note, disk, console
      ensures var h := HealAt(k, old(note.Value()), old(SessionWith(console, disk)));
        done == h.done && quit == h.quit && note.Value() == h.note && SessionWith(console, disk) == h.session
    {
      if IsSkip(input) {
        return true, false;
      }
      var satisfied := Satisfied(k, note.Value());
      if satisfied {
        return false, false;
      }
      done, quit := Unsatisfied(k, note, disk, console);
    }


    /** The end of `heal<H>` for an unsatisfied healer: prompt unless the scope says, then act on the answer. */
    method Unsatisfied(k: Healer, note: Note, disk: Disk, console: Console) returns (done: bool, quit: bool)
      requires note.name == ParseFilename(note.file.stem).1
      requires !IsSkip(input) && !Satisfied(k, note.Value())
      modifies this`input, note, disk, console
      ensures var h := Respond(k, old(note.Value()), Ask(old(SessionWith(console, disk))));
        done == h.done && quit == h.quit && note.Value() == h.note && SessionWith(console, disk) == h.session
    {
      ghost var asked := Ask(SessionWith(console, disk));
      if !IsAll(input) && !IsFile(input) {
        input := console.Prompt();
      }
      assert SessionWith(console, disk) == asked;
      done, quit := Answered(k, note, disk, console);
    }

    /** Act on the answer in `input`: repair and write the note, signal quit, or pass. */
    method Answered(k: Healer, note: Note, disk: Disk, console: Console) returns (done: bool, quit: bool)
      requires note.name == ParseFilename(note.file.stem).1 && !Satisfied(k, note.Value())
      modifies note, disk
      ensures var h := Respond(k, old(note.Value()), old(SessionWith(console, disk)));
        done == h.done && quit == h.quit && note.Value() == h.note && SessionWith(console, disk) == h.session
    {
      if IsYes(input) || IsFile(input) || IsAll(input) {
        ghost var n := note.Value();
        ghost var s := SessionWith(console, disk);
        RepairableHasNames(k, n);
        assert Respond(k, n, s) == Healed(true, false, Heal(k, n), s.(files := s.files[n.file.path := NoteText.Serialize(Heal(k, n).header, Heal(k, n).body)]));
        HealNote(k, note, disk);
        return true, false;
      } else if IsQuit(input) {
        return false, true;
      }
      return false, false;
    }

    /** `HealerVisitor::file`. */
    method HealFile(f: File, disk: Disk, console: Console) returns (r: FileResult)
      modifies this, disk, console
      ensures var run := RepairFile(f, old(SessionWith(console, disk)));
        r == run.result && SessionWith(console, disk) == run.session &&
        Counters() == AccumulateAll(old(Counters()), run.loaded)
      ensures warnings == old(warnings) && calls == old(calls)
    {
      ghost var c := Counters();
      var note := LoadNote(f, disk);
      if note == null {
        return LoadError;
      }
      assert AccumulateAll(Accumulate(c, note.Value()), []) == Accumulate(c, note.Value());
      r := RepairLoadedOf(note, disk, console, c);
    }

    /** The line-end healer on the loaded note, then the reload or the rest of the file. */
    method RepairLoadedOf(note: Note, disk: Disk, console: Console, ghost c: Counts) returns (r: FileResult)
      requires note.name == ParseFilename(note.file.stem).1
      requires Counters() == AccumulateAll(c, [note.Value()])
      modifies this, note, disk, console
      ensures var run := RepairLoaded(old(note.Value()), old(SessionWith(console, disk)));
        r == run.result && SessionWith(console, disk) == run.session &&
        Counters() == AccumulateAll(c, run.loaded)
      ensures warnings == old(warnings) && calls == old(calls)
    {
      ghost var n0 := note.Value();
      var done, quit := HealStep(EolHealer, note, disk, console);
      if quit {
        return Halt;
      }
      if done {
        r := ReloadOf(note.file, disk, console, [n0], c);
      } else {
        r := RepairRestOf(note, disk, console, [n0]);
      }
    }

    /** `note = load_note(file)` after a line-end repair, then the rest of the file. */
    method ReloadOf(f: File, disk: Disk, console: Console, ghost loaded: seq<NoteValue>, ghost c: Counts) returns (r: FileResult)
      requires Counters() == AccumulateAll(c, loaded)
      modifies this, disk, console
      ensures var run := Reload(f, old(SessionWith(console, disk)), loaded);
        r == run.result && SessionWith(console, disk) == run.session &&
        Counters() == AccumulateAll(c, run.loaded)
      ensures warnings == old(warnings) && calls == old(calls)
    {
      ghost var s := SessionWith(console, disk);
      var note := LoadNote(f, disk);
      if note == null {
        return LoadError;
      }
      assert SessionWith(console, disk) == s;
      assert Reload(f, s, loaded) == RepairRest(note.Value(), s, loaded + [note.Value()]);
      AccumulateSnoc(c, loaded, note.Value());
      r := RepairRestOf(note, disk, console, loaded + [note.Value()]);
    }

    /** The subject and the tags healers on the loaded note, then the end of the file. */
    method RepairRestOf(note: Note, disk: Disk, console: Console, ghost loaded: seq<NoteValue>) returns (r: FileResult)
      requires note.name == ParseFilename(note.file.stem).1
      modifies this`input, note, disk, console
      ensures var run := RepairRest(old(note.Value()), old(SessionWith(console, disk)), loaded);
        r == run.result && SessionWith(console, disk) == run.session
    {
      var done, quit := HealStep(SubjectHealer, note, disk, console);
      if quit {
        return Halt;
      }
      done, quit := HealStep(TagsHealer, note, disk, console);
      if quit {
        return Halt;
      }
      if !IsAll(input) {
        input := "";
      }
      return Continue;
    }

    /** `file(File)` of each visitor; the walk goes on unless the result is `Halt`. */
    method File(f: File, disk: Disk, console: Console) returns (r: FileResult)
      modifies this, disk, console
      ensures calls == old(calls) + [Call(FileReport(f), r != Halt, r == LoadError)]
      ensures kind != HealerVisitor ==>
        r != Halt && input == old(input) && disk.files == old(disk.files) &&
        console.lines == old(console.lines) && console.prompts == old(console.prompts)
      ensures kind == WarningVisitor ==>
        (r == LoadError <==> LoadText(disk.files, f.path).None?) &&
        (r == LoadError ==> Counters() == old(Counters()) && warnings == old(warnings)) &&
        (r == Continue ==>
          var n := NoteOf(f, LoadText(disk.files, f.path).value);
          Counters() == Accumulate(old(Counters()), n) && warnings == old(warnings) + NoteWarnings(f.path, Warnings(n)))
      ensures kind == PrintTagsVisitor ==>
        warnings == old(warnings) &&
        (r == LoadError <==> LoadText(disk.files, f.path).None?) &&
        Counters() == (if r == LoadError then old(Counters())
                       else Accumulate(old(Counters()), NoteOf(f, LoadText(disk.files, f.path).value)))
      ensures kind == HealerVisitor ==>
        var run := RepairFile(f, old(SessionWith(console, disk)));
        r == run.result && SessionWith(console, disk) == run.session &&
        Counters() == AccumulateAll(old(Counters()), run.loaded) && warnings == old(warnings)
      ensures IsAll(old(input)) ==>
        r != Halt && input == old(input) && console.lines == old(console.lines) && console.prompts == old(console.prompts)
    {
      if kind == WarningVisitor {
        r := Audit(f, disk);
      } else if kind == PrintTagsVisitor {
        var note := LoadNote(f, disk);
        r := if note == null then LoadError else Continue;
      } else {
        AllScopeSuppressesPrompts(f, SessionWith(console, disk));
        r := HealFile(f, disk, console);
      }
      calls := calls + [Call(FileReport(f), r != Halt, r == LoadError)];
    }
  }

  /** `AllSuppressesPrompts`, for any scope. */
  lemma AllScopeSuppressesPrompts(f: File, s: Session)
    ensures IsAll(s.input) ==>
      var run := RepairFile(f, s);
      run.result != Halt && run.session.input == s.input &&
      run.session.console == s.console && run.session.prompts == s.prompts
  {
    if IsAll(s.input) {
      AllSuppressesPrompts(f, s);
    }
  }

  /** One more loaded note at the end of the sequence. */
  lemma {:induction false} AccumulateSnoc(c: Counts, ns: seq<NoteValue>, n: NoteValue)
    ensures AccumulateAll(c, ns + [n]) == Accumulate(AccumulateAll(c, ns), n)
    decreases |ns|
  {
    if ns == [] {
      assert [] + [n] == [n];
      assert AccumulateAll(Accumulate(c, n), []) == Accumulate(c, n);
    } else {
      assert (ns + [n])[1..] == ns[1..] + [n];
      AccumulateSnoc(Accumulate(c, ns[0]), ns[1..], n);
    }
  }

  /** Count, one after the other, the tags of `order` that are neither a sphere nor a project. */
  method CountOthers(start: map<string, int>, order: seq<string>, spheres: map<string, int>, projects: map<string, int>)
    returns (others: map<string, int>)
    requires Distinct(order)
    ensures others == IncAll(start, OtherTags(Elems(order), spheres, projects))
  {
    others := start;
    for i := 0 to |order|
      invariant others == CountTags(start, order[..i], spheres, projects)
    {
      assert order[..i + 1][..i] == order[..i];
      others := if order[i] !in spheres && order[i] !in projects then Inc(others, order[i]) else others;
    }
    assert order[..|order|] == order;
    CountTagsIsIncAll(start, order, spheres, projects);
  }

  /** The tags in ascending order, each once. */
  lemma SortedElemsDistinct(tags: set<string>)
    ensures Distinct(SortedElems(tags)) && Elems(SortedElems(tags)) == tags
  {
    AscendingDistinct(SortedElems(tags));
  }

  /** No element twice. */
  predicate Distinct(s: seq<string>) {
    forall i, j :: 0 <= i < |s| && 0 <= j < |s| && i != j ==> s[i] != s[j]
  }

  /** The counter after counting the other tags of `s` in order, the last one last. */
  function CountTags(m: map<string, int>, s: seq<string>, spheres: map<string, int>, projects: map<string, int>): map<string, int>
    decreases |s|
  {
    if s == [] then m
    else
      var before := CountTags(m, s[..|s| - 1], spheres, projects);
      var t := s[|s| - 1];
      if t !in spheres && t !in projects then Inc(before, t) else before
  }

  /** Counting distinct tags one by one counts each other tag once, whatever their order. */
  lemma {:induction false} CountTagsIsIncAll(m: map<string, int>, s: seq<string>, spheres: map<string, int>, projects: map<string, int>)
    requires Distinct(s)
    ensures CountTags(m, s, spheres, projects) == IncAll(m, OtherTags(Elems(s), spheres, projects))
    decreases |s|
  {
    if s == [] {
      assert OtherTags(Elems(s), spheres, projects) == {};
      assert IncAll(m, {}) == m;
    } else {
      var init, t := s[..|s| - 1], s[|s| - 1];
      assert Distinct(init);
      CountTagsIsIncAll(m, init, spheres, projects);
      ElemsSnoc(s);
      var before := OtherTags(Elems(init), spheres, projects);
      if t !in spheres && t !in projects {
        assert OtherTags(Elems(s), spheres, projects) == before + {t};
        IncAllStep(m, before, t);
      } else {
        assert OtherTags(Elems(s), spheres, projects) == before;
      }
    }
  }

  /** The elements of a sequence. */
  function Elems(s: seq<string>): set<string> {
    set t | t in s
  }

  /** The last element of a sequence without repetition is not among the ones before it. */
  lemma ElemsSnoc(s: seq<string>)
    requires s != [] && Distinct(s)
    ensures Elems(s) == Elems(s[..|s| - 1]) + {s[|s| - 1]}
    ensures s[|s| - 1] !in Elems(s[..|s| - 1])
  {
    var init := s[..|s| - 1];
    assert s == init + [s[|s| - 1]];
    forall t | t in init ensures t != s[|s| - 1] {
      var j :| 0 <= j < |init| && init[j] == t;
      assert s[j] == t;
    }
  }

  /** One more key counted by `IncAll`. */
  lemma IncAllStep(m: map<string, int>, ks: set<string>, k: string)
    requires k !in ks
    ensures IncAll(m, ks + {k}) == Inc(IncAll(m, ks), k)
  {
    var a, b := IncAll(m, ks + {k}), Inc(IncAll(m, ks), k);
    assert a.Keys == b.Keys;
    forall j | j in a.Keys ensures a[j] == b[j] {
      assert Get(a, j) == Get(b, j);
    }
  }
}
