/**
 * `visit` (notes_tool.cpp:437-492): the walk over one directory listing.
 * The entries that are not ignored are split into directories and regular
 * files; each file takes as its annex the first remaining directory with the
 * same stem; the directories left over are reported to the visitor first,
 * then the files in listing order, and the first report the visitor answers
 * with false ends the walk.
 *
 * The listing, the kind of each entry, its stem and whether a directory is
 * empty are given, as the file system would report them.
 */
module Walk {
  import opened Options
  import opened Notes
  import opened Visitors
  import opened Answers
  import opened Checks

  /** What the file system says an entry is. */
  datatype EntryKind = Directory | RegularFile | OtherKind

  /** One entry of the listing: its path, its filename, stem and extension, its kind, and whether it is an empty directory. */
  datatype Entry = Entry(path: string, filename: string, stem: string, ext: string, kind: EntryKind, empty: bool)

  /**
   * `is_ignored`: the filename matches `\.notesignore` or one of the
   * patterns of the ignore file; the patterns are given as the set of the
   * filenames they match.
   */
  predicate IsIgnored(filename: string, ignored: set<string>) {
    filename == ".notesignore" || filename in ignored
  }

  /** An entry that is not ignored and is a directory. */
  predicate KeptDir(e: Entry, ignored: set<string>) {
    !IsIgnored(e.filename, ignored) && e.kind == Directory
  }

  /** An entry that is not ignored and is a regular file. */
  predicate KeptFile(e: Entry, ignored: set<string>) {
    !IsIgnored(e.filename, ignored) && e.kind == RegularFile
  }

  function DirOf(e: Entry): Dir {
    Dir(e.path, e.stem, e.empty)
  }

  /** The directories of the listing that are not ignored, in listing order. */
  function DirsOf(listing: seq<Entry>, ignored: set<string>): (dirs: seq<Dir>)
    ensures |dirs| <= |listing|
    decreases |listing|
  {
    if listing == [] then []
    else
      var init, e := listing[..|listing| - 1], listing[|listing| - 1];
      DirsOf(init, ignored) + (if KeptDir(e, ignored) then [DirOf(e)] else [])
  }

  /** The regular files of the listing that are not ignored, in listing order. */
  function FilesOf(listing: seq<Entry>, ignored: set<string>): (files: seq<Entry>)
    ensures |files| <= |listing|
    decreases |listing|
  {
    if listing == [] then []
    else
      var init, e := listing[..|listing| - 1], listing[|listing| - 1];
      FilesOf(init, ignored) + (if KeptFile(e, ignored) then [e] else [])
  }

  /** The directories kept are exactly the directory entries that are not ignored. */
  lemma {:induction false} DirsOfMembers(listing: seq<Entry>, ignored: set<string>, d: Dir)
    ensures d in DirsOf(listing, ignored) <==> exists e :: e in listing && KeptDir(e, ignored) && DirOf(e) == d
    decreases |listing|
  {
    if listing != [] {
      var init, e := listing[..|listing| - 1], listing[|listing| - 1];
      DirsOfMembers(init, ignored, d);
      assert listing == init + [e];
    }
  }

  /** The files kept are exactly the regular-file entries that are not ignored. */
  lemma {:induction false} FilesOfMembers(listing: seq<Entry>, ignored: set<string>, x: Entry)
    ensures x in FilesOf(listing, ignored) <==> x in listing && KeptFile(x, ignored)
    decreases |listing|
  {
    if listing != [] {
      var init, e := listing[..|listing| - 1], listing[|listing| - 1];
      FilesOfMembers(init, ignored, x);
      assert listing == init + [e];
    }
  }

  /** The first loop of `visit`: sort the entries that are not ignored into directories and regular files. */
  method Partition(listing: seq<Entry>, ignored: set<string>) returns (dirs: seq<Dir>, filepaths: seq<Entry>)
    ensures dirs == DirsOf(listing, ignored) && filepaths == FilesOf(listing, ignored)
  {
    dirs, filepaths := [], [];
    for i := 0 to |listing|
      invariant dirs == DirsOf(listing[..i], ignored) && filepaths == FilesOf(listing[..i], ignored)
    {
      var x := listing[i];
      assert listing[..i + 1][..i] == listing[..i];
      if IsIgnored(x.filename, ignored) {
        continue;
      }
      if x.kind == Directory {
        dirs := dirs + [DirOf(x)];
      }
      if x.kind == RegularFile {
        filepaths := filepaths + [x];
      }
    }
    assert listing[..|listing|] == listing;
  }

  // ----- annex pairing -----

  /** `std::find_if` over the directories for the stem `stem`: the first index that has it, or `|dirs|`. */
  function FirstStem(dirs: seq<Dir>, stem: string): (i: nat)
    ensures i <= |dirs|
    ensures i < |dirs| ==> dirs[i].stem == stem
    ensures forall j :: 0 <= j < i ==> dirs[j].stem != stem
    decreases |dirs|
  {
    if dirs == [] then 0
    else if dirs[0].stem == stem then 0
    else 1 + FirstStem(dirs[1..], stem)
  }

  /** `std::find_if`, by a loop over the directories. */
  method FindStem(dirs: seq<Dir>, stem: string) returns (i: nat)
    ensures i == FirstStem(dirs, stem)
  {
    i := 0;
    while i < |dirs| && dirs[i].stem != stem
      invariant i <= FirstStem(dirs, stem)
    {
      i := i + 1;
    }
  }

  /** The sequence without its element at `i`: `vector::erase`. */
  function Erase(s: seq<Dir>, i: nat): (r: seq<Dir>)
    requires i < |s|
    ensures |r| == |s| - 1
    ensures multiset(r) + multiset{s[i]} == multiset(s)
  {
    assert s == s[..i] + [s[i]] + s[i + 1..];
    s[..i] + s[i + 1..]
  }

  /** The pairing of the files with their annexes, and the directories left over. */
  datatype Pairing = Pairing(files: seq<File>, rest: seq<Dir>)

  /** The file `x` with the annex `find_if` gives it from `dirs`, or none. */
  function Attach(x: Entry, dirs: seq<Dir>): File {
    var i := FirstStem(dirs, x.stem);
    File(x.path, x.stem, x.ext, if i < |dirs| then Some(dirs[i]) else None)
  }

  /** The directories left once `x` has taken its annex. */
  function Detach(x: Entry, dirs: seq<Dir>): (r: seq<Dir>)
    ensures |r| <= |dirs|
  {
    var i := FirstStem(dirs, x.stem);
    if i < |dirs| then Erase(dirs, i) else dirs
  }

  /** The second loop of `visit`: each file, in order, takes the first remaining directory with its stem. */
  function Pair(fps: seq<Entry>, dirs: seq<Dir>): (p: Pairing)
    ensures |p.files| == |fps| && |p.rest| <= |dirs|
    decreases |fps|
  {
    if fps == [] then Pairing([], dirs)
    else
      var tail := Pair(fps[1..], Detach(fps[0], dirs));
      Pairing([Attach(fps[0], dirs)] + tail.files, tail.rest)
  }

  /** The `k`-th file keeps the path, stem and extension of the `k`-th regular file, and an annex it takes has its stem. */
  lemma {:induction false} PairKeepsFiles(fps: seq<Entry>, dirs: seq<Dir>, k: nat)
    requires k < |fps|
    ensures var f := Pair(fps, dirs).files[k];
      f.path == fps[k].path && f.stem == fps[k].stem && f.ext == fps[k].ext &&
      (f.annex.Some? ==> f.annex.value.stem == fps[k].stem)
    decreases |fps|
  {
    if k > 0 {
      PairKeepsFiles(fps[1..], Detach(fps[0], dirs), k - 1);
    }
  }

  /** The annexes the files took, in file order. */
  function Annexes(files: seq<File>): (ds: seq<Dir>)
    ensures |ds| <= |files|
  {
    if files == [] then []
    else (if files[0].annex.Some? then [files[0].annex.value] else []) + Annexes(files[1..])
  }

  /**
   * No directory is lost or duplicated: the directories left over and the
   * annexes taken are, together, the directories of the listing.  So each
   * directory is the annex of at most one file.
   */
  lemma {:induction false} PairConserves(fps: seq<Entry>, dirs: seq<Dir>)
    ensures var p := Pair(fps, dirs); multiset(p.rest) + multiset(Annexes(p.files)) == multiset(dirs)
    decreases |fps|
  {
    if fps != [] {
      var rest := Detach(fps[0], dirs);
      PairConserves(fps[1..], rest);
      var p := Pair(fps, dirs);
      var tail := Pair(fps[1..], rest);
      assert p.files[1..] == tail.files;
    }
  }

  /**
   * A directory left over has a stem no file has: a file whose stem matches
   * a directory that is never paired takes an annex of its own.
   */
  lemma {:induction false} LeftoverMeansPaired(fps: seq<Entry>, dirs: seq<Dir>, d: Dir, k: nat)
    requires d in Pair(fps, dirs).rest
    requires k < |fps| && fps[k].stem == d.stem
    ensures Pair(fps, dirs).files[k].annex.Some?
    decreases |fps|
  {
    var rest := Detach(fps[0], dirs);
    var tail := Pair(fps[1..], rest);
    var p := Pair(fps, dirs);
    assert p.files == [Attach(fps[0], dirs)] + tail.files && p.rest == tail.rest;
    RestShrinks(fps[1..], rest);
    assert d in rest;
    if k == 0 {
      DetachShrinks(fps[0], dirs, d);
      assert FirstStem(dirs, fps[0].stem) < |dirs| by {
        var j :| 0 <= j < |dirs| && dirs[j] == d;
      }
      assert p.files[0] == Attach(fps[0], dirs);
    } else {
      assert d in tail.rest && fps[1..][k - 1] == fps[k];
      LeftoverMeansPaired(fps[1..], rest, d, k - 1);
      ConsAt(Attach(fps[0], dirs), tail.files, k);
    }
  }

  /** The element `k` of a sequence with one more file in front. */
  lemma ConsAt(x: File, s: seq<File>, k: nat)
    requires 0 < k <= |s|
    ensures ([x] + s)[k] == s[k - 1]
  {
  }

  /** The directories left over are among the ones the pairing started from. */
  lemma {:induction false} RestShrinks(fps: seq<Entry>, dirs: seq<Dir>)
    ensures forall d :: d in Pair(fps, dirs).rest ==> d in dirs
    decreases |fps|
  {
    if fps != [] {
      var rest := Detach(fps[0], dirs);
      RestShrinks(fps[1..], rest);
      forall d | d in rest ensures d in dirs {
        DetachShrinks(fps[0], dirs, d);
      }
    }
  }

  /** Taking an annex only removes directories. */
  lemma DetachShrinks(x: Entry, dirs: seq<Dir>, d: Dir)
    requires d in Detach(x, dirs)
    ensures d in dirs
  {
    var i := FirstStem(dirs, x.stem);
    if i < |dirs| {
      assert multiset(Erase(dirs, i)) <= multiset(dirs);
      assert d in multiset(Erase(dirs, i));
    }
  }

  /** One turn of the second loop of `visit`: `find_if` for the stem, then `erase` of the directory found. */
  method TakeAnnex(x: Entry, dirs: seq<Dir>) returns (file: File, rest: seq<Dir>)
    ensures file == Attach(x, dirs) && rest == Detach(x, dirs)
  {
    var it := FindStem(dirs, x.stem);
    file := File(x.path, x.stem, x.ext, None);
    rest := dirs;
    if it < |dirs| {
      file := file.(annex := Some(dirs[it]));
      rest := dirs[..it] + dirs[it + 1..];
    }
  }

  /** The second loop of `visit`: the files in order, each taking its annex from the directories still unpaired. */
  method PairFiles(filepaths: seq<Entry>, dirs0: seq<Dir>) returns (files: seq<File>, dirs: seq<Dir>)
    ensures Pairing(files, dirs) == Pair(filepaths, dirs0)
  {
    files, dirs := [], dirs0;
    for i := 0 to |filepaths|
      invariant Pair(filepaths, dirs0) == Pairing(files + Pair(filepaths[i..], dirs).files, Pair(filepaths[i..], dirs).rest)
    {
      ghost var before := dirs;
      var file;
      file, dirs := TakeAnnex(filepaths[i], dirs);
      PairStep(filepaths, i, before, file, dirs);
      files := files + [file];
    }
    assert files + Pair([], dirs).files == files;
  }

  /** One step of the pairing loop, as `Pair` describes it. */
  lemma PairStep(fps: seq<Entry>, i: nat, before: seq<Dir>, file: File, after: seq<Dir>)
    requires i < |fps|
    requires file == Attach(fps[i], before) && after == Detach(fps[i], before)
    ensures Pair(fps[i..], before).rest == Pair(fps[i + 1..], after).rest
    ensures Pair(fps[i..], before).files == [file] + Pair(fps[i + 1..], after).files
  {
    assert fps[i..][0] == fps[i] && fps[i..][1..] == fps[i + 1..];
  }

  // ----- the reports to the visitor -----

  /** The reports `visit` makes, in order: the directories left over, then every file with its annex. */
  function Reports(listing: seq<Entry>, ignored: set<string>): seq<Report> {
    var p := Pair(FilesOf(listing, ignored), DirsOf(listing, ignored));
    DirReports(p.rest) + FileReports(p.files)
  }

  function DirReports(ds: seq<Dir>): (rs: seq<Report>)
    ensures |rs| == |ds| && forall i :: 0 <= i < |ds| ==> rs[i] == DirReport(ds[i])
  {
    seq(|ds|, i requires 0 <= i < |ds| => DirReport(ds[i]))
  }

  function FileReports(fs: seq<File>): (rs: seq<Report>)
    ensures |rs| == |fs| && forall i :: 0 <= i < |fs| ==> rs[i] == FileReport(fs[i])
  {
    seq(|fs|, i requires 0 <= i < |fs| => FileReport(fs[i]))
  }

  /**
   * The calls the walk made follow the reports in order, every call but the
   * last let the walk go on, and the walk succeeds exactly when every
   * report was made and none was answered with false.
   */
  predicate Gated(made: seq<Call>, reports: seq<Report>, ok: bool) {
    |made| <= |reports| &&
    (forall i :: 0 <= i < |made| ==> made[i].report == reports[i]) &&
    (forall i :: 0 <= i < |made| - 1 ==> made[i].proceed) &&
    (ok ==> |made| == |reports| && forall i :: 0 <= i < |made| ==> made[i].proceed) &&
    (!ok ==> made != [] && !made[|made| - 1].proceed)
  }

  /** A prefix of calls that all let the walk go on keeps the gating of the calls after it. */
  lemma GatedAfter(pre: seq<Call>, made: seq<Call>, before: seq<Report>, after: seq<Report>, reports: seq<Report>, ok: bool)
    requires reports == before + after
    requires |pre| == |before|
    requires forall i :: 0 <= i < |pre| ==> pre[i].report == before[i] && pre[i].proceed
    requires Gated(made, after, ok)
    ensures Gated(pre + made, reports, ok)
  {
    var all := pre + made;
    forall i | 0 <= i < |all| ensures all[i].report == (before + after)[i] {
      if i >= |pre| {
        assert all[i] == made[i - |pre|];
      }
    }
  }

  // ----- what the walk leaves behind -----

  /** The warnings `WarningVisitor::directory` prints for the directories `ds`, in order. */
  function OrphanWarnings(ds: seq<Dir>): (ws: seq<Warning>)
    ensures |ws| == |ds| && forall i :: 0 <= i < |ds| ==> ws[i] == OrphanDirectory(ds[i].path)
  {
    seq(|ds|, i requires 0 <= i < |ds| => OrphanDirectory(ds[i].path))
  }

  /** The notes of the files whose text can be loaded from `files`, in order; the others are skipped. */
  function LoadedNotes(fs: seq<File>, files: map<string, string>): (ns: seq<NoteValue>)
    ensures |ns| <= |fs|
    decreases |fs|
  {
    if fs == [] then []
    else
      var init, f := fs[..|fs| - 1], fs[|fs| - 1];
      var t := LoadText(files, f.path);
      LoadedNotes(init, files) + (if t.Some? then [NoteOf(f, t.value)] else [])
  }

  /** The warnings `WarningVisitor::file` prints for the loaded notes `ns`: each note's failing checks, note after note. */
  function NotesWarnings(ns: seq<NoteValue>): seq<Warning>
    decreases |ns|
  {
    if ns == [] then []
    else
      var init, n := ns[..|ns| - 1], ns[|ns| - 1];
      NotesWarnings(init) + NoteWarnings(n.file.path, Warnings(n))
  }

  /** Where a repair walk ends: whether it went through every file, the session, and the counters. */
  datatype WalkEnd = WalkEnd(ok: bool, session: Session, counts: Counts)

  /**
   * The repair visitor's walk over the files `fs`: each file repaired in
   * turn from the session the previous one left, its loaded notes counted,
   * until a file answers quit.
   */
  function RepairWalk(fs: seq<File>, s: Session, c: Counts): (w: WalkEnd)
    ensures fs == [] ==> w == WalkEnd(true, s, c)
    decreases |fs|
  {
    if fs == [] then WalkEnd(true, s, c)
    else
      var run := RepairFile(fs[0], s);
      var c' := AccumulateAll(c, run.loaded);
      if run.result == Halt then WalkEnd(false, run.session, c')
      else RepairWalk(fs[1..], run.session, c')
  }

  /** Under the scope `all` the repair walk goes through every file and keeps the scope, the console and the prompts. */
  lemma {:induction false} RepairWalkUnderAll(fs: seq<File>, s: Session, c: Counts)
    ensures var w := RepairWalk(fs, s, c);
      IsAll(s.input) ==> w.ok && w.session.input == s.input && w.session.console == s.console && w.session.prompts == s.prompts
    decreases |fs|
  {
    if fs != [] && IsAll(s.input) {
      AllSuppressesPrompts(fs[0], s);
      var run := RepairFile(fs[0], s);
      RepairWalkUnderAll(fs[1..], run.session, AccumulateAll(c, run.loaded));
    }
  }

  /** One more file at the end: its note joins the loaded notes when its text loads. */
  lemma LoadedNotesStep(fs: seq<File>, i: nat, files: map<string, string>)
    requires i < |fs|
    ensures var t := LoadText(files, fs[i].path);
      LoadedNotes(fs[..i + 1], files) == LoadedNotes(fs[..i], files) + (if t.Some? then [NoteOf(fs[i], t.value)] else [])
  {
    assert fs[..i + 1][..i] == fs[..i];
  }

  /** One more loaded note at the end: its warnings follow the others. */
  lemma NotesWarningsSnoc(ns: seq<NoteValue>, n: NoteValue)
    ensures NotesWarnings(ns + [n]) == NotesWarnings(ns) + NoteWarnings(n.file.path, Warnings(n))
  {
    assert (ns + [n])[..|ns|] == ns;
  }

  /**
   * The directories left over, in order.  Every visitor answers `directory`
   * with true, so the walk never ends here; the warning visitor prints one
   * warning per directory.
   */
  method ReportDirs(dirs: seq<Dir>, v: Visitor) returns (ghost made: seq<Call>)
    modifies v
    ensures v.calls == old(v.calls) + made
    ensures |made| == |dirs| && forall j :: 0 <= j < |dirs| ==> made[j] == Call(DirReport(dirs[j]), true, false)
    ensures v.warnings == old(v.warnings) + (if v.kind == WarningVisitor then OrphanWarnings(dirs) else [])
    ensures v.input == old(v.input) && v.Counters() == old(v.Counters())
  {
    made := [];
    for i := 0 to |dirs|
      invariant v.calls == old(v.calls) + made
      invariant |made| == i
      invariant forall j :: 0 <= j < i ==> made[j] == Call(DirReport(dirs[j]), true, false)
      invariant v.warnings == old(v.warnings) + (if v.kind == WarningVisitor then OrphanWarnings(dirs[..i]) else [])
      invariant v.input == old(v.input) && v.Counters() == old(v.Counters())
    {
      var proceed := v.Directory(dirs[i]);
      made := made + [Call(DirReport(dirs[i]), proceed, false)];
      assert OrphanWarnings(dirs[..i + 1]) == OrphanWarnings(dirs[..i]) + [OrphanDirectory(dirs[i].path)];
    }
    assert dirs[..|dirs|] == dirs;
  }

  /**
   * The files with their annexes, in order; the first the visitor answers
   * with false ends the walk, and a file whose text cannot be loaded is
   * reported on the error stream and the walk goes on.  The warning and
   * tag-printing visitors change no file and count the notes that load;
   * the repair visitor's files, console, scope and counters are those of
   * `RepairWalk`.
   */
  method ReportFiles(files: seq<File>, v: Visitor, disk: Disk, console: Console) returns (ok: bool, ghost made: seq<Call>)
    modifies v, disk, console
    ensures v.calls == old(v.calls) + made
    ensures Gated(made, FileReports(files), ok)
    ensures v.kind != HealerVisitor ==>
      ok && v.SessionWith(console, disk) == old(v.SessionWith(console, disk)) &&
      v.Counters() == AccumulateAll(old(v.Counters()), LoadedNotes(files, disk.files)) &&
      v.warnings == old(v.warnings) + (if v.kind == WarningVisitor then NotesWarnings(LoadedNotes(files, disk.files)) else [])
    ensures v.kind == HealerVisitor ==>
      var w := RepairWalk(files, old(v.SessionWith(console, disk)), old(v.Counters()));
      ok == w.ok && v.SessionWith(console, disk) == w.session && v.Counters() == w.counts && v.warnings == old(v.warnings)
    ensures IsAll(old(v.input)) ==>
      ok && v.input == old(v.input) && console.lines == old(console.lines) && console.prompts == old(console.prompts)
  {
    made := [];
    ghost var s0, c0, w0 := v.SessionWith(console, disk), v.Counters(), v.warnings;
    for i := 0 to |files|
      invariant v.calls == old(v.calls) + made
      invariant |made| == i
      invariant forall j :: 0 <= j < i ==> made[j].report == FileReport(files[j]) && made[j].proceed
      invariant WalkedUpTo(v, console, disk, files, i, s0, c0, w0)
    {
      var r := ReportFile(files, i, v, disk, console, s0, c0, w0);
      made := made + [Call(FileReport(files[i]), r != Halt, r == LoadError)];
      if r == Halt {
        RepairWalkUnderAll(files, s0, c0);
        return false, made;
      }
    }
    WalkedAll(v, console, disk, files, s0, c0, w0);
    RepairWalkUnderAll(files, s0, c0);
    ok := true;
  }

  /** Once every file is reported, the walk is over: what `WalkedUpTo` says of the whole sequence. */
  lemma WalkedAll(v: Visitor, console: Console, disk: Disk, files: seq<File>, s0: Session, c0: Counts, w0: seq<Warning>)
    requires WalkedUpTo(v, console, disk, files, |files|, s0, c0, w0)
    ensures v.kind != HealerVisitor ==>
      v.SessionWith(console, disk) == s0 &&
      v.Counters() == AccumulateAll(c0, LoadedNotes(files, s0.files)) &&
      v.warnings == w0 + (if v.kind == WarningVisitor then NotesWarnings(LoadedNotes(files, s0.files)) else [])
    ensures v.kind == HealerVisitor ==>
      var w := RepairWalk(files, s0, c0);
      w.ok && v.SessionWith(console, disk) == w.session && v.Counters() == w.counts && v.warnings == w0
  {
    assert files[..|files|] == files;
    assert files[|files|..] == [];
  }

  /**
   * The state of the visitor, the console and the files once the first `i`
   * files are reported from the start `s0`, `c0`, `w0`: unchanged files and
   * console, with the notes loaded so far counted, for the warning and
   * tag-printing visitors; the rest of `RepairWalk` still to go for the
   * repair visitor.
   */
  predicate WalkedUpTo(v: Visitor, console: Console, disk: Disk, files: seq<File>, i: nat, s0: Session, c0: Counts, w0: seq<Warning>)
    requires i <= |files|
    reads v, console, disk
  {
    if v.kind != HealerVisitor then
      v.SessionWith(console, disk) == s0 && CheckedUpTo(v, files, i, s0.files, c0, w0)
    else
      RepairWalk(files, s0, c0) == RepairWalk(files[i..], v.SessionWith(console, disk), v.Counters()) && v.warnings == w0
  }

  /** One turn of the last loop of `visit`: the file reported to the visitor, which moves the walk on by one file. */
  method ReportFile(files: seq<File>, i: nat, v: Visitor, disk: Disk, console: Console, ghost s0: Session, ghost c0: Counts, ghost w0: seq<Warning>)
    returns (r: FileResult)
    requires i < |files| && WalkedUpTo(v, console, disk, files, i, s0, c0, w0)
    modifies v, disk, console
    ensures v.calls == old(v.calls) + [Call(FileReport(files[i]), r != Halt, r == LoadError)]
    ensures r != Halt ==> WalkedUpTo(v, console, disk, files, i + 1, s0, c0, w0)
    ensures r == Halt ==>
      v.kind == HealerVisitor && v.warnings == w0 &&
      RepairWalk(files, s0, c0) == WalkEnd(false, v.SessionWith(console, disk), v.Counters())
  {
    if v.kind != HealerVisitor {
      r := CheckFile(files, i, v, disk, console, c0, w0);
    } else {
      r := RepairStep(files, i, v, disk, console, s0, c0);
    }
  }

  /** The counters and warnings of the warning and tag-printing visitors once the first `i` files are reported. */
  predicate CheckedUpTo(v: Visitor, files: seq<File>, i: nat, d: map<string, string>, c0: Counts, w0: seq<Warning>)
    requires i <= |files|
    reads v
  {
    var ns := LoadedNotes(files[..i], d);
    v.Counters() == AccumulateAll(c0, ns) &&
    v.warnings == w0 + (if v.kind == WarningVisitor then NotesWarnings(ns) else [])
  }

  /** One file for the warning or tag-printing visitor: nothing is written, and the note that loads is counted and checked. */
  method CheckFile(files: seq<File>, i: nat, v: Visitor, disk: Disk, console: Console, ghost c0: Counts, ghost w0: seq<Warning>)
    returns (r: FileResult)
    requires i < |files| && v.kind != HealerVisitor && CheckedUpTo(v, files, i, disk.files, c0, w0)
    modifies v, disk, console
    ensures r != Halt && v.calls == old(v.calls) + [Call(FileReport(files[i]), true, r == LoadError)]
    ensures v.SessionWith(console, disk) == old(v.SessionWith(console, disk))
    ensures CheckedUpTo(v, files, i + 1, disk.files, c0, w0)
  {
    ghost var before, warned := v.Counters(), v.warnings;
    r := CheckGate(files[i], v, disk, console);
    CheckedStep(files, i, disk.files, c0, w0, v.kind == WarningVisitor, before, warned, v.Counters(), v.warnings);
  }

  /** The counters and warnings after one more file, as `CheckGate` leaves them. */
  lemma CheckedStep(files: seq<File>, i: nat, d: map<string, string>, c0: Counts, w0: seq<Warning>, warn: bool,
                    before: Counts, warned: seq<Warning>, after: Counts, warnedAfter: seq<Warning>)
    requires i < |files|
    requires var ns := LoadedNotes(files[..i], d);
      before == AccumulateAll(c0, ns) && warned == w0 + (if warn then NotesWarnings(ns) else [])
    requires var t := LoadText(d, files[i].path);
      (t.None? ==> after == before && warnedAfter == warned) &&
      (t.Some? ==>
        var n := NoteOf(files[i], t.value);
        after == Accumulate(before, n) &&
        warnedAfter == warned + (if warn then NoteWarnings(files[i].path, Warnings(n)) else []))
    ensures var ns := LoadedNotes(files[..i + 1], d);
      after == AccumulateAll(c0, ns) && warnedAfter == w0 + (if warn then NotesWarnings(ns) else [])
  {
    var ns := LoadedNotes(files[..i], d);
    LoadedNotesStep(files, i, d);
    var t := LoadText(d, files[i].path);
    if t.None? {
      assert LoadedNotes(files[..i + 1], d) == ns + [] == ns;
    } else {
      var n := NoteOf(files[i], t.value);
      assert LoadedNotes(files[..i + 1], d) == ns + [n];
      AccumulateSnoc(c0, ns, n);
      if warn {
        NotesWarningsSnoc(ns, n);
        assert n.file.path == files[i].path;
        Regroup(w0, NotesWarnings(ns), NoteWarnings(n.file.path, Warnings(n)));
      }
    }
  }

  /** The visitor's `file`, for the warning and tag-printing visitors: a note that loads is counted, and checked by the warning visitor. */
  method CheckGate(f: File, v: Visitor, disk: Disk, console: Console) returns (r: FileResult)
    requires v.kind != HealerVisitor
    modifies v, disk, console
    ensures r != Halt && v.calls == old(v.calls) + [Call(FileReport(f), true, r == LoadError)]
    ensures disk.files == old(disk.files) && v.input == old(v.input)
    ensures console.lines == old(console.lines) && console.prompts == old(console.prompts)
    ensures var t := LoadText(disk.files, f.path);
      (t.None? ==> v.Counters() == old(v.Counters()) && v.warnings == old(v.warnings)) &&
      (t.Some? ==>
        var n := NoteOf(f, t.value);
        v.Counters() == Accumulate(old(v.Counters()), n) &&
        v.warnings == old(v.warnings) + (if v.kind == WarningVisitor then NoteWarnings(f.path, Warnings(n)) else []))
  {
    r := v.File(f, disk, console);
  }

  /** One file for the repair visitor: the rest of the walk is `RepairWalk` from the session and counters it leaves. */
  method RepairStep(files: seq<File>, i: nat, v: Visitor, disk: Disk, console: Console, ghost s0: Session, ghost c0: Counts)
    returns (r: FileResult)
    requires i < |files| && v.kind == HealerVisitor
    requires RepairWalk(files, s0, c0) == RepairWalk(files[i..], v.SessionWith(console, disk), v.Counters())
    modifies v, disk, console
    ensures v.calls == old(v.calls) + [Call(FileReport(files[i]), r != Halt, r == LoadError)]
    ensures v.warnings == old(v.warnings)
    ensures r == Halt ==> RepairWalk(files, s0, c0) == WalkEnd(false, v.SessionWith(console, disk), v.Counters())
    ensures r != Halt ==> RepairWalk(files, s0, c0) == RepairWalk(files[i + 1..], v.SessionWith(console, disk), v.Counters())
    ensures IsAll(old(v.input)) ==>
      r != Halt && v.input == old(v.input) && console.lines == old(console.lines) && console.prompts == old(console.prompts)
  {
    r := v.File(files[i], disk, console);
    assert files[i..][0] == files[i] && files[i..][1..] == files[i + 1..];
  }

  /** The two first loops of `visit`: the listing sorted, then the files paired with their annexes. */
  method Plan(listing: seq<Entry>, ignored: set<string>) returns (files: seq<File>, rest: seq<Dir>)
    ensures Pairing(files, rest) == Pair(FilesOf(listing, ignored), DirsOf(listing, ignored))
    ensures Reports(listing, ignored) == DirReports(rest) + FileReports(files)
  {
    var dirs, filepaths := Partition(listing, ignored);
    files, rest := PairFiles(filepaths, dirs);
  }

  /** Concatenation regroups: the calls (or warnings) of three stages in one sequence. */
  lemma Regroup<T>(a: seq<T>, b: seq<T>, c: seq<T>)
    ensures a + b + c == a + (b + c)
  {
  }

  /**
   * `visit(dir, visitor)` over the listing of `dir`.  The warning and
   * tag-printing visitors write no file and count every note that loads;
   * the warning visitor prints the orphan directories, then the failing
   * checks of each note in report order.  The repair visitor ends as
   * `RepairWalk` over the files says.
   */
  method Visit(listing: seq<Entry>, ignored: set<string>, v: Visitor, disk: Disk, console: Console)
    returns (ok: bool, ghost made: seq<Call>)
    modifies v, disk, console
    ensures v.calls == old(v.calls) + made
    ensures Gated(made, Reports(listing, ignored), ok)
    ensures v.kind != HealerVisitor ==> ok
    ensures var p := Pair(FilesOf(listing, ignored), DirsOf(listing, ignored));
      v.kind != HealerVisitor ==>
        disk.files == old(disk.files) && v.input == old(v.input) &&
        console.lines == old(console.lines) && console.prompts == old(console.prompts) &&
        v.Counters() == AccumulateAll(old(v.Counters()), LoadedNotes(p.files, disk.files)) &&
        v.warnings == old(v.warnings) +
          (if v.kind == WarningVisitor then OrphanWarnings(p.rest) + NotesWarnings(LoadedNotes(p.files, disk.files)) else [])
    ensures var p := Pair(FilesOf(listing, ignored), DirsOf(listing, ignored));
      v.kind == HealerVisitor ==>
        var w := RepairWalk(p.files, old(v.SessionWith(console, disk)), old(v.Counters()));
        ok == w.ok && v.SessionWith(console, disk) == w.session && v.Counters() == w.counts && v.warnings == old(v.warnings)
    ensures IsAll(old(v.input)) ==>
      ok && v.input == old(v.input) && console.lines == old(console.lines) && console.prompts == old(console.prompts)
  {
    var files, rest := Plan(listing, ignored);
    ghost var start := v.calls;
    ghost var dirCalls := ReportDirs(rest, v);
    ghost var afterDirs := v.warnings;
    ghost var fileCalls;
    ok, fileCalls := ReportFiles(files, v, disk, console);
    made := dirCalls + fileCalls;
    Regroup(start, dirCalls, fileCalls);
    GatedAfter(dirCalls, fileCalls, DirReports(rest), FileReports(files), Reports(listing, ignored), ok);
    if v.kind == WarningVisitor {
      Regroup(old(v.warnings), OrphanWarnings(rest), NotesWarnings(LoadedNotes(files, disk.files)));
    }
  }
}
