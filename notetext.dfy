/**
 * The text of a note: how `Note::parse_text` (notes_tool.cpp:320-360) splits
 * it into a header map and a body, and how `Note::write`
 * (notes_tool.cpp:393-412) prints a header map and a body back.
 *
 * The lines are those `std::getline` yields from a `std::wstringstream`
 * over the text; `LineStream` and `GetLine` model that stream, including the
 * detail that a `getline` on a stream that is no longer good fails without
 * touching the line it was given.
 */
module NoteText {
  import opened Chars
  import opened Order
  import opened Options
  import opened HeaderField

  /** No line feed in `s`. */
  predicate NoLf(s: string) {
    forall i :: 0 <= i < |s| ==> s[i] != '\n'
  }

  /** Index of the first line feed of `s`, or `|s|` when there is none. */
  function LineEnd(s: string): (n: nat)
    ensures n <= |s| && NoLf(s[..n])
    ensures n < |s| ==> s[n] == '\n'
  {
    if s == [] || s[0] == '\n' then 0 else 1 + LineEnd(s[1..])
  }

  /** A non-empty text whose last character is not a line feed. */
  predicate Unterminated(t: string) {
    t != [] && t[|t| - 1] != '\n'
  }

  /**
   * The lines `getline` yields from `t`, one after the other: the pieces
   * between line feeds, plus a last piece when `t` does not end with one.
   */
  function Lines(t: string): (ls: seq<string>)
    ensures ls == [] <==> t == []
    decreases |t|
  {
    if t == [] then []
    else
      var n := LineEnd(t);
      [t[..n]] + (if n < |t| then Lines(t[n + 1..]) else [])
  }

  /** The lines, each followed by a line feed. */
  function JoinLines(ls: seq<string>): (t: string)
    ensures t == [] <==> ls == []
    ensures !Unterminated(t)
  {
    if ls == [] then [] else ls[0] + "\n" + JoinLines(ls[1..])
  }

  // ----- the stream -----

  /** A `std::wstringstream` being read: the text not yet read, and whether the stream is still good. */
  datatype LineStream = LineStream(rest: string, good: bool)

  /** The outcome of one `getline`: whether it succeeded, the line variable after it, the stream after it. */
  datatype Read = Read(ok: bool, line: string, stream: LineStream)

  /**
   * One `std::getline(is, line)`.  On a stream that is not good it fails and
   * leaves `line` as it was; otherwise it empties `line` and reads up to the
   * next line feed, which it consumes.  Reaching the end of the text without
   * a line feed leaves the stream not good; reading nothing at all fails.
   */
  function GetLine(s: LineStream, line: string): (r: Read) {
    if !s.good then Read(false, line, s)
    else if s.rest == [] then Read(false, "", LineStream("", false))
    else
      var n := LineEnd(s.rest);
      if n < |s.rest| then Read(true, s.rest[..n], LineStream(s.rest[n + 1..], true))
      else Read(true, s.rest, LineStream("", false))
  }

  /** The lines the stream still yields. */
  function Pending(s: LineStream): seq<string> {
    if s.good then Lines(s.rest) else []
  }

  /**
   * A `getline` on a stream with lines pending succeeds with the next one.
   * The stream stays good after the last line exactly when that line was
   * terminated, and a good stream keeps the end of the text it started with.
   */
  lemma GetLineNext(s: LineStream, line: string)
    requires Pending(s) != []
    ensures var r := GetLine(s, line);
      r.ok && r.line == Pending(s)[0] && Pending(r.stream) == Pending(s)[1..]
    ensures var r := GetLine(s, line);
      Pending(r.stream) == [] ==> (r.stream.good <==> !Unterminated(s.rest))
    ensures var r := GetLine(s, line);
      r.stream.good && r.stream.rest != [] ==> (Unterminated(r.stream.rest) <==> Unterminated(s.rest))
  {
    var n := LineEnd(s.rest);
    if n == |s.rest| {
      assert s.rest[..n] == s.rest;
    }
  }

  /** With no line pending, `getline` fails; the line is emptied only when the stream was still good. */
  lemma GetLineEnd(s: LineStream, line: string)
    requires Pending(s) == []
    ensures var r := GetLine(s, line);
      !r.ok && !r.stream.good && r.line == (if s.good then "" else line)
  {
  }

  /**
   * `std::getline(is, line)` as a call: the next pending line, or failure
   * once none is left.
   */
  method ReadLine(s: LineStream, line: string) returns (r: Read)
    ensures Pending(s) != [] ==> r.ok && r.line == Pending(s)[0] && Pending(r.stream) == Pending(s)[1..]
    ensures Pending(s) != [] && Pending(r.stream) == [] ==> (r.stream.good <==> !Unterminated(s.rest))
    ensures r.stream.good && r.stream.rest != [] ==> (Unterminated(r.stream.rest) <==> Unterminated(s.rest))
    ensures Pending(s) == [] ==> !r.ok && !r.stream.good && r.line == (if s.good then "" else line)
  {
    if Pending(s) != [] {
      GetLineNext(s, line);
    } else {
      GetLineEnd(s, line);
    }
    r := GetLine(s, line);
  }

  /**
   * The state after reading the lines of `t` before the `i`-th: the read
   * holds line `i` and the lines after it are pending, or every line has
   * been read and the line variable holds what the last `getline` left.
   */
  ghost predicate ReadAt(t: string, i: nat, r: Read) {
    var ls := Lines(t);
    i <= |ls| &&
    (r.ok ==> i < |ls| && r.line == ls[i] && Pending(r.stream) == ls[i + 1..]) &&
    (r.ok && Pending(r.stream) == [] ==> (r.stream.good <==> !Unterminated(t))) &&
    (r.stream.good && r.stream.rest != [] ==> (Unterminated(r.stream.rest) <==> Unterminated(t))) &&
    (!r.ok ==> i == |ls| && Pending(r.stream) == [] && r.line == (if Unterminated(t) then ls[|ls| - 1] else ""))
  }

  /** The first `getline` from the text. */
  method FirstLine(t: string) returns (r: Read)
    ensures ReadAt(t, 0, r)
  {
    r := ReadLine(LineStream(t, true), "");
  }

  /** The next `getline`, after one that succeeded. */
  method NextLine(ghost t: string, ghost i: nat, r: Read) returns (next: Read)
    requires ReadAt(t, i, r) && r.ok
    ensures ReadAt(t, i + 1, next)
  {
    next := ReadLine(r.stream, r.line);
  }

  /** The state after reading the first `j` of the lines `rest`: the read holds line `j`, or all are read. */
  ghost predicate PendingAt(rest: seq<string>, j: nat, r: Read) {
    j <= |rest| &&
    (r.ok ==> j < |rest| && r.line == rest[j] && Pending(r.stream) == rest[j + 1..]) &&
    (!r.ok ==> j == |rest|)
  }

  /** The first `getline` from a stream whose pending lines are `Pending(s)`. */
  method FirstPending(s: LineStream, line: string) returns (r: Read)
    ensures PendingAt(Pending(s), 0, r)
  {
    r := ReadLine(s, line);
  }

  /** The next `getline`, after one that succeeded. */
  method NextPending(ghost rest: seq<string>, ghost j: nat, r: Read) returns (next: Read)
    requires PendingAt(rest, j, r) && r.ok
    ensures PendingAt(rest, j + 1, next)
  {
    next := ReadLine(r.stream, r.line);
  }

  /** Where the header run ends, the read holds the boundary line and the lines after it are pending. */
  lemma ReadAtBoundary(t: string, r: Read)
    requires ReadAt(t, FieldRun(ParseLines(Lines(t))), r)
    ensures r.line == Boundary(t) && Pending(r.stream) == AfterBoundary(t)
  {
  }

  // ----- splitting -----

  /** The result of `parse_header_field` on each line. */
  function ParseLines(ls: seq<string>): (ps: seq<Option<Field>>)
    ensures |ps| == |ls|
  {
    seq(|ls|, i requires 0 <= i < |ls| => ParseHeaderField(ls[i]))
  }

  /** The length of the leading run of lines that are header fields. */
  function FieldRun(ps: seq<Option<Field>>): (k: nat)
    ensures k <= |ps|
    ensures forall i :: 0 <= i < k ==> ps[i].Some?
    ensures k < |ps| ==> ps[k].None?
  {
    if ps == [] || ps[0].None? then 0 else 1 + FieldRun(ps[1..])
  }

  /** A parsed field as `parse_header_field` produces it: a run of non-whitespace, and a trimmed single line. */
  predicate GoodField(f: Field) {
    f.name != [] && NoWs(f.name) && IsTrimmed(f.body) && NoLineEnd(f.body)
  }

  /** A header map as parsing builds it. */
  predicate GoodHeader(h: map<string, string>) {
    forall n :: n in h ==> GoodField(Field(n, h[n]))
  }

  /** Every field of `ps` is well formed. */
  predicate GoodFields(ps: seq<Option<Field>>) {
    forall i :: 0 <= i < |ps| && ps[i].Some? ==> GoodField(ps[i].value)
  }

  /** The header map after storing the fields of `ps` in order; a later field replaces an earlier one of the same name. */
  function Fields(ps: seq<Option<Field>>): (h: map<string, string>)
    ensures GoodFields(ps) ==> GoodHeader(h)
  {
    if ps == [] then map[]
    else
      var h := Fields(ps[..|ps| - 1]);
      match ps[|ps| - 1]
      case Some(f) => h[f.name := f.body]
      case None => h
  }

  /** A note's text split: the header map and the body. */
  datatype Split = Split(header: map<string, string>, body: string)

  /**
   * What `parse_text` makes of `t`.  The header holds the leading run of
   * field lines.  The line that ended the run (or, when every line was a
   * field, the line variable left behind by the failed `getline`) opens the
   * body when there is no header or when it is not blank; every later line
   * follows.
   */
  function SplitText(t: string): (p: Split)
    ensures GoodHeader(p.header)
    ensures !Unterminated(p.body)
  {
    var header := HeaderOf(t);
    Split(header, JoinLines(FirstLines(header, Boundary(t)) + AfterBoundary(t)))
  }

  /** The header map: the fields of the leading run of field lines. */
  function HeaderOf(t: string): (h: map<string, string>)
    ensures GoodHeader(h)
  {
    var ps := ParseLines(Lines(t));
    var k := FieldRun(ps);
    ParseLinesGood(Lines(t));
    assert GoodFields(ps[..k]);
    Fields(ps[..k])
  }

  /** The header map spelled out. */
  lemma HeaderOfIs(t: string)
    ensures HeaderOf(t) == Fields(ParseLines(Lines(t))[..FieldRun(ParseLines(Lines(t)))])
  {
  }

  /** The line `parse_text` holds when the header run ends. */
  function Boundary(t: string): string {
    var ls := Lines(t);
    var k := FieldRun(ParseLines(ls));
    if k < |ls| then ls[k] else if Unterminated(t) then ls[k - 1] else ""
  }

  /** The lines after the one that ended the header run. */
  function AfterBoundary(t: string): seq<string> {
    var ls := Lines(t);
    var k := FieldRun(ParseLines(ls));
    if k < |ls| then ls[k + 1..] else []
  }

  /** The body lines `SplitText` makes of the header and the line that ended it. */
  function FirstLines(header: map<string, string>, boundary: string): seq<string> {
    if header == map[] || Trim(boundary) != [] then [boundary] else []
  }

  // ----- printing -----

  /** The field lines of `h`, one per entry, in ascending order of names. */
  function FieldLines(h: map<string, string>): (ls: seq<string>)
  {
    var keys := SortedElems(h.Keys);
    seq(|keys|, i requires 0 <= i < |keys| => FieldLine(keys[i], h[keys[i]]))
  }

  /**
   * The text `Note::write` prints: one field line per header entry in the
   * map's (ascending) order, an empty line when there is a header, then the
   * body as it is.
   */
  function Serialize(h: map<string, string>, body: string): string {
    JoinLines(FieldLines(h) + (if h == map[] then [] else [""])) + body
  }

  /** The printed text: the field lines, a line feed when there is a header, the body. */
  lemma SerializeParts(h: map<string, string>, body: string)
    ensures Serialize(h, body) ==
      JoinLines(FieldLines(h)) + (if h == map[] then "" else "\n") + body
  {
    var ls := FieldLines(h);
    if h == map[] {
      assert ls + [] == ls;
    } else {
      JoinLinesSnoc(ls, "");
      assert JoinLines(ls) + "" + "\n" == JoinLines(ls) + "\n";
    }
  }

  // ----- lemmas about lines -----

  lemma LineEndAt(x: string, y: string)
    requires NoLf(x)
    ensures LineEnd(x + "\n" + y) == |x|
  {
    var t := x + "\n" + y;
    assert t[|x|] == '\n';
    assert forall i :: 0 <= i < |x| ==> t[i] == x[i];
  }

  lemma LinesCons(t: string, x: string, y: string)
    requires NoLf(x) && t == x + "\n" + y
    ensures Lines(t) == [x] + Lines(y)
  {
    LineEndAt(x, y);
    assert t[..|x|] == x;
    assert t[|x| + 1..] == y;
  }

  /** Reading lines back from joined lines gives the same lines, whatever text follows. */
  lemma {:induction false} LinesOfJoin(ls: seq<string>, rest: string)
    requires forall i :: 0 <= i < |ls| ==> NoLf(ls[i])
    ensures Lines(JoinLines(ls) + rest) == ls + Lines(rest)
  {
    if ls != [] {
      LinesOfJoin(ls[1..], rest);
      LinesOfJoinStep(ls, rest);
    } else {
      assert JoinLines(ls) + rest == rest;
      assert ls + Lines(rest) == Lines(rest);
    }
  }

  lemma LinesOfJoinStep(ls: seq<string>, rest: string)
    requires ls != [] && NoLf(ls[0])
    requires Lines(JoinLines(ls[1..]) + rest) == ls[1..] + Lines(rest)
    ensures Lines(JoinLines(ls) + rest) == ls + Lines(rest)
  {
    var tail := JoinLines(ls[1..]) + rest;
    JoinLinesCons(ls, rest);
    LinesCons(JoinLines(ls) + rest, ls[0], tail);
    ConsSlice(ls, Lines(rest));
  }

  lemma JoinLinesCons(ls: seq<string>, rest: string)
    requires ls != []
    ensures JoinLines(ls) + rest == ls[0] + "\n" + (JoinLines(ls[1..]) + rest)
  {
  }

  lemma ConsSlice<T>(xs: seq<T>, ys: seq<T>)
    requires xs != []
    ensures [xs[0]] + (xs[1..] + ys) == xs + ys
  {
  }

  /** Joining the lines of a text puts back the text, adding the final line feed it may lack. */
  lemma {:induction false} JoinOfLines(t: string)
    ensures JoinLines(Lines(t)) == t + (if Unterminated(t) then "\n" else "")
    decreases |t|
  {
    if t != [] {
      var n := LineEnd(t);
      LinesSplit(t);
      if n < |t| {
        var x, u := t[..n], t[n + 1..];
        var tail := if Unterminated(u) then "\n" else "";
        JoinOfLines(u);
        JoinHead(x, Lines(u));
        AppendAfterLf(x, u, tail);
      } else {
        JoinHead(t, []);
      }
    }
  }

  /** How `Lines` takes the first line off a non-empty text. */
  lemma LinesSplit(t: string)
    requires t != []
    ensures var n := LineEnd(t);
      n < |t| ==> (t == t[..n] + "\n" + t[n + 1..] && Lines(t) == [t[..n]] + Lines(t[n + 1..]) &&
        (Unterminated(t[n + 1..]) <==> Unterminated(t)))
    ensures LineEnd(t) == |t| ==> Lines(t) == [t] && Unterminated(t)
  {
    var n := LineEnd(t);
    if n < |t| {
      SplitAtLf(t, n);
    } else {
      LastLine(t);
    }
  }

  lemma SplitAtLf(t: string, n: nat)
    requires n < |t| && t[n] == '\n'
    ensures t == t[..n] + "\n" + t[n + 1..]
    ensures Unterminated(t[n + 1..]) <==> Unterminated(t)
  {
    var u := t[n + 1..];
    if u != [] {
      assert u[|u| - 1] == t[|t| - 1];
    }
  }

  lemma LastLine(t: string)
    requires t != [] && LineEnd(t) == |t|
    ensures Lines(t) == [t] && Unterminated(t)
  {
    assert t[..|t|] == t;
    assert NoLf(t[..|t|]);
  }

  lemma JoinHead(x: string, ls: seq<string>)
    ensures JoinLines([x] + ls) == x + "\n" + JoinLines(ls)
  {
    assert ([x] + ls)[1..] == ls;
  }

  lemma AppendAfterLf(x: string, y: string, z: string)
    ensures x + "\n" + (y + z) == (x + "\n" + y) + z
  {
  }

  lemma {:induction false} JoinLinesAppend(a: seq<string>, b: seq<string>)
    ensures JoinLines(a + b) == JoinLines(a) + JoinLines(b)
  {
    if a != [] {
      JoinLinesAppend(a[1..], b);
      assert (a + b)[1..] == a[1..] + b;
    } else {
      assert a + b == b;
    }
  }

  /** One line, joined. */
  lemma JoinOne(x: string)
    ensures JoinLines([x]) == x + "\n"
  {
    assert [x][1..] == [];
  }

  /** Appending one line to joined lines appends it with its line feed. */
  lemma JoinLinesSnoc(ls: seq<string>, x: string)
    ensures JoinLines(ls + [x]) == JoinLines(ls) + x + "\n"
  {
    JoinLinesAppend(ls, [x]);
    assert JoinLines([x]) == x + "\n" + JoinLines([]);
  }

  /** Appending the next line to the lines joined so far. */
  lemma JoinLinesPrefix(ls: seq<string>, j: nat)
    requires j < |ls|
    ensures JoinLines(ls[..j + 1]) == JoinLines(ls[..j]) + ls[j] + "\n"
  {
    JoinLinesSnoc(ls[..j], ls[j]);
    assert ls[..j + 1] == ls[..j] + [ls[j]];
  }

  // ----- lemmas about the header run -----

  /** Every field `parse_header_field` returns is well formed. */
  lemma ParseLinesGood(ls: seq<string>)
    ensures GoodFields(ParseLines(ls))
  {
  }

  /** An empty line is not a header field. */
  lemma EmptyLineIsNoField()
    ensures ParseHeaderField("") == None
  {
  }

  /** The leading run of fields ends exactly at the first entry that is not one. */
  lemma FieldRunIs(ps: seq<Option<Field>>, k: nat)
    requires k <= |ps|
    requires forall i :: 0 <= i < k ==> ps[i].Some?
    requires k < |ps| ==> ps[k].None?
    ensures FieldRun(ps) == k
  {
  }

  /** A field inside the run so far extends it. */
  lemma FieldRunGrows(ps: seq<Option<Field>>, i: nat)
    requires i <= FieldRun(ps) && i < |ps| && ps[i].Some?
    ensures i + 1 <= FieldRun(ps)
  {
  }

  /** An entry that is no field, reached inside the run so far, ends it. */
  lemma FieldRunStops(ps: seq<Option<Field>>, i: nat)
    requires i <= FieldRun(ps) && (i == |ps| || ps[i].None?)
    ensures FieldRun(ps) == i
  {
  }

  /** Storing one more entry of `ps`. */
  lemma FieldsSnoc(ps: seq<Option<Field>>, i: nat)
    requires i < |ps|
    ensures Fields(ps[..i + 1]) ==
      match ps[i] case Some(f) => Fields(ps[..i])[f.name := f.body] case None => Fields(ps[..i])
  {
    assert ps[..i + 1][..i] == ps[..i];
  }

  /** A field line inside the header run extends the run and the header by its entry. */
  lemma HeaderStep(ls: seq<string>, i: nat)
    requires i < |ls| && i <= FieldRun(ParseLines(ls)) && ParseHeaderField(ls[i]).Some?
    ensures var ps := ParseLines(ls); var f := ParseHeaderField(ls[i]).value;
      i + 1 <= FieldRun(ps) && Fields(ps[..i + 1]) == Fields(ps[..i])[f.name := f.body]
  {
    var ps := ParseLines(ls);
    ParsedLine(ls, i);
    FieldRunGrows(ps, i);
    FieldsSnoc(ps, i);
  }

  /** A line that is no field, or the end of the lines, ends the header run. */
  lemma HeaderStop(ls: seq<string>, i: nat)
    requires i <= |ls| && i <= FieldRun(ParseLines(ls))
    requires i < |ls| ==> ParseHeaderField(ls[i]).None?
    ensures FieldRun(ParseLines(ls)) == i
  {
    if i < |ls| {
      ParsedLine(ls, i);
    }
    FieldRunStops(ParseLines(ls), i);
  }

  /** The entry of `ParseLines` at `i`. */
  lemma ParsedLine(ls: seq<string>, i: nat)
    requires i < |ls|
    ensures ParseLines(ls)[i] == ParseHeaderField(ls[i])
  {
  }

  /** A non-empty run of fields stores at least one. */
  lemma FieldsNonEmpty(ps: seq<Option<Field>>)
    requires ps != []
    requires forall i :: 0 <= i < |ps| ==> ps[i].Some?
    ensures Fields(ps) != map[]
  {
    assert ps[|ps| - 1].value.name in Fields(ps);
  }

  /**
   * Storing, in order, one field per name of `keys` with that name's body in
   * `h` builds `h` restricted to those names.
   */
  lemma {:induction false} FieldsOfEntries(ps: seq<Option<Field>>, h: map<string, string>, keys: seq<string>)
    requires |ps| == |keys|
    requires forall i :: 0 <= i < |keys| ==> keys[i] in h && ps[i] == Some(Field(keys[i], h[keys[i]]))
    ensures Fields(ps) == map n | n in keys :: h[n]
    decreases |keys|
  {
    if keys != [] {
      var m := |keys| - 1;
      FieldsOfEntries(ps[..m], h, keys[..m]);
      assert ps[m] == Some(Field(keys[m], h[keys[m]]));
      assert Fields(ps) == Fields(ps[..m])[keys[m] := h[keys[m]]];
      RestrictSnoc(h, keys);
    }
  }

  /** Restricting a map to one more name adds that name's entry. */
  lemma RestrictSnoc(h: map<string, string>, keys: seq<string>)
    requires keys != [] && forall i :: 0 <= i < |keys| ==> keys[i] in h
    ensures var m := |keys| - 1;
      (map n | n in keys[..m] :: h[n])[keys[m] := h[keys[m]]] == map n | n in keys :: h[n]
  {
    var m := |keys| - 1;
    assert keys == keys[..m] + [keys[m]];
  }

  /** A printed field line holds no line feed. */
  lemma FieldLineNoLf(name: string, body: string)
    requires NoWs(name) && NoLf(body)
    ensures NoLf(FieldLine(name, body))
  {
    var line := FieldLine(name, body);
    forall i | 0 <= i < |line| ensures line[i] != '\n' {
      if i < |name| {
        assert line[i] == name[i];
      } else if i >= |name| + 2 {
        assert line[i] == body[i - |name| - 2];
      }
    }
  }

  // ----- what parsing produces, and printing it back -----

  /**
   * The pairs `parse_text` can produce: a well-formed header, a body that is
   * empty or ends with a line feed, and, when there is no header, a body
   * whose first line is not a field.
   */
  predicate Producible(h: map<string, string>, body: string) {
    GoodHeader(h) && !Unterminated(body) &&
    (h == map[] ==> body != [] && ParseHeaderField(Lines(body)[0]).None?)
  }

  /** Everything `parse_text` produces is producible. */
  lemma SplitTextProducible(t: string)
    ensures Producible(SplitText(t).header, SplitText(t).body)
  {
    var ls := Lines(t);
    var ps := ParseLines(ls);
    var k := FieldRun(ps);
    var p := SplitText(t);
    if p.header == map[] {
      if k > 0 {
        FieldsNonEmpty(ps[..k]);
      }
      var boundary := if ls != [] then ls[0] else "";
      var rest := if ls != [] then ls[1..] else [];
      assert p.body == JoinLines([boundary] + rest);
      if ls != [] {
        LinesNoLf(t);
      }
      FirstLineOfJoin(boundary, rest);
      EmptyLineIsNoField();
    }
  }

  /** No line of a text holds a line feed. */
  lemma {:induction false} LinesNoLf(t: string)
    ensures forall i :: 0 <= i < |Lines(t)| ==> NoLf(Lines(t)[i])
    decreases |t|
  {
    if t != [] {
      var n := LineEnd(t);
      var rest := if n < |t| then Lines(t[n + 1..]) else [];
      assert Lines(t) == [t[..n]] + rest;
      if n < |t| {
        LinesNoLf(t[n + 1..]);
      }
      forall i | 0 <= i < |Lines(t)| ensures NoLf(Lines(t)[i]) {
        if i > 0 {
          assert Lines(t)[i] == rest[i - 1];
        }
      }
    }
  }

  /** The first line of joined lines is the first of those lines. */
  lemma FirstLineOfJoin(x: string, rest: seq<string>)
    requires NoLf(x)
    ensures Lines(JoinLines([x] + rest)) != [] && Lines(JoinLines([x] + rest))[0] == x
  {
    JoinHead(x, rest);
    LinesCons(JoinLines([x] + rest), x, JoinLines(rest));
  }

  /** Printing a producible pair and parsing the text gives the pair back. */
  lemma SerializeSplits(h: map<string, string>, body: string)
    requires Producible(h, body)
    ensures SplitText(Serialize(h, body)) == Split(h, body)
  {
    if h == map[] {
      SerializeSplitsNoHeader(h, body);
    } else {
      SerializeSplitsHeader(h, body);
    }
  }

  lemma SerializeSplitsNoHeader(h: map<string, string>, body: string)
    requires Producible(h, body) && h == map[]
    ensures SplitText(Serialize(h, body)) == Split(h, body)
  {
    var keys := SortedElems(h.Keys);
    assert keys == [];
    assert Serialize(h, body) == body;
    SplitTextNoHeader(body);
    JoinOfLines(body);
  }

  lemma SerializeSplitsHeader(h: map<string, string>, body: string)
    requires Producible(h, body) && h != map[]
    ensures SplitText(Serialize(h, body)) == Split(h, body)
  {
    var keys := SortedElems(h.Keys);
    var t := Serialize(h, body);
    GoodHeaderOneLine(h);
    SerializedLines(h, body);
    SerializedFields(h, body);
    SplitTextBlankSeparator(t, |keys|);
    assert Lines(t)[|keys| + 1..] == Lines(body);
    JoinOfLines(body);
  }

  /** A text whose first line is not a field has no header, and all of it is the body. */
  lemma SplitTextNoHeader(t: string)
    requires t != [] && ParseHeaderField(Lines(t)[0]).None?
    ensures SplitText(t) == Split(map[], JoinLines(Lines(t)))
  {
    var ls := Lines(t);
    FieldRunIs(ParseLines(ls), 0);
    assert ls == [ls[0]] + ls[1..];
  }

  /**
   * When the header is followed by an empty line, that line is dropped and
   * the body is every line after it.
   */
  lemma SplitTextBlankSeparator(t: string, k: nat)
    requires var ls := Lines(t); var ps := ParseLines(ls);
      k < |ls| && ls[k] == "" && (forall i :: 0 <= i < k ==> ps[i].Some?) && Fields(ps[..k]) != map[]
    ensures var ls := Lines(t);
      SplitText(t) == Split(Fields(ParseLines(ls)[..k]), JoinLines(ls[k + 1..]))
  {
    var ls := Lines(t);
    var ps := ParseLines(ls);
    EmptyLineAt(ls, k);
    FieldRunIs(ps, k);
    TrimTrimmed("");
    assert [] + ls[k + 1..] == ls[k + 1..];
  }

  lemma EmptyLineAt(ls: seq<string>, k: nat)
    requires k < |ls| && ls[k] == ""
    ensures ParseLines(ls)[k] == None
  {
    EmptyLineIsNoField();
  }

  /** The lines of a printed note with a header: its field lines, the empty line, the body's lines. */
  lemma SerializedLines(h: map<string, string>, body: string)
    requires OneLineHeader(h) && h != map[]
    ensures Lines(Serialize(h, body)) == FieldLines(h) + [""] + Lines(body)
  {
    var keys := SortedElems(h.Keys);
    var fl := FieldLines(h);
    var ls0 := fl + [""];
    forall i | 0 <= i < |ls0| ensures NoLf(ls0[i]) {
      if i < |fl| {
        assert keys[i] in h;
        FieldLineNoLf(keys[i], h[keys[i]]);
      }
    }
    LinesOfJoin(ls0, body);
  }

  /** Every entry of `h` prints as one line: names without whitespace, values without a line feed. */
  predicate OneLineHeader(h: map<string, string>) {
    forall n :: n in h ==> NoWs(n) && NoLf(h[n])
  }

  lemma GoodHeaderOneLine(h: map<string, string>)
    requires GoodHeader(h)
    ensures OneLineHeader(h)
  {
    forall n | n in h ensures NoWs(n) && NoLf(h[n]) {
      assert GoodField(Field(n, h[n]));
    }
  }

  /**
   * An entry whose printed line does not parse back ends the header there
   * when the printed text is loaded again, so its name is missing from the
   * header that loads.
   */
  lemma BrokenFieldLost(h: map<string, string>, body: string, key: string)
    requires key in h && key != [] && NoWs(key) && NoLf(h[key])
    requires forall n :: n in h && n != key ==> GoodField(Field(n, h[n]))
    requires ParseHeaderField(FieldLine(key, h[key])).None?
    ensures key !in HeaderOf(Serialize(h, body))
  {
    var keys := SortedElems(h.Keys);
    GoodButOneOneLine(h, key);
    SerializedLines(h, body);
    var ls := Lines(Serialize(h, body));
    assert ls[..|keys|] == FieldLines(h);
    BrokenLineEndsRun(h, ls, key);
    HeaderOfIs(Serialize(h, body));
  }

  /** Lines that start with a printed header in which the entry `key` does not parse back: the run of fields misses `key`. */
  lemma BrokenLineEndsRun(h: map<string, string>, ls: seq<string>, key: string)
    requires var keys := SortedElems(h.Keys); |keys| <= |ls| && ls[..|keys|] == FieldLines(h)
    requires key in h && (forall n :: n in h && n != key ==> GoodField(Field(n, h[n])))
    requires ParseHeaderField(FieldLine(key, h[key])).None?
    ensures var ps := ParseLines(ls); key !in Fields(ps[..FieldRun(ps)])
  {
    var keys := SortedElems(h.Keys);
    var ps := ParseLines(ls);
    assert key in keys;
    var j :| 0 <= j < |keys| && keys[j] == key;
    PrintedLineParse(h, ls, j);
    var k := FieldRun(ps);
    assert k <= j;
    AscendingDistinct(keys);
    forall i | 0 <= i < k ensures ps[..k][i].Some? ==> ps[..k][i].value.name != key {
      assert keys[i] != key && keys[i] in h;
      PrintedLineParse(h, ls, i);
    }
    FieldsKeys(ps[..k], key);
  }

  lemma GoodButOneOneLine(h: map<string, string>, key: string)
    requires key in h && NoWs(key) && NoLf(h[key])
    requires forall n :: n in h && n != key ==> GoodField(Field(n, h[n]))
    ensures OneLineHeader(h)
  {
    forall n | n in h ensures NoWs(n) && NoLf(h[n]) {
      if n != key {
        assert GoodField(Field(n, h[n]));
      }
    }
  }

  /** The `i`-th line of a printed header parses as its own entry would; a well-formed entry parses back. */
  lemma PrintedLineParse(h: map<string, string>, ls: seq<string>, i: nat)
    requires var keys := SortedElems(h.Keys); i < |keys| && |keys| <= |ls| && ls[..|keys|] == FieldLines(h)
    ensures var keys := SortedElems(h.Keys);
      ParseLines(ls)[i] == ParseHeaderField(FieldLine(keys[i], h[keys[i]])) &&
      (GoodField(Field(keys[i], h[keys[i]])) ==> ParseLines(ls)[i] == Some(Field(keys[i], h[keys[i]])))
  {
    var keys := SortedElems(h.Keys);
    assert ls[i] == ls[..|keys|][i];
    ParsedLine(ls, i);
    if GoodField(Field(keys[i], h[keys[i]])) {
      ParseFieldLine(keys[i], h[keys[i]]);
    }
  }

  /** The header lines of a printed note parse back to `h`. */
  lemma SerializedFields(h: map<string, string>, body: string)
    requires GoodHeader(h) && h != map[]
    requires Lines(Serialize(h, body)) == FieldLines(h) + [""] + Lines(body)
    ensures var keys := SortedElems(h.Keys); var k := |keys|;
      var ps := ParseLines(Lines(Serialize(h, body)));
      (forall i :: 0 <= i < k ==> ps[i].Some?) && Fields(ps[..k]) == h
  {
    var keys := SortedElems(h.Keys);
    var ls := Lines(Serialize(h, body));
    var fl := FieldLines(h);
    assert ls == fl + [""] + Lines(body);
    forall i | 0 <= i < |keys| ensures ls[i] == FieldLine(keys[i], h[keys[i]]) {
      assert ls[i] == fl[i];
    }
    PrintedFieldsParse(h, keys, ls);
  }

  /** Lines that start with the field lines of every entry of `h` parse back to `h`. */
  lemma PrintedFieldsParse(h: map<string, string>, keys: seq<string>, ls: seq<string>)
    requires GoodHeader(h) && (forall n :: n in keys <==> n in h) && |keys| <= |ls|
    requires forall i :: 0 <= i < |keys| ==> keys[i] in h && ls[i] == FieldLine(keys[i], h[keys[i]])
    ensures var ps := ParseLines(ls);
      (forall i :: 0 <= i < |keys| ==> ps[i].Some?) && Fields(ps[..|keys|]) == h
  {
    var ps := ParseLines(ls);
    var k := |keys|;
    PrintedEntries(h, keys, ls);
    assert forall i :: 0 <= i < k ==> ps[..k][i] == ps[i];
    FieldsOfEntries(ps[..k], h, keys);
    MapOfAllKeys(h, keys);
  }

  /** Each printed field line parses back to its entry. */
  lemma PrintedEntries(h: map<string, string>, keys: seq<string>, ls: seq<string>)
    requires GoodHeader(h) && |keys| <= |ls|
    requires forall i :: 0 <= i < |keys| ==> keys[i] in h && ls[i] == FieldLine(keys[i], h[keys[i]])
    ensures forall i :: 0 <= i < |keys| ==> ParseLines(ls)[i] == Some(Field(keys[i], h[keys[i]]))
  {
    forall i | 0 <= i < |keys| ensures ParseLines(ls)[i] == Some(Field(keys[i], h[keys[i]])) {
      ParsedLine(ls, i);
      assert GoodField(Field(keys[i], h[keys[i]]));
      ParseFieldLine(keys[i], h[keys[i]]);
    }
  }

  lemma MapOfAllKeys(h: map<string, string>, keys: seq<string>)
    requires forall n :: n in keys <==> n in h
    ensures (map n | n in keys :: h[n]) == h
  {
  }

  /** Writing what was parsed and parsing it again gives the same header and body. */
  lemma RoundTrip(t: string)
    ensures var p := SplitText(t); SplitText(Serialize(p.header, p.body)) == p
  {
    SplitTextProducible(t);
    SerializeSplits(SplitText(t).header, SplitText(t).body);
  }

  /** Writing a note a second time, after reloading it, prints the same text. */
  lemma WriteIdempotent(t: string)
    ensures var p := SplitText(t); var s := Serialize(p.header, p.body);
      Serialize(SplitText(s).header, SplitText(s).body) == s
  {
    RoundTrip(t);
  }

  // ----- the header map -----

  /** A name is stored exactly when some field of that name was parsed. */
  lemma {:induction false} FieldsKeys(ps: seq<Option<Field>>, n: string)
    ensures n in Fields(ps) <==> exists i :: 0 <= i < |ps| && ps[i].Some? && ps[i].value.name == n
    decreases |ps|
  {
    if ps != [] {
      var m := |ps| - 1;
      FieldsKeys(ps[..m], n);
      if n in Fields(ps[..m]) {
        var i :| 0 <= i < m && ps[..m][i].Some? && ps[..m][i].value.name == n;
        assert ps[i] == ps[..m][i];
      }
      if ps[m].Some? && ps[m].value.name == n {
        assert n in Fields(ps);
      }
      if i :| 0 <= i < |ps| && ps[i].Some? && ps[i].value.name == n {
        if i < m {
          assert ps[..m][i] == ps[i];
        }
      }
    }
  }

  /** The stored body of a name is that of the last field with the name. */
  lemma {:induction false} FieldsLastWins(ps: seq<Option<Field>>, i: nat)
    requires i < |ps| && ps[i].Some?
    requires forall j :: i < j < |ps| && ps[j].Some? ==> ps[j].value.name != ps[i].value.name
    ensures ps[i].value.name in Fields(ps) && Fields(ps)[ps[i].value.name] == ps[i].value.body
    decreases |ps|
  {
    var m := |ps| - 1;
    if i < m {
      FieldsLastWins(ps[..m], i);
    }
  }

  // ----- the examples of `parse_text` -----

  /** The lines `Note::write` prints for the fields `fs`, in order. */
  function Printed(fs: seq<Field>): (ls: seq<string>)
    ensures |ls| == |fs|
  {
    seq(|fs|, i requires 0 <= i < |fs| => FieldLine(fs[i].name, fs[i].body))
  }

  /** `fs` as parse results. */
  function Somes(fs: seq<Field>): (ps: seq<Option<Field>>)
    ensures |ps| == |fs|
  {
    seq(|fs|, i requires 0 <= i < |fs| => Some(fs[i]))
  }

  /** Lines that start with the printed fields `fs` parse to `fs` there. */
  lemma ParsedPrefix(ls: seq<string>, fs: seq<Field>)
    requires |fs| <= |ls| && ls[..|fs|] == Printed(fs)
    requires forall i :: 0 <= i < |fs| ==> GoodField(fs[i])
    ensures ParseLines(ls)[..|fs|] == Somes(fs)
  {
    forall i | 0 <= i < |fs| ensures ParseLines(ls)[i] == Some(fs[i]) {
      assert ls[i] == Printed(fs)[i];
      ParseFieldLine(fs[i].name, fs[i].body);
    }
  }

  lemma PrintedNoLf(fs: seq<Field>)
    requires forall i :: 0 <= i < |fs| ==> GoodField(fs[i])
    ensures forall i :: 0 <= i < |fs| ==> NoLf(Printed(fs)[i])
  {
    forall i | 0 <= i < |fs| ensures NoLf(Printed(fs)[i]) {
      FieldLineNoLf(fs[i].name, fs[i].body);
    }
  }

  /**
   * A block of field lines, an empty line and a body: the fields make the
   * header (the last one of a name winning) and the body is kept as it is.
   */
  lemma SplitFieldBlock(fs: seq<Field>, body: string)
    requires fs != [] && forall i :: 0 <= i < |fs| ==> GoodField(fs[i])
    requires !Unterminated(body)
    ensures SplitText(JoinLines(Printed(fs) + [""]) + body) == Split(Fields(Somes(fs)), body)
  {
    var t := JoinLines(Printed(fs) + [""]) + body;
    FieldBlockLines(fs, body);
    SplitTextBlankSeparator(t, |fs|);
    JoinOfLines(body);
  }

  /** The lines of a field block followed by a body, and what parsing makes of them. */
  lemma FieldBlockLines(fs: seq<Field>, body: string)
    requires fs != [] && forall i :: 0 <= i < |fs| ==> GoodField(fs[i])
    ensures var ls := Lines(JoinLines(Printed(fs) + [""]) + body);
      var ps := ParseLines(ls);
      var k := |fs|;
      k < |ls| && ls[k] == "" && (forall i :: 0 <= i < k ==> ps[i].Some?) &&
      Fields(ps[..k]) == Fields(Somes(fs)) && Fields(ps[..k]) != map[] && ls[k + 1..] == Lines(body)
  {
    var t := JoinLines(Printed(fs) + [""]) + body;
    BlockLines(fs, body);
    var ls := Lines(t);
    var k := |fs|;
    assert ls[..k] == Printed(fs);
    assert ls[k] == "";
    assert ls[k + 1..] == Lines(body);
    FieldBlockParsed(ls, fs);
  }

  /** Lines that start with the printed fields `fs` begin with a run of fields storing those of `fs`. */
  lemma FieldBlockParsed(ls: seq<string>, fs: seq<Field>)
    requires fs != [] && |fs| <= |ls| && ls[..|fs|] == Printed(fs)
    requires forall i :: 0 <= i < |fs| ==> GoodField(fs[i])
    ensures var ps := ParseLines(ls);
      (forall i :: 0 <= i < |fs| ==> ps[i].Some?) &&
      Fields(ps[..|fs|]) == Fields(Somes(fs)) && Fields(ps[..|fs|]) != map[]
  {
    ParsedPrefix(ls, fs);
    FieldsNonEmpty(Somes(fs));
    var ps := ParseLines(ls);
    assert forall i :: 0 <= i < |fs| ==> ps[i] == ps[..|fs|][i];
  }

  lemma BlockLines(fs: seq<Field>, body: string)
    requires forall i :: 0 <= i < |fs| ==> GoodField(fs[i])
    ensures Lines(JoinLines(Printed(fs) + [""]) + body) == Printed(fs) + [""] + Lines(body)
  {
    PrintedNoLf(fs);
    assert forall i :: 0 <= i < |Printed(fs) + [""]| ==> NoLf((Printed(fs) + [""])[i]);
    LinesOfJoin(Printed(fs) + [""], body);
  }

  /** A text made only of terminated field lines has an empty body. */
  lemma SplitHeaderOnly(fs: seq<Field>)
    requires fs != [] && forall i :: 0 <= i < |fs| ==> GoodField(fs[i])
    ensures SplitText(JoinLines(Printed(fs))) == Split(Fields(Somes(fs)), "")
  {
    var t := JoinLines(Printed(fs));
    PrintedNoLf(fs);
    LinesOfJoin(Printed(fs), "");
    assert t + "" == t;
    var ls := Lines(t);
    assert ls == Printed(fs);
    ParsedPrefix(ls, fs);
    var ps := ParseLines(ls);
    assert ps == ps[..|fs|] == Somes(fs);
    FieldRunIs(ps, |fs|);
    SplitTextAllFields(t);
  }

  /**
   * When the last line is a field with no line feed after it, the failed
   * `getline` leaves that line in place and it is copied into the body,
   * although it was also stored in the header.
   */
  lemma SplitUnterminatedLastField(fs: seq<Field>, f: Field)
    requires forall i :: 0 <= i < |fs| ==> GoodField(fs[i])
    requires GoodField(f)
    ensures SplitText(JoinLines(Printed(fs)) + FieldLine(f.name, f.body)) ==
      Split(Fields(Somes(fs + [f])), FieldLine(f.name, f.body) + "\n")
  {
    var last := FieldLine(f.name, f.body);
    var t := JoinLines(Printed(fs)) + last;
    var gs := fs + [f];
    UnterminatedBlockLines(fs, f);
    var ls := Lines(t);
    ParsedPrefix(ls, gs);
    assert ParseLines(ls) == ParseLines(ls)[..|gs|];
    FieldRunIs(ParseLines(ls), |gs|);
    FieldsNonEmpty(Somes(gs));
    FieldLineNotBlank(f);
    assert ls[|gs| - 1] == last;
    UnterminatedAppend(JoinLines(Printed(fs)), last);
    SplitTextAllFields(t);
  }

  /**
   * When every line of a text is a field, the body is empty unless the last
   * line lacks its line feed; then that line, left behind by the failed
   * `getline`, makes the body.
   */
  lemma SplitTextAllFields(t: string)
    requires t != [] && FieldRun(ParseLines(Lines(t))) == |Lines(t)|
    ensures var ls := Lines(t);
      SplitText(t) == Split(Fields(ParseLines(ls)),
        if Unterminated(t) && Trim(ls[|ls| - 1]) != [] then ls[|ls| - 1] + "\n" else "")
  {
    var ls := Lines(t);
    var ps := ParseLines(ls);
    FieldsNonEmpty(ps);
    assert ps[..|ls|] == ps;
    HeaderOfIs(t);
    var h := HeaderOf(t);
    assert h == Fields(ps);
    var b := Boundary(t);
    assert b == if Unterminated(t) then ls[|ls| - 1] else "";
    assert AfterBoundary(t) == [];
    HeaderBody(h, b);
  }

  /** The body after a non-empty header when no line follows the boundary: the boundary line, when it is not blank. */
  lemma HeaderBody(h: map<string, string>, b: string)
    requires h != map[]
    ensures JoinLines(FirstLines(h, b) + []) == if Trim(b) != [] then b + "\n" else ""
  {
    JoinHead(b, []);
    assert [b] + [] == [b];
  }

  lemma UnterminatedAppend(a: string, b: string)
    requires Unterminated(b)
    ensures Unterminated(a + b)
  {
    assert (a + b)[|a + b| - 1] == b[|b| - 1];
  }

  lemma UnterminatedBlockLines(fs: seq<Field>, f: Field)
    requires forall i :: 0 <= i < |fs| ==> GoodField(fs[i])
    requires GoodField(f)
    ensures Lines(JoinLines(Printed(fs)) + FieldLine(f.name, f.body)) == Printed(fs + [f])
  {
    var last := FieldLine(f.name, f.body);
    var t := JoinLines(Printed(fs)) + last;
    var gs := fs + [f];
    PrintedNoLf(gs);
    assert Printed(gs) == Printed(fs) + [last];
    JoinLinesSnoc(Printed(fs), last);
    LinesOfJoin(Printed(gs), "");
    assert JoinLines(Printed(gs)) + "" == t + "\n";
    FieldLineNotBlank(f);
    UnterminatedLines(t);
  }

  /** An unterminated text has the lines of the same text with a final line feed. */
  lemma UnterminatedLines(t: string)
    requires Unterminated(t)
    ensures Lines(t) == Lines(t + "\n")
  {
    JoinOfLines(t);
    LinesNoLf(t);
    LinesOfJoin(Lines(t), "");
    assert JoinLines(Lines(t)) + "" == t + "\n";
  }

  lemma FieldLineNotBlank(f: Field)
    requires GoodField(f)
    ensures Unterminated(FieldLine(f.name, f.body)) && Trim(FieldLine(f.name, f.body)) != []
  {
    var line := FieldLine(f.name, f.body);
    assert line[0] == f.name[0];
    TrimLeftNoOp(line);
    assert line[|line| - 1] != '\n' by {
      if f.body != [] {
        assert line[|line| - 1] == f.body[|f.body| - 1];
      }
    }
  }

  /** The unit tests of `parse_text` on empty texts. */
  lemma SplitEmptyTexts()
    ensures SplitText("") == Split(map[], "\n")
    ensures SplitText("\n") == Split(map[], "\n")
  {
    EmptyLineAt([""], 0);
    assert Lines("\n") == [""] by {
      LinesCons("\n", "", "");
    }
  }

  /** The unit test of `parse_text` on a note with two fields and a body. */
  lemma SplitTwoFieldsExample()
    ensures var t := FieldLine("Sujet", "le sujet") + "\n" + FieldLine("Etiquettes", "#inro #desktop") + "\n" +
      "\n" + "Le corps\nest ici.\n";
      SplitText(t) == Split(map["Sujet" := "le sujet", "Etiquettes" := "#inro #desktop"], "Le corps\nest ici.\n")
  {
    var fs := TwoFields();
    TwoFieldsGood();
    SplitFieldBlock(fs, "Le corps\nest ici.\n");
    TwoFieldsText();
    TwoFieldsMap();
  }

  function TwoFields(): seq<Field> {
    [Field("Sujet", "le sujet"), Field("Etiquettes", "#inro #desktop")]
  }

  lemma TwoFieldsGood()
    ensures forall i :: 0 <= i < |TwoFields()| ==> GoodField(TwoFields()[i])
  {
    assert GoodField(Field("Sujet", "le sujet"));
    assert GoodField(Field("Etiquettes", "#inro #desktop"));
  }

  lemma TwoFieldsText()
    ensures JoinLines(Printed(TwoFields()) + [""]) ==
      FieldLine("Sujet", "le sujet") + "\n" + FieldLine("Etiquettes", "#inro #desktop") + "\n" + "\n"
  {
    var l1, l2 := FieldLine("Sujet", "le sujet"), FieldLine("Etiquettes", "#inro #desktop");
    assert Printed(TwoFields()) + [""] == [l1, l2, ""];
    JoinHead(l1, [l2, ""]);
    JoinHead(l2, [""]);
    JoinHead("", []);
    assert [l1] + [l2, ""] == [l1, l2, ""];
    assert [l2] + [""] == [l2, ""];
    assert [""] + [] == [""];
  }

  lemma TwoFieldsMap()
    ensures Fields(Somes(TwoFields())) == map["Sujet" := "le sujet", "Etiquettes" := "#inro #desktop"]
  {
    var ps := Somes(TwoFields());
    assert ps[..1] == [Some(Field("Sujet", "le sujet"))];
    assert ps[..1][..0] == [];
  }
}
