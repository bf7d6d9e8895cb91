/**
 * The header-field grammar of `parse_header_field` (notes_tool.cpp:273-288):
 * a line matches the ECMAScript expression `(\S+):(.*)\n?` as a whole.  The
 * name is the first group and the body the second, both trimmed.  `.` does
 * not match a line terminator (line feed, carriage return, U+2028, U+2029);
 * `\S+` is greedy, so of all the colons in the leading run of non-whitespace
 * the last one ends the name.
 */
module HeaderField {
  import opened Chars
  import opened Options

  /** A parsed header line. */
  datatype Field = Field(name: string, body: string)

  /**
   * A line terminator of ECMAScript: line feed, carriage return, line
   * separator U+2028 or paragraph separator U+2029 (section 7.3 of
   * ECMA-262, 5.1 edition).  `.` matches any character but these.
   */
  predicate IsLineTerminator(c: char) {
    c == '\n' || c == '\r' || c == '\U{2028}' || c == '\U{2029}'
  }

  /** No line terminator (what `.` refuses) in `s`. */
  predicate NoLineEnd(s: string) {
    forall i :: 0 <= i < |s| ==> !IsLineTerminator(s[i])
  }

  /** A concatenation holds no line terminator exactly when neither part does. */
  lemma NoLineEndConcat(a: string, b: string)
    ensures NoLineEnd(a + b) <==> NoLineEnd(a) && NoLineEnd(b)
  {
    assert forall i :: 0 <= i < |a| ==> (a + b)[i] == a[i];
    assert forall i :: 0 <= i < |b| ==> (a + b)[|a| + i] == b[i];
  }

  /** The line without the one final line feed that `\n?` may take. */
  function DropFinalLf(line: string): string {
    if line != [] && line[|line| - 1] == '\n' then line[..|line| - 1] else line
  }

  /**
   * The colon at `k` can end the first group: the text before it is a
   * non-empty run of non-whitespace, and what follows it (up to the optional
   * final line feed) holds no line terminator.
   */
  predicate SplitsAt(line: string, k: int) {
    var l := DropFinalLf(line);
    1 <= k < |l| && l[k] == ':' && NoWs(l[..k]) && NoLineEnd(l[k + 1..])
  }

  /** The greatest index below `n` at which `s` holds a colon, if it is at least 1. */
  function LastColon(s: string, n: nat): (k: Option<nat>)
    requires n <= |s|
    ensures k.Some? ==> 1 <= k.value < n && s[k.value] == ':'
    ensures k.Some? ==> forall i :: k.value < i < n ==> s[i] != ':'
    ensures k.None? ==> forall i :: 1 <= i < n ==> s[i] != ':'
  {
    if n <= 1 then None
    else if s[n - 1] == ':' then Some(n - 1)
    else LastColon(s, n - 1)
  }

  /** `k` is the split the greedy expression takes: no later colon also splits the line. */
  ghost predicate GreediestSplit(line: string, k: int) {
    SplitsAt(line, k) && forall j :: SplitsAt(line, j) ==> j <= k
  }

  /**
   * `parse_header_field`: the name is the leading run of non-whitespace up
   * to its last colon, the body the rest of the line without its optional
   * final line feed, both trimmed.
   */
  function ParseHeaderField(line: string): (r: Option<Field>)
    ensures r.Some? ==> r.value.name != [] && NoWs(r.value.name)
    ensures r.Some? ==> IsTrimmed(r.value.body) && NoLineEnd(r.value.body)
  {
    var l := DropFinalLf(line);
    var n := RunEnd(l);
    match LastColon(l, n)
    case None => None
    case Some(k) =>
      assert NoWs(l[..k]) by {
        assert l[..k] == l[..n][..k];
      }
      FieldAt(l, k)
  }

  /** The field of the line `l` whose name ends at the colon at `k`: none when the rest holds a line terminator. */
  function FieldAt(l: string, k: nat): (r: Option<Field>)
    requires 1 <= k < |l| && NoWs(l[..k])
    ensures r.Some? ==> r.value.name != [] && NoWs(r.value.name)
    ensures r.Some? ==> IsTrimmed(r.value.body) && NoLineEnd(r.value.body)
  {
    if NoLineEnd(l[k + 1..]) then
      TrimNoWs(l[..k]);
      TrimKeepsNoLineEnd(l[k + 1..]);
      Some(Field(Trim(l[..k]), Trim(l[k + 1..])))
    else
      None
  }

  /** Trimming removes characters from the ends only. */
  lemma TrimKeepsNoLineEnd(s: string)
    requires NoLineEnd(s)
    ensures NoLineEnd(Trim(s))
  {
    var t := TrimLeft(s);
    forall i | 0 <= i < |t| ensures !IsLineTerminator(t[i]) {
      assert t[i] == s[|s| - |t| + i];
    }
    var u := TrimRight(t);
    forall i | 0 <= i < |u| ensures !IsLineTerminator(u[i]) {
      assert u[i] == t[i];
    }
    assert Trim(s) == u;
  }

  /** `ParseHeaderField` when the leading run has a last colon and the tail is one line. */
  lemma ParseAt(line: string, l: string, k: nat)
    requires l == DropFinalLf(line)
    requires LastColon(l, RunEnd(l)) == Some(k) && NoLineEnd(l[k + 1..])
    ensures ParseHeaderField(line) == Some(Field(l[..k], Trim(l[k + 1..])))
  {
    ParseAtColon(line, l, k);
    FieldAtOneLine(l, k);
    TrimNoWs(l[..k]);
  }

  /** `ParseHeaderField` at the last colon of the leading run. */
  lemma ParseAtColon(line: string, l: string, k: nat)
    requires l == DropFinalLf(line)
    requires LastColon(l, RunEnd(l)) == Some(k)
    ensures 1 <= k < |l| && NoWs(l[..k])
    ensures ParseHeaderField(line) == FieldAt(l, k)
  {
    NoWsPrefix(l[..RunEnd(l)], k);
    assert l[..RunEnd(l)][..k] == l[..k];
  }

  /** `FieldAt` when the rest of the line is one line. */
  lemma FieldAtOneLine(l: string, k: nat)
    requires 1 <= k < |l| && NoWs(l[..k]) && NoLineEnd(l[k + 1..])
    ensures FieldAt(l, k) == Some(Field(Trim(l[..k]), Trim(l[k + 1..])))
  {
  }

  /**
   * `parse_header_field` agrees with the regular expression: it succeeds
   * exactly when some colon splits the line as `(\S+):(.*)\n?` requires,
   * and then it takes the greediest such colon and trims both groups.
   */
  lemma ParseHeaderFieldIsGreedyMatch(line: string)
    ensures ParseHeaderField(line).Some? <==> exists k :: SplitsAt(line, k)
    ensures ParseHeaderField(line).Some? ==>
      exists k :: GreediestSplit(line, k) &&
        ParseHeaderField(line).value == Field(DropFinalLf(line)[..k], Trim(DropFinalLf(line)[k + 1..]))
  {
    var l := DropFinalLf(line);
    var m := LastColon(l, RunEnd(l));
    if m.Some? && NoLineEnd(l[m.value + 1..]) {
      var k := m.value;
      GreedyMatchAt(line, k);
      assert SplitsAt(line, k);
    } else {
      NoMatchNoField(line);
    }
  }

  /** Without a colon in the leading run that splits the line, the line is no field and no colon splits it. */
  lemma NoMatchNoField(line: string)
    requires var l := DropFinalLf(line); var m := LastColon(l, RunEnd(l));
      !(m.Some? && NoLineEnd(l[m.value + 1..]))
    ensures ParseHeaderField(line).None?
    ensures forall j :: !SplitsAt(line, j)
  {
    var l := DropFinalLf(line);
    var m := LastColon(l, RunEnd(l));
    if m.None? {
      NoSplitWithoutColon(line);
    } else {
      NoSplitWhenTailBreaks(line, m.value);
    }
  }

  /** The case of `ParseHeaderFieldIsGreedyMatch` in which the last colon of the run splits the line. */
  lemma GreedyMatchAt(line: string, k: nat)
    requires var l := DropFinalLf(line); LastColon(l, RunEnd(l)) == Some(k) && NoLineEnd(l[k + 1..])
    ensures GreediestSplit(line, k)
    ensures ParseHeaderField(line) == Some(Field(DropFinalLf(line)[..k], Trim(DropFinalLf(line)[k + 1..])))
  {
    var l := DropFinalLf(line);
    var n := RunEnd(l);
    assert SplitsAt(line, k) by {
      assert l[..k] == l[..n][..k];
    }
    GreediestSplitIsLastColon(line, k);
    ParseAt(line, l, k);
  }

  /** Every split lies inside the leading run of non-whitespace. */
  lemma SplitInRun(line: string, j: int)
    requires SplitsAt(line, j)
    ensures j < RunEnd(DropFinalLf(line))
  {
  }

  lemma NoSplitWithoutColon(line: string)
    requires var l := DropFinalLf(line); LastColon(l, RunEnd(l)).None?
    ensures forall j :: !SplitsAt(line, j)
  {
    forall j | SplitsAt(line, j) ensures false {
      SplitInRun(line, j);
    }
  }

  lemma GreediestSplitIsLastColon(line: string, k: nat)
    requires var l := DropFinalLf(line); LastColon(l, RunEnd(l)) == Some(k)
    ensures forall j :: SplitsAt(line, j) ==> j <= k
  {
    forall j | SplitsAt(line, j) ensures j <= k {
      SplitInRun(line, j);
    }
  }

  lemma NoSplitWhenTailBreaks(line: string, k: nat)
    requires var l := DropFinalLf(line); LastColon(l, RunEnd(l)) == Some(k) && !NoLineEnd(l[k + 1..])
    ensures forall j :: !SplitsAt(line, j)
  {
    forall j | SplitsAt(line, j) ensures false {
      SplitInRun(line, j);
    }
  }

  /** A field line as `Note::write` prints it: name, colon, space, body. */
  function FieldLine(name: string, body: string): string {
    name + ": " + body
  }

  /**
   * A printed field line parses back to the same field, for every name that
   * is a run of non-whitespace and every trimmed body without line terminators.
   */
  lemma ParseFieldLine(name: string, body: string)
    requires name != [] && NoWs(name)
    requires IsTrimmed(body) && NoLineEnd(body)
    ensures ParseHeaderField(FieldLine(name, body)) == Some(Field(name, body))
  {
    FieldLineNoFinalLf(name, body);
    ParsePrinted(FieldLine(name, body), name, body);
  }

  /** A line that is a printed field line once `\n?` has taken its final line feed parses to that field. */
  lemma ParsePrinted(line: string, name: string, body: string)
    requires name != [] && NoWs(name)
    requires IsTrimmed(body) && NoLineEnd(body)
    requires DropFinalLf(line) == FieldLine(name, body)
    ensures ParseHeaderField(line) == Some(Field(name, body))
  {
    var l := FieldLine(name, body);
    var k := |name|;
    FieldLineShape(name, body);
    LastColonAt(l, k);
    SpacedBodyOneLine(body);
    ParseAt(line, l, k);
    TrimLeadingWs(" ", body);
  }

  /** Where the leading run of a printed field line ends, and what lies on either side of its colon. */
  lemma FieldLineShape(name: string, body: string)
    requires name != [] && NoWs(name)
    ensures var line := FieldLine(name, body);
      RunEnd(line) == |name| + 1 && line[|name|] == ':' &&
      line[..|name|] == name && line[|name| + 1..] == " " + body
  {
    var line := FieldLine(name, body);
    assert line == (name + ":") + (" " + body);
    RunEndConcat(name + ":", " " + body);
  }

  /** A printed field line has no final line feed for `\n?` to take. */
  lemma FieldLineNoFinalLf(name: string, body: string)
    requires NoLineEnd(body)
    ensures DropFinalLf(FieldLine(name, body)) == FieldLine(name, body)
  {
    var line := FieldLine(name, body);
    if body != [] {
      assert line[|line| - 1] == body[|body| - 1];
    }
  }

  /** The colon just before the end of the run `s[..k + 1]` is its last one. */
  lemma LastColonAt(s: string, k: nat)
    requires 1 <= k < |s| && s[k] == ':'
    ensures LastColon(s, k + 1) == Some(k)
  {
  }

  lemma SpacedBodyOneLine(body: string)
    requires NoLineEnd(body)
    ensures NoLineEnd(" " + body)
  {
    assert forall i :: 1 <= i < |" " + body| ==> (" " + body)[i] == body[i - 1];
  }

  /** The unit tests of `parse_header_field`. */
  lemma ParseHeaderFieldRejects()
    ensures ParseHeaderField("") == None
    ensures ParseHeaderField("\n") == None
    ensures ParseHeaderField("   \n") == None
    ensures ParseHeaderField("# Subject") == None
    ensures ParseHeaderField("# Subject\n") == None
  {
    assert DropFinalLf("   \n") == "   ";
    assert RunEnd("   ") == 0;
    assert DropFinalLf("# Subject\n") == "# Subject";
    assert RunEnd("# Subject") == 1;
  }

  /** A field with a body. */
  lemma ParseHeaderFieldSubject()
    ensures ParseHeaderField(FieldLine("Sujet", "le sujet")) == Some(Field("Sujet", "le sujet"))
  {
    ParseFieldLine("Sujet", "le sujet");
  }

  /** The final line feed that `\n?` takes is ignored. */
  lemma ParseHeaderFieldFinalLf(name: string, body: string)
    requires name != [] && NoWs(name)
    requires IsTrimmed(body) && NoLineEnd(body)
    ensures ParseHeaderField(FieldLine(name, body) + "\n") == Some(Field(name, body))
  {
    var line := FieldLine(name, body);
    assert DropFinalLf(line + "\n") == line;
    ParsePrinted(line + "\n", name, body);
  }

  /** Only the colon that ends the leading run splits: the body keeps its colons. */
  lemma ParseHeaderFieldTwoColons()
    ensures ParseHeaderField(FieldLine("Sujet", "avec deux : points") + "\n") == Some(Field("Sujet", "avec deux : points"))
  {
    ParseHeaderFieldFinalLf("Sujet", "avec deux : points");
  }

  /**
   * A line with no whitespace at all: the name runs up to the last colon,
   * even when the name itself holds colons.  A line or paragraph separator
   * in the body (not whitespace in the C locale) stops the match.
   */
  lemma ParseUnspacedField(name: string, body: string)
    requires name != [] && NoWs(name)
    requires NoWs(body) && ':' !in body
    ensures ParseHeaderField(name + ":" + body) == if NoLineEnd(body) then Some(Field(name, body)) else None
  {
    var line := name + ":" + body;
    UnspacedShape(name, body);
    if NoLineEnd(body) {
      ParseAt(line, line, |name|);
      TrimNoWs(body);
    } else {
      NoMatchNoField(line);
    }
  }

  /**
   * A printed field line whose body holds a line terminator other than a
   * final line feed does not parse back: the printed field is lost.
   */
  lemma FieldLineRejected(name: string, body: string)
    requires name != [] && NoWs(name)
    requires !NoLineEnd(body) && body[|body| - 1] != '\n'
    ensures ParseHeaderField(FieldLine(name, body)).None?
  {
    var line := FieldLine(name, body);
    assert DropFinalLf(line) == line by {
      assert line[|line| - 1] == body[|body| - 1];
    }
    FieldLineShape(name, body);
    LastColonAt(line, |name|);
    var i :| 0 <= i < |body| && IsLineTerminator(body[i]);
    assert line[|name| + 1..][i + 1] == body[i];
    NoMatchNoField(line);
  }

  /** A line separator in the body of a field line: no field. */
  lemma ParseHeaderFieldLineSeparator()
    ensures ParseHeaderField(FieldLine("Sujet", "un\U{2028}deux")) == None
  {
    var body := "un\U{2028}deux";
    assert body[2] == '\U{2028}';
    FieldLineRejected("Sujet", body);
  }

  lemma UnspacedShape(name: string, body: string)
    requires name != [] && NoWs(name)
    requires NoWs(body) && ':' !in body
    ensures var line := name + ":" + body;
      DropFinalLf(line) == line && RunEnd(line) == |line| && LastColon(line, |line|) == Some(|name|) &&
      line[..|name|] == name && line[|name| + 1..] == body
  {
    var line := name + ":" + body;
    assert NoWs(line) by {
      forall i | 0 <= i < |line| ensures !IsWs(line[i]) {
        if i < |name| {
          assert line[i] == name[i];
        } else if i > |name| {
          assert line[i] == body[i - |name| - 1];
        }
      }
    }
    assert DropFinalLf(line) == line by {
      if body != [] {
        assert line[|line| - 1] == body[|body| - 1];
      }
    }
    RunEndConcat(line, []);
    assert line + [] == line;
    assert forall i :: |name| < i < |line| ==> line[i] == body[i - |name| - 1];
    LastColonIs(line, |line|, |name|);
  }

  /** The colon at `k` is the last one below `n`. */
  lemma {:induction false} LastColonIs(s: string, n: nat, k: nat)
    requires 1 <= k < n <= |s| && s[k] == ':'
    requires forall i :: k < i < n ==> s[i] != ':'
    ensures LastColon(s, n) == Some(k)
    decreases n
  {
    if n - 1 != k {
      LastColonIs(s, n - 1, k);
    }
  }

  /** The greedy match of `a:b:c` names the field `a:b`. */
  lemma ParseHeaderFieldGreedyName()
    ensures ParseHeaderField("a:b" + ":" + "c") == Some(Field("a:b", "c"))
  {
    ParseUnspacedField("a:b", "c");
  }

  /** A carriage return after the colon stops the match. */
  lemma CarriageReturnRejects(line: string, name: string, a: string, b: string)
    requires name != [] && NoWs(name)
    requires line == name + ":" + a + "\r" + b
    ensures ParseHeaderField(line) == None
  {
    var l := DropFinalLf(line);
    var p := |name| + 1 + |a|;
    assert p < |l| && l[p] == '\r' by {
      assert line[p] == '\r';
    }
    forall j | SplitsAt(line, j) ensures false {
      SplitInRun(line, j);
    }
    ParseHeaderFieldIsGreedyMatch(line);
  }
}
