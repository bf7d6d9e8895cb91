/**
 * The tag grammar: `is_tag`, `parse_tags` and `print_tags`
 * (notes_tool.cpp:227-268).  A tag is `#` followed by at least one
 * character, with no whitespace and no second `#`; a tags field is a
 * whitespace-separated list of tags.
 */
module Tags {
  import opened Chars
  import opened Options
  import Order

  /** `boost::range::count_if(t, iswspace)`. */
  function CountWs(s: string): (n: nat)
    ensures n == 0 <==> NoWs(s)
  {
    if s == [] then 0 else (if IsWs(s[0]) then 1 else 0) + CountWs(s[1..])
  }

  /** `std::count(first, last, c)`. */
  function Count(s: string, c: char): (n: nat)
    ensures n == 0 <==> c !in s
  {
    if s == [] then 0 else (if s[0] == c then 1 else 0) + Count(s[1..], c)
  }

  /** `is_tag`: at least two characters, a leading `#`, no whitespace, no further `#`. */
  predicate IsTag(t: string)
    ensures IsTag(t) <==>
      |t| >= 2 && t[0] == '#' && NoWs(t) && forall i :: 1 <= i < |t| ==> t[i] != '#'
  {
    if |t| <= 1 then false
    else if t[0] != '#' then false
    else if CountWs(t) != 0 then false
    else
      assert forall i :: 1 <= i < |t| ==> t[i] == t[1..][i - 1];
      Count(t[1..], '#') == 0
  }

  /**
   * The words that successive `stream >> word` extractions yield: whitespace
   * is skipped, and each word is a longest run of non-whitespace.
   */
  function Tokens(s: string): seq<string>
    decreases |s|
  {
    if s == [] then []
    else if IsWs(s[0]) then Tokens(s[1..])
    else
      var n := RunEnd(s);
      [s[..n]] + Tokens(s[n..])
  }

  /** Every word is non-empty and holds no whitespace. */
  lemma {:induction false} TokensAreWords(s: string)
    ensures forall k :: 0 <= k < |Tokens(s)| ==> Tokens(s)[k] != [] && NoWs(Tokens(s)[k])
    decreases |s|
  {
    if s != [] {
      if IsWs(s[0]) {
        TokensAreWords(s[1..]);
      } else {
        TokensAreWords(s[RunEnd(s)..]);
      }
    }
  }

  /** The set parsed from a word list: defined exactly when every word is a tag. */
  function ParseTokens(ts: seq<string>): (r: Option<set<string>>)
    ensures r.Some? <==> forall k :: 0 <= k < |ts| ==> IsTag(ts[k])
    ensures r.Some? ==> forall t :: t in r.value <==> t in ts
  {
    if ts == [] then Some({})
    else if !IsTag(ts[0]) then None
    else match ParseTokens(ts[1..])
      case None => None
      case Some(rest) => Some({ts[0]} + rest)
  }

  /** What `parse_tags` yields: the set of words when every word is a tag. */
  function ParseTagsSpec(s: string): Option<set<string>> {
    ParseTokens(Tokens(s))
  }

  /** Words separated by single spaces, with nothing before the first or after the last. */
  function Join(xs: seq<string>): string {
    if xs == [] then ""
    else if |xs| == 1 then xs[0]
    else xs[0] + " " + Join(xs[1..])
  }

  /** Each word followed by one space: what the loop of `print_tags` builds before it erases the last character. */
  function Spaced(xs: seq<string>): string {
    if xs == [] then "" else xs[0] + " " + Spaced(xs[1..])
  }

  /** What `print_tags` yields: the tags in ascending order, joined by single spaces. */
  function PrintTagsSpec(tags: set<string>): string {
    Join(Order.SortedElems(tags))
  }

  /**
   * `parse_tags`: the output set is cleared on entry and is assigned only when
   * every word is a tag.  The loop takes the words in the order in which
   * `stream >> tag` extracts them.
   */
  method ParseTags(s: string) returns (ok: bool, tags: set<string>)
    ensures ok <==> forall k :: 0 <= k < |Tokens(s)| ==> IsTag(Tokens(s)[k])
    ensures ok ==> forall t :: t in tags <==> t in Tokens(s)
    ensures !ok ==> tags == {}
    ensures ParseTagsSpec(s) == if ok then Some(tags) else None
  {
    tags := {};
    var t: set<string> := {};
    var words := Tokens(s);
    for i := 0 to |words|
      invariant forall k :: 0 <= k < i ==> IsTag(words[k])
      invariant forall x :: x in t <==> x in words[..i]
    {
      var tag := words[i];
      if !IsTag(tag) {
        NonTagFails(words, i);
        ok := false;
        assert !(forall k :: 0 <= k < |Tokens(s)| ==> IsTag(Tokens(s)[k])) by {
          assert !IsTag(Tokens(s)[i]);
        }
        return;
      }
      t := t + {tag};
      assert words[..i + 1] == words[..i] + [tag];
    }
    assert words[..|words|] == words;
    AllTagsParse(words, t);
    tags := t;
    ok := true;
  }

  lemma NonTagFails(ts: seq<string>, i: nat)
    requires i < |ts| && !IsTag(ts[i])
    ensures ParseTokens(ts).None?
  {
  }

  lemma AllTagsParse(ts: seq<string>, t: set<string>)
    requires forall k :: 0 <= k < |ts| ==> IsTag(ts[k])
    requires forall x :: x in t <==> x in ts
    ensures ParseTokens(ts) == Some(t)
  {
    assert ParseTokens(ts).value == t;
  }

  lemma {:induction false} SpacedJoin(xs: seq<string>)
    requires xs != []
    ensures Spaced(xs) == Join(xs) + " "
  {
    if |xs| > 1 {
      SpacedJoin(xs[1..]);
    } else {
      assert Spaced(xs[1..]) == "";
    }
  }

  /** `print_tags`: every tag followed by a space, then the last character erased. */
  method PrintTags(tags: set<string>) returns (r: string)
    ensures r == PrintTagsSpec(tags)
  {
    r := "";
    var order := Order.SortedElems(tags);
    for i := 0 to |order|
      invariant r + Spaced(order[i..]) == Spaced(order)
    {
      SpacedStep(order, i);
      r := r + order[i] + " ";
    }
    if order != [] {
      SpacedDone(order, r);
      r := r[..|r| - 1];
    }
  }

  /** One step of the loop of `print_tags`. */
  lemma SpacedStep(xs: seq<string>, i: nat)
    requires i < |xs|
    ensures Spaced(xs[i..]) == xs[i] + " " + Spaced(xs[i + 1..])
  {
    assert xs[i..][1..] == xs[i + 1..];
  }

  /** After the loop of `print_tags`, erasing the last space leaves the join. */
  lemma SpacedDone(xs: seq<string>, r: string)
    requires xs != [] && r + Spaced(xs[|xs|..]) == Spaced(xs)
    ensures |r| >= 1 && r[..|r| - 1] == Join(xs)
  {
    assert xs[|xs|..] == [];
    SpacedJoin(xs);
    assert r == Join(xs) + " ";
  }

  // Properties of the grammar

  /** Whitespace before a word list does not change it. */
  lemma {:induction false} TokensSkipWs(w: string, s: string)
    requires AllWs(w)
    ensures Tokens(w + s) == Tokens(s)
  {
    if w == [] {
      assert w + s == s;
    } else {
      assert (w + s)[1..] == w[1..] + s;
      TokensSkipWs(w[1..], s);
    }
  }

  /** A word followed by whitespace (or nothing) is the first token. */
  lemma TokensFirstWord(a: string, b: string)
    requires a != [] && NoWs(a)
    requires b == [] || IsWs(b[0])
    ensures Tokens(a + b) == [a] + Tokens(b)
  {
    RunEndConcat(a, b);
    assert (a + b)[..|a|] == a && (a + b)[|a|..] == b;
  }

  /** A single word is its only token. */
  lemma TokensWord(a: string)
    requires a != [] && NoWs(a)
    ensures Tokens(a) == [a]
  {
    TokensFirstWord(a, []);
    assert a + [] == a;
  }

  /** Runs of whitespace between words collapse: any non-empty run separates two words. */
  lemma TokensCollapse(a: string, w: string, b: string)
    requires a != [] && NoWs(a)
    requires w != [] && AllWs(w)
    ensures Tokens(a + w + b) == [a] + Tokens(b)
  {
    assert a + w + b == a + (w + b);
    TokensFirstWord(a, w + b);
    TokensSkipWs(w, b);
  }

  /** Splitting a single-space join gives back the words. */
  lemma {:induction false} TokensOfJoin(xs: seq<string>)
    requires forall k :: 0 <= k < |xs| ==> xs[k] != [] && NoWs(xs[k])
    ensures Tokens(Join(xs)) == xs
  {
    if xs == [] {
    } else if |xs| == 1 {
      TokensWord(xs[0]);
    } else {
      TokensCollapse(xs[0], " ", Join(xs[1..]));
      TokensOfJoin(xs[1..]);
    }
  }

  /** Round trip: printing a set of tags and parsing the result gives the same set. */
  lemma PrintParseRoundTrip(tags: set<string>)
    requires forall t :: t in tags ==> IsTag(t)
    ensures ParseTagsSpec(PrintTagsSpec(tags)) == Some(tags)
  {
    var xs := Order.SortedElems(tags);
    forall k | 0 <= k < |xs| ensures xs[k] != [] && NoWs(xs[k]) {
      assert xs[k] in tags;
    }
    TokensOfJoin(xs);
    var r := ParseTokens(xs);
    assert r.Some?;
    assert r.value == tags;
  }

  lemma {:induction false} JoinLast(xs: seq<string>)
    requires xs != [] && xs[|xs| - 1] != []
    ensures Join(xs) != [] && Join(xs)[|Join(xs)| - 1] == xs[|xs| - 1][|xs[|xs| - 1]| - 1]
  {
    if |xs| > 1 {
      assert xs[1..][|xs[1..]| - 1] == xs[|xs| - 1];
      JoinLast(xs[1..]);
    }
  }

  /** Printing a set that holds a word which is no tag gives a field that does not parse. */
  lemma PrintNonTagFails(tags: set<string>, x: string)
    requires forall t :: t in tags ==> t != [] && NoWs(t)
    requires x in tags && !IsTag(x)
    ensures ParseTagsSpec(PrintTagsSpec(tags)) == None
  {
    var xs := Order.SortedElems(tags);
    forall k | 0 <= k < |xs| ensures xs[k] != [] && NoWs(xs[k]) {
      assert xs[k] in tags;
    }
    TokensOfJoin(xs);
    assert x in xs;
    var k :| 0 <= k < |xs| && xs[k] == x;
    NonTagFails(xs, k);
  }

  /** The printed tags field never ends with a space (nor with any whitespace). */
  lemma PrintTagsNoTrailingSpace(tags: set<string>)
    requires forall t :: t in tags ==> IsTag(t)
    ensures PrintTagsSpec(tags) == [] || !IsWs(PrintTagsSpec(tags)[|PrintTagsSpec(tags)| - 1])
  {
    var xs := Order.SortedElems(tags);
    if xs != [] {
      assert xs[|xs| - 1] in tags;
      JoinLast(xs);
    }
  }

  /** `is_tag` on the words of its unit test. */
  lemma IsTagExamples()
    ensures IsTag("#inro")
    ensures !IsTag("#") && !IsTag("") && !IsTag("#in#ro") && !IsTag("#in ro")
  {
    assert "#in ro"[3] == ' ';
    assert "#in#ro"[3] == '#';
  }

  /** Two tags separated by any run of whitespace parse to the set of both. */
  lemma ParseTwoTags(a: string, w: string, b: string)
    requires IsTag(a) && IsTag(b)
    requires w != [] && AllWs(w)
    ensures ParseTagsSpec(a + w + b) == Some({a, b})
  {
    TokensWord(b);
    TokensCollapse(a, w, b);
    AllTagsParse([a, b], {a, b});
  }

  /** `parse_tags` rejects a field that is a single word without `#`. */
  lemma ParseTagsRejectsBareWord()
    ensures ParseTagsSpec("inro") == None
  {
    TokensWord("inro");
  }

  /** `parse_tags` rejects a field whose last word is a lone `#`. */
  lemma ParseTagsRejectsLoneHash()
    ensures ParseTagsSpec("#inro #") == None
  {
    TokensWord("#");
    TokensCollapse("#inro", " ", "#");
    assert "#inro" + " " + "#" == "#inro #";
  }

  /** `parse_tags` rejects a word holding a second `#`. */
  lemma ParseTagsRejectsSecondHash()
    ensures ParseTagsSpec("#hash#hash") == None
  {
    TokensWord("#hash#hash");
    assert "#hash#hash"[5] == '#';
  }

  /** The empty tags field parses to the empty set. */
  lemma ParseTagsEmpty()
    ensures ParseTagsSpec("") == Some({})
  {
  }
}
