/** The regular expressions of the validator and the reply parser, each written out as the
    matcher Python's `re` module runs for it.  Character classes follow the ASCII reading
    of `\w`, `IGNORECASE` and `str.lower()`; `\s` is Python's whitespace set. */
module Patterns {
  import opened Wrappers
  import opened Strings

  // ---------------------------------------------------------------------------
  // Runs of one character class
  // ---------------------------------------------------------------------------

  /** The first index at or after `i` whose character is not whitespace (or `|s|`). */
  function SpaceRunEnd(s: string, i: nat): (j: nat)
    requires i <= |s|
    ensures i <= j <= |s|
    ensures forall k :: i <= k < j ==> IsSpace(s[k])
    ensures j < |s| ==> !IsSpace(s[j])
    decreases |s| - i
  {
    if i < |s| && IsSpace(s[i]) then SpaceRunEnd(s, i + 1) else i
  }

  /** The first index at or after `i` whose character is not a word character (or `|s|`). */
  function WordRunEnd(s: string, i: nat): (j: nat)
    requires i <= |s|
    ensures i <= j <= |s|
    ensures forall k :: i <= k < j ==> IsWordChar(s[k])
    ensures j < |s| ==> !IsWordChar(s[j])
    decreases |s| - i
  {
    if i < |s| && IsWordChar(s[i]) then WordRunEnd(s, i + 1) else i
  }

  /** The first index at or after `i` whose character is not '#' (or `|s|`). */
  function HashRunEnd(s: string, i: nat): (j: nat)
    requires i <= |s|
    ensures i <= j <= |s|
    ensures forall k :: i <= k < j ==> s[k] == '#'
    ensures j < |s| ==> s[j] != '#'
    decreases |s| - i
  {
    if i < |s| && s[i] == '#' then HashRunEnd(s, i + 1) else i
  }

  predicate IsQuote(c: char) {
    c == '\'' || c == '"'
  }

  /** The first index at or after `i` holding a quote character (or `|s|`). */
  function QuoteFreeEnd(s: string, i: nat): (j: nat)
    requires i <= |s|
    ensures i <= j <= |s|
    ensures forall k :: i <= k < j ==> !IsQuote(s[k])
    ensures j < |s| ==> IsQuote(s[j])
    decreases |s| - i
  {
    if i < |s| && !IsQuote(s[i]) then QuoteFreeEnd(s, i + 1) else i
  }

  // ---------------------------------------------------------------------------
  // A Markdown heading line: at a line start, one or more '#' and then whitespace
  // ---------------------------------------------------------------------------

  /** Index `i` starts a line: the start of the text or just after a newline. */
  predicate LineStart(s: string, i: nat) {
    i == 0 || (0 < i <= |s| && s[i - 1] == '\n')
  }

  /** A line starting at `i` opens with one or more '#' followed by whitespace. */
  predicate HeadingAt(s: string, i: nat) {
    i < |s| && LineStart(s, i) && s[i] == '#' &&
    var j := HashRunEnd(s, i); j < |s| && IsSpace(s[j])
  }

  /** Some line is a Markdown heading; a text opening with "# " has one. */
  predicate HasHeadingLine(s: string)
    ensures HasHeadingLine(s) ==> Contains(s, "#")
    ensures StartsWith(s, "# ") ==> HasHeadingLine(s)
  {
    HeadingFacts(s);
    exists i | 0 <= i < |s| :: HeadingAt(s, i)
  }

  /** A heading starts with '#', and "# " at the start of a text is one. */
  lemma HeadingFacts(s: string)
    ensures forall i :: 0 <= i < |s| && HeadingAt(s, i) ==> PrefixAt(s, i, "#")
    ensures StartsWith(s, "# ") ==> HeadingAt(s, 0)
  {
    forall i | 0 <= i < |s| && HeadingAt(s, i) ensures PrefixAt(s, i, "#") {
      assert s[i..i + 1] == [s[i]];
    }
    if StartsWith(s, "# ") {
      assert s[0] == "# "[0] && s[1] == "# "[1];
      assert HashRunEnd(s, 0) == 1;
    }
  }

  /** A heading needs whitespace after its '#'s and must open a line. */
  lemma HeadingExamples()
    ensures HasHeadingLine("Intro\n## Usage")
    ensures !HasHeadingLine("#Title")
    ensures !HasHeadingLine("see # notes")
  {
    var a := "Intro\n## Usage";
    assert HashRunEnd(a, 6) == 8;
    assert HeadingAt(a, 6);
    var b := "#Title";
    assert '\n' !in b;
    forall i | 0 <= i < |b| ensures !HeadingAt(b, i) {
      if i == 0 {
        assert HashRunEnd(b, 0) == 1;
      } else {
        assert b[i - 1] in b;
      }
    }
    var c := "see # notes";
    assert '\n' !in c;
    forall i | 0 <= i < |c| ensures !HeadingAt(c, i) {
      if i > 0 {
        assert c[i - 1] in c;
      } else {
        assert c[0] != '#';
      }
    }
  }

  // ---------------------------------------------------------------------------
  // The id a check names: `id=`, a quote, a non-empty run of non-quotes, a quote
  // ---------------------------------------------------------------------------

  /** The pattern matches at `i`: `id=`, a quote, one or more non-quotes, a quote. */
  predicate IdMatchAt(s: string, i: nat) {
    PrefixAt(s, i, "id=") && i + 3 < |s| && IsQuote(s[i + 3]) &&
    var e := QuoteFreeEnd(s, i + 4); i + 4 < e < |s|
  }

  /** The captured group of a match at `i`. */
  function IdAt(s: string, i: nat): string
    requires IdMatchAt(s, i)
  {
    s[i + 4..QuoteFreeEnd(s, i + 4)]
  }

  /** The leftmost match position at or after `from`. */
  function FirstIdMatch(s: string, from: nat): (r: Option<nat>)
    ensures r.Some? ==> from <= r.value && IdMatchAt(s, r.value)
    ensures forall i :: from <= i && (r.None? || i < r.value) ==> !IdMatchAt(s, i)
    decreases |s| - from
  {
    if from >= |s| then None
    else if IdMatchAt(s, from) then Some(from)
    else FirstIdMatch(s, from + 1)
  }

  /** The id a check names, or None when no quoted id can be extracted: the group of the
      leftmost match. */
  function ExtractId(check: string): (r: Option<string>)
    ensures r.Some? ==> |r.value| > 0 && forall k :: 0 <= k < |r.value| ==> !IsQuote(r.value[k])
    ensures r.None? <==> forall i :: !IdMatchAt(check, i)
    ensures r.Some? ==> exists i: nat :: IdMatchAt(check, i) && (forall j :: 0 <= j < i ==> !IdMatchAt(check, j))
                                    && r.value == IdAt(check, i)
  {
    match FirstIdMatch(check, 0)
    case None => None
    case Some(i) => Some(IdAt(check, i))
  }

  /** A check whose only `=` is the one of a quoted id names exactly that id. */
  lemma IdAfterPlainText(prefix: string, id: string, q: char)
    requires '=' !in prefix && IsQuote(q)
    requires |id| > 0 && forall k :: 0 <= k < |id| ==> !IsQuote(id[k])
    ensures ExtractId(prefix + "id=" + [q] + id + [q]) == Some(id)
  {
    var s := prefix + "id=" + [q] + id + [q];
    var n := |prefix|;
    assert s[n + 2] == '=';
    forall j | 0 <= j < n ensures !IdMatchAt(s, j) {
      if j + 2 < n {
        assert s[j + 2] == prefix[j + 2];
      }
      assert s[j..j + 3][2] == s[j + 2];
    }
    var e := QuoteFreeEnd(s, n + 4);
    assert s[n + 3] == q;
    assert forall k :: n + 4 <= k < n + 4 + |id| ==> s[k] == id[k - n - 4];
    assert s[n + 4 + |id|] == q;
    assert e == n + 4 + |id|;
    assert s[n..n + 3] == "id=";
    assert IdMatchAt(s, n);
    assert s[n + 4..e] == id;
  }

  /** The element-id check of the validator's own example names the id `result`. */
  lemma ExtractIdExample()
    ensures ExtractId("Page has element with id='result'") == Some("result")
  {
    assert "Page has element with id='result'" == "Page has element with " + "id=" + ['\''] + "result" + ['\''];
    IdAfterPlainText("Page has element with ", "result", '\'');
  }

  // ---------------------------------------------------------------------------
  // An `id` attribute with a given value, case-insensitive, spaces allowed around `=`
  // ---------------------------------------------------------------------------

  /** An `id` attribute whose quoted value equals `id` (ignoring case) starts at `i`. */
  predicate IdAttrAt(html: string, i: nat, id: string) {
    i + 2 <= |html| && LowerChar(html[i]) == 'i' && LowerChar(html[i + 1]) == 'd' &&
    var j := SpaceRunEnd(html, i + 2);
    j < |html| && html[j] == '=' &&
    var k := SpaceRunEnd(html, j + 1);
    k < |html| && IsQuote(html[k]) &&
    k + 1 + |id| < |html| && Lower(html[k + 1..k + 1 + |id|]) == Lower(id) && IsQuote(html[k + 1 + |id|])
  }

  /** Some `id` attribute carries the value `id`, ignoring case: then the lowered page holds
      the lowered id, and a page holding `id="<id>"` verbatim has one. */
  predicate HasIdAttr(html: string, id: string)
    ensures HasIdAttr(html, id) ==> Contains(Lower(html), Lower(id))
    ensures Contains(html, "id=\"" + id + "\"") ==> HasIdAttr(html, id)
  {
    IdAttrFacts(html, id);
    exists i | 0 <= i < |html| :: IdAttrAt(html, i, id)
  }

  lemma IdAttrFacts(html: string, id: string)
    ensures forall i :: 0 <= i < |html| && IdAttrAt(html, i, id) ==> Contains(Lower(html), Lower(id))
    ensures Contains(html, "id=\"" + id + "\"") ==> exists i | 0 <= i < |html| :: IdAttrAt(html, i, id)
  {
    forall i | 0 <= i < |html| && IdAttrAt(html, i, id) ensures Contains(Lower(html), Lower(id)) {
      IdAttrValueLowered(html, i, id);
    }
    if Contains(html, "id=\"" + id + "\"") {
      var pat := "id=\"" + id + "\"";
      var i :| 0 <= i <= |html| - |pat| && PrefixAt(html, i, pat);
      VerbatimIdAttr(html, id, i);
    }
  }

  lemma IdAttrValueLowered(html: string, i: nat, id: string)
    requires IdAttrAt(html, i, id)
    ensures Contains(Lower(html), Lower(id))
  {
    var k := SpaceRunEnd(html, SpaceRunEnd(html, i + 2) + 1);
    LowerSlice(html, k + 1, k + 1 + |id|);
    assert PrefixAt(Lower(html), k + 1, Lower(id));
  }

  lemma VerbatimIdAttr(html: string, id: string, i: nat)
    requires PrefixAt(html, i, "id=\"" + id + "\"")
    ensures IdAttrAt(html, i, id)
  {
    var pat := "id=\"" + id + "\"";
    var w := html[i..i + |pat|];
    assert w == pat;
    assert pat[..4] == "id=\"" && pat[4..4 + |id|] == id && pat[4 + |id|] == '"';
    assert html[i..i + 4] == "id=\"";
    assert html[i] == 'i' && html[i + 1] == 'd' && html[i + 2] == '=' && html[i + 3] == '"';
    assert SpaceRunEnd(html, i + 2) == i + 2;
    assert SpaceRunEnd(html, i + 3) == i + 3;
    assert forall t :: 0 <= t < |id| ==> html[i + 4..i + 4 + |id|][t] == w[4 + t] == id[t];
    assert html[i + 4..i + 4 + |id|] == id;
  }

  /** The attribute test ignores case and allows spaces around `=`. */
  lemma IdAttrExample()
    ensures HasIdAttr("<p ID = 'Result'>", "result")
  {
    var h := "<p ID = 'Result'>";
    assert SpaceRunEnd(h, 5) == 6;
    assert SpaceRunEnd(h, 7) == 8;
    assert h[9..15] == "Result";
    assert Lower("Result") == "result";
    assert IdAttrAt(h, 3, "result");
  }

  // ---------------------------------------------------------------------------
  // Function definitions: `function name(` and `const name = (`, each at a word boundary
  // ---------------------------------------------------------------------------

  /** A word boundary just before the word character at `i`. */
  predicate BoundaryBefore(s: string, i: nat) {
    i == 0 || (0 < i <= |s| && !IsWordChar(s[i - 1]))
  }

  predicate FunctionDefAt(s: string, i: nat) {
    BoundaryBefore(s, i) && PrefixAt(s, i, "function") &&
    var j := SpaceRunEnd(s, i + 8);
    j > i + 8 &&
    var k := WordRunEnd(s, j);
    k > j &&
    var m := SpaceRunEnd(s, k);
    m < |s| && s[m] == '('
  }

  predicate ConstArrowAt(s: string, i: nat) {
    BoundaryBefore(s, i) && PrefixAt(s, i, "const") &&
    var j := SpaceRunEnd(s, i + 5);
    j > i + 5 &&
    var k := WordRunEnd(s, j);
    k > j &&
    var m := SpaceRunEnd(s, k);
    m < |s| && s[m] == '=' &&
    var n := SpaceRunEnd(s, m + 1);
    n < |s| && s[n] == '('
  }

  predicate HasFunctionDef(s: string)
    ensures HasFunctionDef(s) ==> Contains(s, "function")
  {
    exists i | 0 <= i < |s| :: FunctionDefAt(s, i)
  }

  predicate HasConstArrow(s: string)
    ensures HasConstArrow(s) ==> Contains(s, "const")
  {
    exists i | 0 <= i < |s| :: ConstArrowAt(s, i)
  }

  /** A named function and a `const` bound to a parenthesised expression are recognised; an
      anonymous `function(` is not a definition. */
  lemma FunctionPatternExamples()
    ensures HasFunctionDef("function add(a, b)")
    ensures HasConstArrow("const add = (a, b)")
    ensures !HasFunctionDef("function(a)")
  {
    var f := "function add(a, b)";
    assert f[..8] == "function";
    assert SpaceRunEnd(f, 8) == 9;
    assert WordRunEnd(f, 9) == 12;
    assert SpaceRunEnd(f, 12) == 12;
    assert FunctionDefAt(f, 0);
    var c := "const add = (a, b)";
    assert c[..5] == "const";
    assert SpaceRunEnd(c, 5) == 6;
    assert WordRunEnd(c, 6) == 9;
    assert SpaceRunEnd(c, 9) == 10;
    assert SpaceRunEnd(c, 11) == 12;
    assert ConstArrowAt(c, 0);
    var a := "function(a)";
    forall i | 0 <= i < |a| ensures !FunctionDefAt(a, i) {
      if i == 0 {
        assert SpaceRunEnd(a, 8) == 8;
      } else if i + 8 <= |a| {
        assert a[i..i + 8][0] == a[i];
      }
    }
  }

  // ---------------------------------------------------------------------------
  // Words of four or more ASCII letters, bounded on both sides
  // ---------------------------------------------------------------------------

  predicate AllAsciiLetters(w: string) {
    forall k :: 0 <= k < |w| ==> IsAsciiLetter(w[k])
  }

  /** A match starts at `p`: a boundary, then four or more ASCII letters, then a boundary.
      Between two boundaries lies a whole run of word characters, so the match is that run. */
  predicate WordMatchAt(s: string, p: nat) {
    p < |s| && BoundaryBefore(s, p) && IsWordChar(s[p]) &&
    var e := WordRunEnd(s, p); e - p >= 4 && AllAsciiLetters(s[p..e])
  }

  /** The text of the run of word characters starting at `p`. */
  function WordAt(s: string, p: nat): string
    requires p <= |s|
  {
    s[p..WordRunEnd(s, p)]
  }

  /** The leftmost match at or after `from`. */
  function FirstWordMatch(s: string, from: nat): (r: Option<nat>)
    ensures r.Some? ==> from <= r.value && WordMatchAt(s, r.value)
    ensures forall p :: from <= p && (r.None? || p < r.value) ==> !WordMatchAt(s, p)
    decreases |s| - from
  {
    if from >= |s| then None
    else if WordMatchAt(s, from) then Some(from)
    else FirstWordMatch(s, from + 1)
  }

  /** Index `i` is not strictly inside a run of word characters. */
  predicate OutsideRun(s: string, i: nat) {
    i == 0 || i >= |s| || !IsWordChar(s[i - 1]) || !IsWordChar(s[i])
  }

  /** The matches from `i` on.  A match must fill a whole maximal run of word characters
      (both ends are boundaries), so the scan moves from run to run. */
  function WordsFrom(s: string, i: nat): (r: seq<string>)
    requires i <= |s|
    ensures forall k :: 0 <= k < |r| ==> |r[k]| >= 4 && AllAsciiLetters(r[k]) && Contains(s, r[k])
    decreases |s| - i
  {
    if i == |s| then []
    else if !IsWordChar(s[i]) then WordsFrom(s, i + 1)
    else
      var j := WordRunEnd(s, i);
      var rest := WordsFrom(s, j);
      if j - i >= 4 && AllAsciiLetters(s[i..j]) then
        assert PrefixAt(s, i, s[i..j]);
        [s[i..j]] + rest
      else rest
  }

  /** The run-by-run scan lists the leftmost match first and resumes at that match's end,
      which is how `re.findall` proceeds. */
  lemma {:induction false} WordsFromFirstMatch(s: string, i: nat)
    requires i <= |s| && OutsideRun(s, i)
    ensures FirstWordMatch(s, i).None? ==> WordsFrom(s, i) == []
    ensures FirstWordMatch(s, i).Some? ==>
              var p := FirstWordMatch(s, i).value;
              WordsFrom(s, i) == [WordAt(s, p)] + WordsFrom(s, WordRunEnd(s, p))
    decreases |s| - i
  {
    if i < |s| {
      if !IsWordChar(s[i]) {
        assert !WordMatchAt(s, i);
        WordsFromFirstMatch(s, i + 1);
      } else {
        var j := WordRunEnd(s, i);
        if !(j - i >= 4 && AllAsciiLetters(s[i..j])) {
          forall p | i <= p < j ensures !WordMatchAt(s, p) {
            if p > i {
              assert IsWordChar(s[p - 1]);
            }
          }
          FirstWordMatchSkip(s, i, j);
          WordsFromFirstMatch(s, j);
        }
      }
    }
  }

  /** With no match in `[i, j)`, the search from `i` finds what the search from `j` finds. */
  lemma {:induction false} FirstWordMatchSkip(s: string, i: nat, j: nat)
    requires i <= j
    requires forall p :: i <= p < j ==> !WordMatchAt(s, p)
    ensures FirstWordMatch(s, i) == FirstWordMatch(s, j)
    decreases j - i
  {
    if i < j {
      FirstWordMatchSkip(s, i + 1, j);
    }
  }

  /** Every match from `i` on is listed. */
  lemma {:induction false} WordsFromComplete(s: string, i: nat, p: nat)
    requires i <= p && i <= |s| && OutsideRun(s, i) && WordMatchAt(s, p)
    ensures WordAt(s, p) in WordsFrom(s, i)
    decreases |s| - i
  {
    WordsFromFirstMatch(s, i);
    var q := FirstWordMatch(s, i).value;
    if q != p {
      var e := WordRunEnd(s, q);
      assert p >= e;
      WordsFromComplete(s, e, p);
    }
  }

  // ---------------------------------------------------------------------------
  // Fenced code blocks: the shortest body between an opener and the next closing fence
  // ---------------------------------------------------------------------------

  /** The text between the first `opener` and the first "```" after it.  A later opener
      cannot succeed where the first one found no closing fence, so this is the leftmost match. */
  function FencedBlock(text: string, opener: string): (r: Option<string>)
    ensures r.Some? ==> Contains(text, opener + r.value + "```")
    ensures r.Some? ==> !Contains(r.value, "```")
    ensures r.Some? ==> (FindFrom(text, opener, 0).Some? &&
              var i := FindFrom(text, opener, 0).value;
              PrefixAt(text, i, opener + r.value + "```") &&
              forall k :: i + |opener| <= k < i + |opener| + |r.value| ==> !PrefixAt(text, k, "```"))
    ensures r.None? && Contains(text, opener) ==> !Contains(text[FindFrom(text, opener, 0).value + |opener|..], "```")
  {
    FindFromContains(text, opener);
    match FindFrom(text, opener, 0)
    case None => None
    case Some(i) =>
      var r := BlockAt(text, i, opener);
      if r.Some? then
        assert PrefixAt(text, i, opener + r.value + "```");
        r
      else r
  }

  /** The lazy body of a block whose opener sits at `i`. */
  function BlockAt(text: string, i: nat, opener: string): (r: Option<string>)
    requires PrefixAt(text, i, opener)
    ensures r.Some? ==> PrefixAt(text, i, opener + r.value + "```") && !Contains(r.value, "```")
    ensures r.Some? ==> forall k :: i + |opener| <= k < i + |opener| + |r.value| ==> !PrefixAt(text, k, "```")
    ensures r.None? ==> !Contains(text[i + |opener|..], "```")
  {
    match FindFrom(text, "```", i + |opener|)
    case None =>
      NoFenceAfter(text, i, |opener|);
      None
    case Some(j) =>
      var body := text[i + |opener|..j];
      SliceConcat3(text, i, i + |opener|, j, j + 3);
      NoFenceInside(text, i + |opener|, j);
      Some(body)
  }

  lemma SliceConcat3(s: string, a: nat, b: nat, c: nat, d: nat)
    requires a <= b <= c <= d <= |s|
    ensures s[a..d] == s[a..b] + s[b..c] + s[c..d]
  {
  }

  /** No fence starts strictly inside the lazily matched body. */
  lemma NoFenceInside(text: string, a: nat, j: nat)
    requires a <= j <= |text|
    requires forall i :: a <= i < j ==> !PrefixAt(text, i, "```")
    ensures !Contains(text[a..j], "```")
  {
    var body := text[a..j];
    forall i | 0 <= i <= |body| - 3 ensures !PrefixAt(body, i, "```") {
      assert !PrefixAt(text, a + i, "```");
      SliceOfSlice(text, a, j, i, i + 3);
    }
  }

  /** With no fence after the opener's end, none occurs from the opener on (an opener of a
      fenced block starts with a fence only when it is itself one). */
  lemma NoFenceAfter(text: string, i: nat, n: nat)
    requires i + n <= |text|
    requires forall k :: i + n <= k ==> !PrefixAt(text, k, "```")
    ensures !Contains(text[i + n..], "```")
  {
    var t := text[i + n..];
    forall k | 0 <= k <= |t| - 3 ensures !PrefixAt(t, k, "```") {
      assert !PrefixAt(text, i + n + k, "```");
      assert t == text[i + n..|text|];
      SliceOfSlice(text, i + n, |text|, k, k + 3);
    }
  }

  /** Like `FencedBlock` for the alternation "```javascript\n" | "```js\n": the leftmost
      opener of either kind, then the first fence after it. */
  function FencedBlockEither(text: string, opener1: string, opener2: string): (r: Option<string>)
    ensures r.Some? ==> Contains(text, opener1 + r.value + "```") || Contains(text, opener2 + r.value + "```")
    ensures FindFrom(text, opener1, 0).None? && FindFrom(text, opener2, 0).None? ==> r.None?
    ensures FindFrom(text, opener1, 0).Some? &&
            (FindFrom(text, opener2, 0).None? || FindFrom(text, opener1, 0).value <= FindFrom(text, opener2, 0).value)
            ==> r == FencedBlock(text, opener1)
    ensures FindFrom(text, opener2, 0).Some? &&
            (FindFrom(text, opener1, 0).None? || FindFrom(text, opener2, 0).value < FindFrom(text, opener1, 0).value)
            ==> r == FencedBlock(text, opener2)
  {
    match (FindFrom(text, opener1, 0), FindFrom(text, opener2, 0))
    case (None, None) => None
    case (Some(_), None) => FencedBlock(text, opener1)
    case (None, Some(_)) => FencedBlock(text, opener2)
    case (Some(i1), Some(i2)) => if i1 <= i2 then FencedBlock(text, opener1) else FencedBlock(text, opener2)
  }

  /** The first doctype-to-`</html>` span of the text, case-insensitive and shortest. */
  function DoctypeSpan(text: string): (r: Option<string>)
    ensures r.Some? ==> Contains(text, r.value)
    ensures r.Some? ==> StartsWith(Lower(r.value), "<!doctype html>") && EndsWith(Lower(r.value), "</html>")
    ensures r.Some? <==> exists i: nat, j: nat :: i + 15 <= j && PrefixAt(Lower(text), i, "<!doctype html>")
                                                && PrefixAt(Lower(text), j, "</html>")
    ensures r.Some? ==> (FindFrom(Lower(text), "<!doctype html>", 0).Some? &&
              var i := FindFrom(Lower(text), "<!doctype html>", 0).value;
              PrefixAt(text, i, r.value) &&
              forall k :: i + 15 <= k < i + |r.value| - 7 ==> !PrefixAt(Lower(text), k, "</html>"))
  {
    var low := Lower(text);
    match FindFrom(low, "<!doctype html>", 0)
    case None => None
    case Some(i) =>
      match FindFrom(low, "</html>", i + 15)
      case None => None
      case Some(j) =>
        LoweredSpan(text, i, j, "<!doctype html>", "</html>");
        assert PrefixAt(text, i, text[i..j + 7]);
        Some(text[i..j + 7])
  }

  /** A span found by searching the lower-cased text, cut from the original text. */
  lemma LoweredSpan(text: string, i: nat, j: nat, open: string, close: string)
    requires PrefixAt(Lower(text), i, open) && PrefixAt(Lower(text), j, close) && i + |open| <= j
    ensures Contains(text, text[i..j + |close|])
    ensures StartsWith(Lower(text[i..j + |close|]), open)
    ensures EndsWith(Lower(text[i..j + |close|]), close)
  {
    assert PrefixAt(text, i, text[i..j + |close|]);
    LowerSlice(text, i, j + |close|);
    SpanEnds(Lower(text), i, j, open, close);
  }
}
