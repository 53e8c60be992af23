/** String operations of the Python runtime that the core relies on, restated over `seq<char>`. */
module Strings {
  import opened Wrappers

  // ---------------------------------------------------------------------------
  // Character classes
  // ---------------------------------------------------------------------------

  /** Python's `str.isspace()`: the set `str.strip()` removes and regex `\s` matches. */
  predicate IsSpace(c: char) {
    c == ' ' || ('\t' <= c <= '\r') || ('\U{1c}' <= c <= '\U{1f}') || c == '\U{85}' || c == '\U{a0}'
    || c == '\U{1680}' || ('\U{2000}' <= c <= '\U{200a}') || c == '\U{2028}' || c == '\U{2029}'
    || c == '\U{202f}' || c == '\U{205f}' || c == '\U{3000}'
  }

  predicate IsAsciiLetter(c: char) {
    ('a' <= c <= 'z') || ('A' <= c <= 'Z')
  }

  /** Regex `\w`, restricted to ASCII. */
  predicate IsWordChar(c: char) {
    IsAsciiLetter(c) || ('0' <= c <= '9') || c == '_'
  }

  /** `str.lower()` on one character, restricted to ASCII letters. */
  function LowerChar(c: char): (r: char)
    ensures 'A' <= c <= 'Z' ==> r != c && 'a' <= r <= 'z'
    ensures !('A' <= c <= 'Z') ==> r == c
  {
    if 'A' <= c <= 'Z' then (c as int + 32) as char else c
  }

  function Lower(s: string): (r: string)
    ensures |r| == |s|
    ensures forall i :: 0 <= i < |s| ==> r[i] == LowerChar(s[i])
  {
    seq(|s|, i requires 0 <= i < |s| => LowerChar(s[i]))
  }

  lemma LowerAppend(a: string, b: string)
    ensures Lower(a + b) == Lower(a) + Lower(b)
  {
  }

  lemma LowerSlice(s: string, i: nat, j: nat)
    requires i <= j <= |s|
    ensures Lower(s[i..j]) == Lower(s)[i..j]
  {
  }

  // ---------------------------------------------------------------------------
  // Substring search
  // ---------------------------------------------------------------------------

  /** `pat` occurs in `s` starting at index `i`. */
  predicate PrefixAt(s: string, i: int, pat: string) {
    0 <= i && i + |pat| <= |s| && s[i..i + |pat|] == pat
  }

  /** Python's `pat in s`. */
  predicate Contains(s: string, pat: string) {
    exists i | 0 <= i <= |s| - |pat| :: PrefixAt(s, i, pat)
  }

  predicate StartsWith(s: string, pat: string) {
    PrefixAt(s, 0, pat)
  }

  predicate EndsWith(s: string, pat: string) {
    PrefixAt(s, |s| - |pat|, pat)
  }

  /** The leftmost occurrence of `pat` in `s` at or after `from` (Python's `s.find(pat, from)`). */
  function FindFrom(s: string, pat: string, from: nat): (r: Option<nat>)
    ensures r.Some? ==> from <= r.value && PrefixAt(s, r.value, pat)
    ensures forall i :: from <= i && (r.None? || i < r.value) ==> !PrefixAt(s, i, pat)
    decreases |s| - from
  {
    if from + |pat| > |s| then None
    else if s[from..from + |pat|] == pat then Some(from)
    else FindFrom(s, pat, from + 1)
  }

  lemma FindFromContains(s: string, pat: string)
    ensures FindFrom(s, pat, 0).Some? <==> Contains(s, pat)
  {
    var r := FindFrom(s, pat, 0);
    if r.Some? {
      assert PrefixAt(s, r.value, pat);
    }
  }

  /** The index of the last `c` in `s`, or -1 (Python's `s.rfind(c)` for a one-character needle). */
  function RFindChar(s: string, c: char): (r: int)
    ensures -1 <= r < |s|
    ensures r >= 0 ==> s[r] == c
    ensures forall j :: r < j < |s| ==> s[j] != c
  {
    if |s| == 0 then -1
    else if s[|s| - 1] == c then |s| - 1
    else RFindChar(s[..|s| - 1], c)
  }

  /** An occurrence stays where it is when text is appended. */
  lemma PrefixAtAppend(s: string, t: string, i: nat, pat: string)
    requires PrefixAt(s, i, pat)
    ensures PrefixAt(s + t, i, pat)
  {
    assert (s + t)[i..i + |pat|] == s[i..i + |pat|];
  }

  /** The second part of a concatenation occurs right after the first. */
  lemma PrefixAtJoint(s: string, t: string)
    ensures PrefixAt(s + t, |s|, t)
  {
    assert (s + t)[|s|..|s| + |t|] == t;
  }

  /** Python's `s.find(c)` for one character: the first index of `c`, or -1. */
  function FindChar(s: string, c: char): (r: int)
    ensures -1 <= r < |s|
    ensures r >= 0 ==> s[r] == c
    ensures forall j :: 0 <= j < |s| && (r < 0 || j < r) ==> s[j] != c
  {
    if |s| == 0 then -1
    else if s[0] == c then 0
    else
      var k := FindChar(s[1..], c);
      if k < 0 then -1 else k + 1
  }

  /** A one-character pattern occurs exactly where that character is. */
  lemma PrefixAtChar(s: string, c: char)
    ensures forall i :: 0 <= i < |s| ==> (PrefixAt(s, i, [c]) <==> s[i] == c)
  {
    forall i | 0 <= i < |s| ensures PrefixAt(s, i, [c]) <==> s[i] == c {
      assert s[i..i + 1] == [s[i]];
    }
  }

  /** The span from an occurrence of `open` to the end of a later occurrence of `close`
      starts with `open` and ends with `close`. */
  lemma SpanEnds(s: string, i: nat, j: nat, open: string, close: string)
    requires PrefixAt(s, i, open) && PrefixAt(s, j, close) && i + |open| <= j
    ensures StartsWith(s[i..j + |close|], open) && EndsWith(s[i..j + |close|], close)
  {
    var span := s[i..j + |close|];
    assert span[..|open|] == s[i..i + |open|];
    assert span[|span| - |close|..] == s[j..j + |close|];
  }

  /** An occurrence found in a slice of `s` is an occurrence in `s`. */
  lemma ContainsInSlice(s: string, a: nat, b: nat, pat: string)
    requires a <= b <= |s|
    requires Contains(s[a..b], pat)
    ensures Contains(s, pat)
  {
    var t := s[a..b];
    var i :| 0 <= i <= |t| - |pat| && PrefixAt(t, i, pat);
    forall k | 0 <= k < |pat| ensures s[a + i + k] == pat[k] {
      assert t[i..i + |pat|][k] == pat[k];
    }
    assert s[a + i..a + i + |pat|] == pat;
    assert PrefixAt(s, a + i, pat);
  }

  /** A text is at least as long as anything it contains. */
  lemma ContainsLength(s: string, pat: string)
    requires Contains(s, pat)
    ensures |pat| <= |s|
  {
  }

  /** Containment is transitive. */
  lemma ContainsTrans(s: string, t: string, pat: string)
    requires Contains(s, t) && Contains(t, pat)
    ensures Contains(s, pat)
  {
    var i :| 0 <= i <= |s| - |t| && PrefixAt(s, i, t);
    assert t == s[i..i + |t|];
    ContainsInSlice(s, i, i + |t|, pat);
  }

  // ---------------------------------------------------------------------------
  // str.strip()
  // ---------------------------------------------------------------------------

  function TrimStart(s: string): (r: string)
    ensures |r| <= |s| && r == s[|s| - |r|..]
    ensures r != [] ==> !IsSpace(r[0])
    ensures forall i :: 0 <= i < |s| - |r| ==> IsSpace(s[i])
  {
    if |s| > 0 && IsSpace(s[0]) then TrimStart(s[1..]) else s
  }

  function TrimEnd(s: string): (r: string)
    ensures |r| <= |s| && r == s[..|r|]
    ensures r != [] ==> !IsSpace(r[|r| - 1])
    ensures forall i :: |r| <= i < |s| ==> IsSpace(s[i])
  {
    if |s| > 0 && IsSpace(s[|s| - 1]) then TrimEnd(s[..|s| - 1]) else s
  }

  /** Python's `s.strip()`. */
  function Strip(s: string): string {
    TrimEnd(TrimStart(s))
  }

  /** `s.strip()` is empty exactly when every character of `s` is whitespace. */
  lemma StripEmptyIffBlank(s: string)
    ensures Strip(s) == [] <==> forall i :: 0 <= i < |s| ==> IsSpace(s[i])
  {
    var t := TrimStart(s);
    if Strip(s) == [] {
      forall i | 0 <= i < |s| ensures IsSpace(s[i]) {
        if i >= |s| - |t| {
          assert s[i] == t[i - (|s| - |t|)];
        }
      }
    } else if t == [] {
    } else {
      assert !IsSpace(t[0]);
      assert t[0] == s[|s| - |t|];
    }
  }

  /** What `strip` returns is a piece of its argument. */
  lemma StripIsInfix(s: string)
    ensures Contains(s, Strip(s))
  {
    var t := TrimStart(s);
    var u := TrimEnd(t);
    var k := |s| - |t|;
    assert PrefixAt(s, k, u) by {
      assert t == s[k..|s|];
      SliceOfSlice(s, k, |s|, 0, |u|);
      assert u == t[0..|u|];
    }
  }

  /** A slice of a slice is a slice of the whole. */
  lemma SliceOfSlice(s: string, a: nat, b: nat, i: nat, j: nat)
    requires a <= b <= |s| && i <= j <= b - a
    ensures s[a..b][i..j] == s[a + i..a + j]
  {
    assert forall k :: 0 <= k < j - i ==> s[a..b][i..j][k] == s[a + i..a + j][k];
  }

  // ---------------------------------------------------------------------------
  // str.replace(pat, rep)
  // ---------------------------------------------------------------------------

  /** Python's `s.replace(pat, rep)`: non-overlapping occurrences, scanned from the left. */
  function ReplaceAll(s: string, pat: string, rep: string): string
    requires |pat| > 0
    decreases |s|
  {
    if |s| < |pat| then s
    else if s[..|pat|] == pat then rep + ReplaceAll(s[|pat|..], pat, rep)
    else [s[0]] + ReplaceAll(s[1..], pat, rep)
  }

  /** Replacing one character by another keeps every position: `a` becomes `b` and every
      other character stays where it was. */
  lemma {:induction false} ReplaceCharPointwise(s: string, a: char, b: char)
    ensures |ReplaceAll(s, [a], [b])| == |s|
    ensures forall k :: 0 <= k < |s| ==> ReplaceAll(s, [a], [b])[k] == (if s[k] == a then b else s[k])
    decreases |s|
  {
    if |s| > 0 {
      ReplaceCharPointwise(s[1..], a, b);
      assert s[..1] == [s[0]];
    }
  }

  /** The two-character sequence `b x` occurs somewhere in `s`. */
  predicate HasPair(s: string, b: char, x: char) {
    exists i | 0 <= i < |s| - 1 :: s[i] == b && s[i + 1] == x
  }

  lemma HasPairContains(s: string, b: char, x: char)
    ensures HasPair(s, b, x) <==> Contains(s, [b, x])
  {
    if HasPair(s, b, x) {
      var i :| 0 <= i < |s| - 1 && s[i] == b && s[i + 1] == x;
      assert PrefixAt(s, i, [b, x]);
    }
    if Contains(s, [b, x]) {
      var i :| 0 <= i <= |s| - 2 && PrefixAt(s, i, [b, x]);
      assert s[i..i + 2] == [b, x];
      assert s[i] == b && s[i + 1] == x;
    }
  }

  /** Replacing a two-character pattern by one character yields a string that starts with that
      character or with the original first character. */
  lemma ReplacePairHead(s: string, b: char, y: char, c: char)
    requires ReplaceAll(s, [b, y], [c]) != []
    ensures ReplaceAll(s, [b, y], [c])[0] in {c, s[0]}
  {
  }

  /** Replacing `b y` by a character `c` that is neither `b` nor `x` never creates the pair `b x`. */
  lemma {:induction false} ReplaceKeepsPairAbsent(s: string, b: char, x: char, y: char, c: char)
    requires c != b && c != x
    requires !HasPair(s, b, x)
    ensures !HasPair(ReplaceAll(s, [b, y], [c]), b, x)
    decreases |s|
  {
    if |s| >= 2 {
      var n := if s[..2] == [b, y] then 2 else 1;
      var rest := s[n..];
      forall i | 0 <= i < |rest| - 1 ensures !(rest[i] == b && rest[i + 1] == x) {
        assert rest[i] == s[i + n] && rest[i + 1] == s[i + n + 1];
      }
      ReplaceKeepsPairAbsent(rest, b, x, y, c);
      var tail := ReplaceAll(rest, [b, y], [c]);
      var r := ReplaceAll(s, [b, y], [c]);
      assert r == [if n == 2 then c else s[0]] + tail;
      forall i | 0 <= i < |r| - 1 ensures !(r[i] == b && r[i + 1] == x) {
        if i == 0 {
          if n == 1 {
            ReplacePairHead(rest, b, y, c);
            assert r[1] == tail[0];
          }
        } else {
          assert r[i] == tail[i - 1] && r[i + 1] == tail[i];
        }
      }
    }
  }

  /** After `s.replace(b + x, c)`, with `c` neither `b` nor `x`, the pair `b x` is gone. */
  lemma {:induction false} ReplaceRemovesPair(s: string, b: char, x: char, c: char)
    requires c != b && c != x
    ensures !HasPair(ReplaceAll(s, [b, x], [c]), b, x)
    decreases |s|
  {
    if |s| >= 2 {
      var n := if s[..2] == [b, x] then 2 else 1;
      var rest := s[n..];
      ReplaceRemovesPair(rest, b, x, c);
      var tail := ReplaceAll(rest, [b, x], [c]);
      var r := ReplaceAll(s, [b, x], [c]);
      assert r == [if n == 2 then c else s[0]] + tail;
      assert s[..2] == [s[0], s[1]];
      forall i | 0 <= i < |r| - 1 ensures !(r[i] == b && r[i + 1] == x) {
        if i == 0 {
          if n == 1 {
            ReplacePairHead(rest, b, x, c);
            assert r[1] == tail[0];
          }
        } else {
          assert r[i] == tail[i - 1] && r[i + 1] == tail[i];
        }
      }
    }
  }

  // ---------------------------------------------------------------------------
  // str.split(sep) and sep.join(lines), for a one-character separator
  // ---------------------------------------------------------------------------

  /** Python's `s.split(sep)`: always at least one piece, none containing `sep`. */
  function Split(s: string, sep: char): (r: seq<string>)
    ensures |r| >= 1
    ensures forall k :: 0 <= k < |r| ==> sep !in r[k]
    decreases |s|
  {
    if |s| == 0 then [""]
    else
      var rest := Split(s[1..], sep);
      if s[0] == sep then [""] + rest else [[s[0]] + rest[0]] + rest[1..]
  }

  /** Python's `sep.join(lines)`. */
  function Join(lines: seq<string>, sep: char): string {
    if |lines| == 0 then ""
    else if |lines| == 1 then lines[0]
    else lines[0] + [sep] + Join(lines[1..], sep)
  }

  /** Joining the pieces of a split gives back the original string. */
  lemma {:induction false} JoinSplit(s: string, sep: char)
    ensures Join(Split(s, sep), sep) == s
    decreases |s|
  {
    if |s| > 0 {
      var rest := Split(s[1..], sep);
      JoinSplit(s[1..], sep);
      if s[0] == sep {
        assert Split(s, sep) == [""] + rest;
        assert Join([""] + rest, sep) == "" + [sep] + Join(rest, sep);
        assert s == [s[0]] + s[1..];
      } else {
        var lines := [[s[0]] + rest[0]] + rest[1..];
        assert Split(s, sep) == lines;
        if |rest| == 1 {
          assert Join(lines, sep) == [s[0]] + rest[0];
          assert Join(rest, sep) == rest[0];
        } else {
          assert lines[1..] == rest[1..];
          assert Join(lines, sep) == [s[0]] + rest[0] + [sep] + Join(rest[1..], sep);
          assert Join(rest, sep) == rest[0] + [sep] + Join(rest[1..], sep);
        }
        assert s == [s[0]] + s[1..];
      }
    }
  }

  /** A string without the separator splits into itself alone. */
  lemma {:induction false} SplitNoSep(s: string, sep: char)
    requires forall k :: 0 <= k < |s| ==> s[k] != sep
    ensures Split(s, sep) == [s]
    decreases |s|
  {
    if |s| > 0 {
      SplitNoSep(s[1..], sep);
      assert [s[0]] + s[1..] == s;
    }
  }

  /** Splitting at a separator in the middle: the pieces before it, then the pieces after. */
  lemma {:induction false} SplitAt(s: string, sep: char, l: nat)
    requires l < |s| && s[l] == sep
    ensures Split(s, sep) == Split(s[..l], sep) + Split(s[l + 1..], sep)
    decreases l
  {
    if l > 0 {
      SplitAt(s[1..], sep, l - 1);
      assert s[1..][..l - 1] == s[..l][1..];
      assert s[1..][l - 1 + 1..] == s[l + 1..];
      assert s[..l][0] == s[0];
    } else {
      assert s[..0] == "";
    }
  }

  /** Splitting at the first separator: the text before it, then the pieces after it. */
  lemma SplitFirst(s: string, sep: char, i: nat)
    requires i < |s| && s[i] == sep && forall j :: 0 <= j < i ==> s[j] != sep
    ensures Split(s, sep) == [s[..i]] + Split(s[i + 1..], sep)
  {
    SplitAt(s, sep, i);
    SplitNoSep(s[..i], sep);
  }

  /** Splitting at the last separator: the pieces before it, then the text after it. */
  lemma SplitLast(s: string, sep: char, l: nat)
    requires l < |s| && s[l] == sep && forall j :: l < j < |s| ==> s[j] != sep
    ensures Split(s, sep) == Split(s[..l], sep) + [s[l + 1..]]
  {
    SplitAt(s, sep, l);
    SplitNoSep(s[l + 1..], sep);
  }

  /** The pieces of a split around its separators at `i` and `l`, the first and the last:
      the last piece follows `l`, the pieces after the first join to what follows `i`, and
      those strictly between the first and the last join to the text between `i` and `l`. */
  lemma SplitAround(s: string, sep: char, i: nat, l: nat)
    requires i <= l < |s| && s[i] == sep && s[l] == sep
    requires forall j :: 0 <= j < |s| && (j < i || l < j) ==> s[j] != sep
    ensures |Split(s, sep)| >= 2
    ensures Split(s, sep)[|Split(s, sep)| - 1] == s[l + 1..]
    ensures Join(Split(s, sep)[1..], sep) == s[i + 1..]
    ensures Join(Split(s, sep)[1..|Split(s, sep)| - 1], sep) == (if i == l then "" else s[i + 1..l])
  {
    var lines := Split(s, sep);
    var after := s[i + 1..];
    SplitFirst(s, sep, i);
    assert lines[1..] == Split(after, sep);
    JoinSplit(after, sep);
    if i == l {
      assert forall j :: 0 <= j < |after| ==> after[j] == s[i + 1 + j];
      SplitNoSep(after, sep);
    } else {
      var m := l - i - 1;
      assert forall j :: m < j < |after| ==> after[j] == s[i + 1 + j];
      SplitLast(after, sep, m);
      assert after[..m] == s[i + 1..l];
      assert after[m + 1..] == s[l + 1..];
      JoinSplit(s[i + 1..l], sep);
      assert lines[1..|lines| - 1] == Split(s[i + 1..l], sep);
    }
  }

  /** Joining a concatenation puts one separator between the two joins. */
  lemma {:induction false} JoinAppend(x: seq<string>, y: seq<string>, sep: char)
    requires |x| > 0 && |y| > 0
    ensures Join(x + y, sep) == Join(x, sep) + [sep] + Join(y, sep)
    decreases |x|
  {
    if |x| == 1 {
      assert (x + y)[1..] == y;
    } else {
      assert (x + y)[1..] == x[1..] + y;
      JoinAppend(x[1..], y, sep);
    }
  }

  /** The first three lines of a joined text, each followed by the separator. */
  lemma JoinFirstThree(lines: seq<string>, sep: char)
    requires |lines| >= 4
    ensures Join(lines, sep) == lines[0] + [sep] + lines[1] + [sep] + lines[2] + [sep] + Join(lines[3..], sep)
  {
    JoinHeadLine(lines, sep);
    JoinHeadLine(lines[1..], sep);
    assert lines[1..][1..] == lines[2..];
    JoinHeadLine(lines[2..], sep);
    assert lines[2..][1..] == lines[3..];
  }

  /** A joined text of two or more lines is its first line, a separator and the rest. */
  lemma JoinHeadLine(lines: seq<string>, sep: char)
    requires |lines| >= 2
    ensures Join(lines, sep) == lines[0] + [sep] + Join(lines[1..], sep)
  {
  }

  /** The join of a run of consecutive lines is a piece of the join of all lines. */
  lemma JoinRangeIsInfix(lines: seq<string>, a: nat, b: nat, sep: char)
    requires a <= b <= |lines|
    ensures Contains(Join(lines, sep), Join(lines[a..b], sep))
  {
    var mid := Join(lines[a..b], sep);
    var left: string := if a == 0 then "" else Join(lines[..a], sep) + [sep];
    var whole := Join(lines, sep);
    if a == b {
      assert PrefixAt(whole, 0, mid);
    } else {
      var j := Join(lines[a..], sep);
      assert whole == left + j by {
        if a > 0 {
          assert lines == lines[..a] + lines[a..];
          JoinAppend(lines[..a], lines[a..], sep);
        }
      }
      assert j[..|mid|] == mid by {
        if b < |lines| {
          assert lines[a..] == lines[a..b] + lines[b..];
          JoinAppend(lines[a..b], lines[b..], sep);
        } else {
          assert lines[a..] == lines[a..b];
        }
      }
      assert whole[|left|..|left| + |mid|] == mid;
      assert PrefixAt(whole, |left|, mid);
    }
  }

  // ---------------------------------------------------------------------------
  // Decimal rendering of a natural number (Python's `str(n)` / f-string `{n}`)
  // ---------------------------------------------------------------------------

  function DigitChar(d: nat): char
    requires d < 10
  {
    ('0' as int + d) as char
  }

  function NatToString(n: nat): string
    decreases n
  {
    if n < 10 then [DigitChar(n)] else NatToString(n / 10) + [DigitChar(n % 10)]
  }

  // ---------------------------------------------------------------------------
  // Python's string order (lexicographic by code point) and `sorted(set)`
  // ---------------------------------------------------------------------------

  predicate StrLe(a: string, b: string)
    decreases |a|
  {
    |a| == 0 || (|b| > 0 && (a[0] < b[0] || (a[0] == b[0] && StrLe(a[1..], b[1..]))))
  }

  lemma {:induction false} StrLeTotal(a: string, b: string)
    ensures StrLe(a, b) || StrLe(b, a)
    decreases |a|
  {
    if |a| > 0 && |b| > 0 && a[0] == b[0] {
      StrLeTotal(a[1..], b[1..]);
    }
  }

  lemma {:induction false} StrLeAntisym(a: string, b: string)
    requires StrLe(a, b) && StrLe(b, a)
    ensures a == b
    decreases |a|
  {
    if |a| > 0 {
      StrLeAntisym(a[1..], b[1..]);
      assert a == [a[0]] + a[1..] && b == [b[0]] + b[1..];
    }
  }

  lemma {:induction false} StrLeTrans(a: string, b: string, c: string)
    requires StrLe(a, b) && StrLe(b, c)
    ensures StrLe(a, c)
    decreases |a|
  {
    if |a| > 0 && a[0] == b[0] && b[0] == c[0] {
      StrLeTrans(a[1..], b[1..], c[1..]);
    }
  }

  predicate IsLeast(m: string, s: set<string>) {
    m in s && forall x :: x in s ==> StrLe(m, x)
  }

  /** Every non-empty finite set of strings has a least element. */
  lemma {:induction false} HasLeast(s: set<string>)
    requires s != {}
    ensures exists m :: IsLeast(m, s)
    decreases |s|
  {
    var y :| y in s;
    var rest := s - {y};
    if rest == {} {
      assert s == {y};
      StrLeTotal(y, y);
      assert IsLeast(y, s);
    } else {
      HasLeast(rest);
      var m :| IsLeast(m, rest);
      StrLeTotal(m, y);
      if StrLe(m, y) {
        assert IsLeast(m, s);
      } else {
        forall x | x in s ensures StrLe(y, x) {
          if x != y { StrLeTrans(y, m, x); } else { StrLeTotal(y, y); }
        }
        assert IsLeast(y, s);
      }
    }
  }

  lemma LeastUnique(s: set<string>)
    ensures forall m1, m2 :: IsLeast(m1, s) && IsLeast(m2, s) ==> m1 == m2
  {
    forall m1, m2 | IsLeast(m1, s) && IsLeast(m2, s) ensures m1 == m2 {
      StrLeAntisym(m1, m2);
    }
  }

  function Least(s: set<string>): (m: string)
    requires s != {}
    ensures IsLeast(m, s)
  {
    HasLeast(s);
    LeastUnique(s);
    var m :| IsLeast(m, s);
    m
  }

  /** Python's `sorted(names)`: the least name first, then the rest sorted. */
  function Sorted(s: set<string>): seq<string>
    decreases |s|
  {
    if s == {} then []
    else
      var m := Least(s);
      [m] + Sorted(s - {m})
  }

  /** `Sorted(s)` holds exactly the names of `s`, in ascending order. */
  lemma {:induction false} SortedSpec(s: set<string>)
    ensures forall i :: 0 <= i < |Sorted(s)| ==> Sorted(s)[i] in s
    ensures forall x :: x in s ==> x in Sorted(s)
    ensures forall i, j :: 0 <= i < j < |Sorted(s)| ==> StrLe(Sorted(s)[i], Sorted(s)[j])
    decreases |s|
  {
    if s != {} {
      var m := Least(s);
      SortedSpec(s - {m});
      SortedCons(m, Sorted(s - {m}), s);
    }
  }

  lemma SortedCons(m: string, rest: seq<string>, s: set<string>)
    requires IsLeast(m, s)
    requires forall i :: 0 <= i < |rest| ==> rest[i] in s - {m}
    requires forall x :: x in s - {m} ==> x in rest
    requires forall i, j :: 0 <= i < j < |rest| ==> StrLe(rest[i], rest[j])
    ensures forall i :: 0 <= i < |[m] + rest| ==> ([m] + rest)[i] in s
    ensures forall x :: x in s ==> x in [m] + rest
    ensures forall i, j :: 0 <= i < j < |[m] + rest| ==> StrLe(([m] + rest)[i], ([m] + rest)[j])
  {
    var r := [m] + rest;
    forall i, j | 0 <= i < j < |r| ensures StrLe(r[i], r[j]) {
      if i > 0 {
        assert r[i] == rest[i - 1] && r[j] == rest[j - 1];
      } else {
        assert r[j] == rest[j - 1];
        assert r[j] in s;
      }
    }
    forall x | x in s ensures x in r {
      if x != m {
        assert x in rest;
      }
    }
  }
}
