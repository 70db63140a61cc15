/** Shared vocabulary of the model: an optional value, and the handful of
    Python string operations (strip, split, join, splitext, ...) that the
    memory subsystem relies on, each written out with the semantics of
    CPython's `str` methods. */
module Base {

  datatype Option<+T> = None | Some(value: T)

  /** The outcome of an operation that can fail: a value or the error the
      operation raises or returns. */
  datatype Result<+T, +E> = Ok(value: T) | Err(error: E)

  /** Python's truthiness of an optional string: `None` and `""` are falsy. */
  predicate Truthy(o: Option<string>) {
    o.Some? && |o.value| > 0
  }

  /** The characters for which Python's `str.isspace()` holds; the same set
      that `str.strip()`, `str.split()` and the regex class `\s` use. */
  predicate IsSpace(c: char) {
    || c == ' ' || c == '\t' || c == '\n' || c == '\r'
    || c == '\U{0B}' || c == '\U{0C}'
    || ('\U{1C}' <= c <= '\U{1F}')
    || c == '\U{85}' || c == '\U{A0}' || c == '\U{1680}'
    || ('\U{2000}' <= c <= '\U{200A}')
    || c == '\U{2028}' || c == '\U{2029}' || c == '\U{202F}'
    || c == '\U{205F}' || c == '\U{3000}'
  }

  /** `not s.strip()`: the string is empty or all whitespace. */
  predicate IsBlank(s: string) {
    forall i :: 0 <= i < |s| ==> IsSpace(s[i])
  }

  /** An ASCII decimal digit. The regex class `\d` of the journal and
      marker patterns also admits the other Unicode decimal digits; the
      model reads it as this narrower class. */
  predicate IsDigit(c: char) {
    '0' <= c <= '9'
  }

  /** Text with no line break of either kind, which reads back as one
      line. */
  predicate OneLine(s: string) {
    '\n' !in s && '\r' !in s
  }

  /** A slice of one-line text is one line. */
  lemma OneLineSlice(s: string, i: nat, j: nat)
    requires i <= j <= |s|
    ensures OneLine(s) ==> OneLine(s[i..j])
  {
    assert forall k :: 0 <= k < j - i ==> s[i..j][k] == s[i + k];
  }

  predicate StartsWith(s: string, prefix: string) {
    |prefix| <= |s| && s[..|prefix|] == prefix
  }

  predicate EndsWith(s: string, suffix: string) {
    |suffix| <= |s| && s[|s| - |suffix|..] == suffix
  }

  /** The index of the first non-whitespace character of `s` at or after
      `i`, or `|s|`. */
  function Indent(s: string, i: nat): (j: nat)
    requires i <= |s|
    ensures i <= j <= |s|
    ensures forall k :: i <= k < j ==> IsSpace(s[k])
    ensures j < |s| ==> !IsSpace(s[j])
    decreases |s| - i
  {
    if i == |s| || !IsSpace(s[i]) then i else Indent(s, i + 1)
  }

  /** The length of `s[..j]` once its trailing whitespace is removed. */
  function TrimmedEnd(s: string, j: nat): (e: nat)
    requires j <= |s|
    ensures e <= j
    ensures forall k :: e <= k < j ==> IsSpace(s[k])
    ensures e > 0 ==> !IsSpace(s[e - 1])
  {
    if j == 0 || !IsSpace(s[j - 1]) then j else TrimmedEnd(s, j - 1)
  }

  /** `s.lstrip()` */
  function LStrip(s: string): string {
    s[Indent(s, 0)..]
  }

  /** `s.rstrip()` */
  function RStrip(s: string): string {
    s[..TrimmedEnd(s, |s|)]
  }

  /** `s.strip()` */
  function Strip(s: string): string {
    RStrip(LStrip(s))
  }

  /** ASCII case mapping of `str.lower()` / `str.upper()`. */
  function Lower(s: string): (r: string)
    ensures |r| == |s|
  {
    seq(|s|, i requires 0 <= i < |s| => if 'A' <= s[i] <= 'Z' then (s[i] as int + 32) as char else s[i])
  }

  function Upper(s: string): (r: string)
    ensures |r| == |s|
  {
    seq(|s|, i requires 0 <= i < |s| => if 'a' <= s[i] <= 'z' then (s[i] as int - 32) as char else s[i])
  }

  /** `s.find(c)`: the first index of `c`, or -1. */
  function Find(s: string, c: char): (r: int)
    ensures -1 <= r < |s|
    ensures r == -1 <==> c !in s
    ensures r >= 0 ==> s[r] == c && c !in s[..r]
  {
    if |s| == 0 then -1
    else if s[0] == c then 0
    else
      var k := Find(s[1..], c);
      assert s == [s[0]] + s[1..];
      if k == -1 then -1 else (assert s[..k + 1] == [s[0]] + s[1..][..k]; k + 1)
  }

  /** `s.rfind(c)`: the last index of `c`, or -1. */
  function RFind(s: string, c: char): (r: int)
    ensures -1 <= r < |s|
    ensures r >= 0 ==> s[r] == c
    ensures forall k :: r < k < |s| ==> s[k] != c
  {
    if |s| == 0 then -1
    else if s[|s| - 1] == c then |s| - 1
    else RFind(s[..|s| - 1], c)
  }

  /** `s.count(c)` for a single character. */
  function Count(s: string, c: char): nat {
    if |s| == 0 then 0 else (if s[|s| - 1] == c then 1 else 0) + Count(s[..|s| - 1], c)
  }

  /** How much of `s` its first character or line break takes: two for a
      "\r\n" pair, one otherwise. */
  function BreakWidth(s: string): (n: nat)
    requires |s| > 0
    ensures 1 <= n <= |s|
  {
    if |s| > 1 && s[0] == '\r' && s[1] == '\n' then 2 else 1
  }

  /** What a first character reads back as: '\r' reads as '\n'. */
  function ReadChar(c: char): (r: char)
    ensures r != '\r'
    ensures c != '\r' ==> r == c
  {
    if c == '\r' then '\n' else c
  }

  /** Python's universal newlines, applied whenever a file is read in text
      mode: each "\r\n" pair and each lone '\r' becomes one '\n'. */
  function Newlines(s: string): (r: string)
    ensures '\r' !in r
    ensures |r| <= |s|
    decreases |s|
  {
    if |s| == 0 then "" else [ReadChar(s[0])] + Newlines(s[BreakWidth(s)..])
  }

  /** `s.split(c)` for a one-character separator, built from the back of
      the first character: a separator opens a new (empty) piece, any other
      character joins the first piece. There is always at least one piece. */
  function Split(s: string, c: char): (r: seq<string>)
    ensures |r| >= 1
    decreases |s|
  {
    if |s| == 0 then [""]
    else
      var r := Split(s[1..], c);
      if s[0] == c then [""] + r else [[s[0]] + r[0]] + r[1..]
  }

  /** `sep.join(parts)` */
  function Join(parts: seq<string>, sep: string): string {
    if |parts| == 0 then ""
    else if |parts| == 1 then parts[0]
    else parts[0] + sep + Join(parts[1..], sep)
  }

  /** `s.split()` with no argument: the maximal runs of non-whitespace
      characters, in order. */
  function SplitWhitespace(s: string): (r: seq<string>)
    ensures forall k :: 0 <= k < |r| ==> |r[k]| > 0 && !IsBlank(r[k])
    ensures forall k, i :: 0 <= k < |r| && 0 <= i < |r[k]| ==> !IsSpace(r[k][i])
  {
    Words(s, "")
  }

  /** The words of `s`, the first of which is continued from `word`. */
  function Words(s: string, word: string): (r: seq<string>)
    requires forall i :: 0 <= i < |word| ==> !IsSpace(word[i])
    ensures forall k :: 0 <= k < |r| ==> |r[k]| > 0 && !IsSpace(r[k][0])
    ensures forall k, i :: 0 <= k < |r| && 0 <= i < |r[k]| ==> !IsSpace(r[k][i])
    decreases |s|
  {
    var done := if |word| > 0 then [word] else [];
    if |s| == 0 then done
    else if IsSpace(s[0]) then done + Words(s[1..], "")
    else Words(s[1..], word + [s[0]])
  }

  /** `os.path.basename(p)`: what follows the last '/'. */
  function Basename(p: string): string {
    p[RFind(p, '/') + 1..]
  }

  /** `os.path.splitext(p)[0]`: `p` without its extension, where an
      extension is a last '.' in the final component that is preceded by
      something other than dots within that component. */
  function Stem(p: string): (r: string)
    ensures StartsWith(p, r)
  {
    var sepIndex := RFind(p, '/');
    var dotIndex := RFind(p, '.');
    if dotIndex > sepIndex && exists j :: sepIndex + 1 <= j < dotIndex && p[j] != '.' then p[..dotIndex]
    else p
  }

  // ---------------------------------------------------------------------------
  // Facts about Join and Split
  // ---------------------------------------------------------------------------

  lemma {:induction false} JoinAppend(parts: seq<string>, p: string, sep: string)
    requires |parts| >= 1
    ensures Join(parts + [p], sep) == Join(parts, sep) + sep + p
    decreases |parts|
  {
    if |parts| == 1 {
      assert (parts + [p])[1..] == [p];
    } else {
      assert (parts + [p])[1..] == parts[1..] + [p];
      JoinAppend(parts[1..], p, sep);
    }
  }

  /** Every part of a join occurs inside it. */
  lemma {:induction false} JoinContains(parts: seq<string>, sep: string, k: nat)
    requires k < |parts|
    ensures exists a, b :: Join(parts, sep) == a + parts[k] + b
    decreases |parts|
  {
    if |parts| == 1 {
      assert Join(parts, sep) == "" + parts[0] + "";
    } else if k == 0 {
      assert Join(parts, sep) == "" + parts[0] + (sep + Join(parts[1..], sep));
    } else {
      JoinContains(parts[1..], sep, k - 1);
      var a, b :| Join(parts[1..], sep) == a + parts[1..][k - 1] + b;
      assert Join(parts, sep) == (parts[0] + sep + a) + parts[k] + b;
    }
  }

  /** The first part begins the join. */
  lemma {:induction false} JoinStartsWithFirst(parts: seq<string>, sep: string)
    requires |parts| >= 1
    ensures StartsWith(Join(parts, sep), parts[0])
  {
    if |parts| > 1 {
      assert Join(parts, sep) == parts[0] + (sep + Join(parts[1..], sep));
    }
  }

  /** A join is blank only if all its parts are (for a blank separator). */
  lemma {:induction false} JoinBlank(parts: seq<string>, sep: string, k: nat)
    requires k < |parts| && !IsBlank(parts[k])
    ensures !IsBlank(Join(parts, sep))
  {
    JoinContains(parts, sep, k);
    var a, b :| Join(parts, sep) == a + parts[k] + b;
    var i :| 0 <= i < |parts[k]| && !IsSpace(parts[k][i]);
    assert Join(parts, sep)[|a| + i] == parts[k][i];
  }

  /** No piece of a split contains the separator. */
  lemma {:induction false} SplitNoChar(s: string, c: char)
    ensures forall k :: 0 <= k < |Split(s, c)| ==> c !in Split(s, c)[k]
    decreases |s|
  {
    if |s| > 0 {
      SplitNoChar(s[1..], c);
    }
  }

  /** A character that the string lacks is in none of its pieces. */
  lemma {:induction false} SplitLacks(s: string, c: char, d: char)
    requires d !in s
    ensures forall k :: 0 <= k < |Split(s, c)| ==> d !in Split(s, c)[k]
    decreases |s|
  {
    if |s| > 0 {
      assert d !in s[1..] by {
        assert forall i :: 0 <= i < |s[1..]| ==> s[1..][i] == s[i + 1];
      }
      SplitLacks(s[1..], c, d);
    }
  }

  /** Parts and a separator that all lack a character join into text that
      lacks it. */
  lemma {:induction false} JoinLacks(parts: seq<string>, sep: string, d: char)
    requires d !in sep && forall k :: 0 <= k < |parts| ==> d !in parts[k]
    ensures d !in Join(parts, sep)
    decreases |parts|
  {
    if |parts| > 1 {
      JoinLacks(parts[1..], sep, d);
    }
  }

  /** Splitting and re-joining on the same character is the identity. */
  lemma {:induction false} JoinSplit(s: string, c: char)
    ensures Join(Split(s, c), [c]) == s
    decreases |s|
  {
    if |s| > 0 {
      var r := Split(s[1..], c);
      JoinSplit(s[1..], c);
      if s[0] == c {
        JoinCons("", r, [c]);
      } else if |r| == 1 {
        assert Split(s, c) == [[s[0]] + r[0]];
      } else {
        JoinCons(r[0], r[1..], [c]);
        JoinCons([s[0]] + r[0], r[1..], [c]);
      }
      assert s == [s[0]] + s[1..];
    }
  }

  lemma JoinCons(p: string, rest: seq<string>, sep: string)
    requires |rest| >= 1
    ensures Join([p] + rest, sep) == p + sep + Join(rest, sep)
  {
    assert ([p] + rest)[1..] == rest;
  }

  /** Splitting a string with no separator gives the string itself. */
  lemma {:induction false} SplitNoSep(s: string, c: char)
    requires c !in s
    ensures Split(s, c) == [s]
    decreases |s|
  {
    if |s| > 0 {
      SplitNoSep(s[1..], c);
      assert s == [s[0]] + s[1..];
    }
  }

  /** Every piece of a blank string's split is blank. */
  lemma {:induction false} SplitBlank(s: string, c: char)
    requires IsBlank(s)
    ensures forall k :: 0 <= k < |Split(s, c)| ==> IsBlank(Split(s, c)[k])
    decreases |s|
  {
    if |s| > 0 {
      SplitBlank(s[1..], c);
      var r := Split(s[1..], c);
      if s[0] != c {
        assert forall i :: 0 <= i < |[s[0]] + r[0]| ==> ([s[0]] + r[0])[i] == if i == 0 then s[0] else r[0][i - 1];
      }
    }
  }

  lemma ConsNonBlank(x: char, t: string)
    requires !IsBlank(t)
    ensures !IsBlank([x] + t)
  {
    var i :| 0 <= i < |t| && !IsSpace(t[i]);
    assert ([x] + t)[i + 1] == t[i];
  }

  /** A string that is not blank has a piece that is not blank, whatever
      whitespace character it is split on. */
  lemma {:induction false} SplitNonBlank(s: string, c: char) returns (k: nat)
    requires !IsBlank(s) && IsSpace(c)
    ensures k < |Split(s, c)| && !IsBlank(Split(s, c)[k])
    decreases |s|
  {
    var r := Split(s[1..], c);
    if !IsSpace(s[0]) {
      k := 0;
      assert ([s[0]] + r[0])[0] == s[0];
    } else {
      assert !IsBlank(s[1..]) by {
        var i :| 0 <= i < |s| && !IsSpace(s[i]);
        assert s[1..][i - 1] == s[i];
      }
      var m := SplitNonBlank(s[1..], c);
      if s[0] == c {
        k := m + 1;
        assert Split(s, c)[k] == r[m];
      } else if m == 0 {
        k := 0;
        ConsNonBlank(s[0], r[0]);
      } else {
        k := m;
        assert Split(s, c)[k] == r[m];
      }
    }
  }

  // ---------------------------------------------------------------------------
  // Pinning down a scan by what it found
  // ---------------------------------------------------------------------------

  /** `Indent` stops exactly at the first non-whitespace position. */
  lemma IndentAt(s: string, i: nat, j: nat)
    requires i <= j <= |s|
    requires forall k :: i <= k < j ==> IsSpace(s[k])
    requires j < |s| ==> !IsSpace(s[j])
    ensures Indent(s, i) == j
  {
  }

  /** `TrimmedEnd` stops exactly after the last non-whitespace position. */
  lemma TrimmedEndAt(s: string, j: nat, e: nat)
    requires e <= j <= |s|
    requires forall k :: e <= k < j ==> IsSpace(s[k])
    requires e > 0 ==> !IsSpace(s[e - 1])
    ensures TrimmedEnd(s, j) == e
  {
  }

  /** `Find` reports the first occurrence and no other. */
  lemma FindAt(s: string, c: char, i: nat)
    requires i < |s| && s[i] == c && c !in s[..i]
    ensures Find(s, c) == i
  {
  }

  /** `RFind` reports the last occurrence and no other. */
  lemma RFindAt(s: string, c: char, i: int)
    requires -1 <= i < |s| && (i >= 0 ==> s[i] == c)
    requires forall k :: i < k < |s| ==> s[k] != c
    ensures RFind(s, c) == i
  {
  }

  /** A string whose first character is not whitespace is its own `lstrip()`. */
  lemma LStripNonSpace(s: string)
    requires |s| > 0 && !IsSpace(s[0])
    ensures LStrip(s) == s
  {
    IndentAt(s, 0, 0);
  }

  /** `lstrip()` skips a leading whitespace character. */
  lemma LStripSpace(c: char, s: string)
    requires IsSpace(c)
    ensures LStrip([c] + s) == LStrip(s)
  {
    var t := [c] + s;
    var i := Indent(s, 0);
    forall k | 0 <= k < i + 1
      ensures IsSpace(t[k])
    {
      if k > 0 {
        assert t[k] == s[k - 1];
      }
    }
    IndentAt(t, 0, i + 1);
    assert t[i + 1..] == s[i..];
  }

  /** Stripping both ends in either order gives the same string. */
  lemma StripEitherOrder(s: string)
    ensures LStrip(RStrip(s)) == Strip(s)
  {
    var i := Indent(s, 0);
    var e := TrimmedEnd(s, |s|);
    if e <= i {
      StripBlank(s, i, e);
    } else {
      StripInner(s, i, e);
    }
  }

  /** A string with something other than whitespace: both orders of
      stripping keep the part between the indent and the trimmed end. */
  lemma StripInner(s: string, i: nat, e: nat)
    requires i == Indent(s, 0) && e == TrimmedEnd(s, |s|) && i < e
    ensures LStrip(RStrip(s)) == Strip(s)
  {
    RStripThenLStrip(s, i, e);
    LStripThenRStrip(s, i, e);
  }

  lemma RStripThenLStrip(s: string, i: nat, e: nat)
    requires i == Indent(s, 0) && e == TrimmedEnd(s, |s|) && i < e
    ensures LStrip(RStrip(s)) == s[i..e]
  {
    IndentPrefix(s, i, e);
    assert s[..e][i..] == s[i..e];
  }

  lemma LStripThenRStrip(s: string, i: nat, e: nat)
    requires i == Indent(s, 0) && e == TrimmedEnd(s, |s|) && i < e
    ensures Strip(s) == s[i..e]
  {
    TrimmedSuffix(s, i, e);
    assert s[i..][..e - i] == s[i..e];
  }

  /** Cutting the string after its indent leaves the indent in place. */
  lemma IndentPrefix(s: string, i: nat, e: nat)
    requires i == Indent(s, 0) && i < e <= |s|
    ensures Indent(s[..e], 0) == i
  {
    var p := s[..e];
    assert forall k :: 0 <= k <= i ==> p[k] == s[k];
    IndentAt(p, 0, i);
  }

  /** Cutting the string before its trimmed end moves the end with it. */
  lemma TrimmedSuffix(s: string, i: nat, e: nat)
    requires e == TrimmedEnd(s, |s|) && i < e
    ensures TrimmedEnd(s[i..], |s| - i) == e - i
  {
    var q := s[i..];
    assert forall k :: 0 <= k < |q| ==> q[k] == s[i + k];
    TrimmedEndAt(q, |q|, e - i);
  }

  /** A string whose trimmed end comes no later than its indent is blank,
      and both orders of stripping give the empty string. */
  lemma StripBlank(s: string, i: nat, e: nat)
    requires i == Indent(s, 0) && e == TrimmedEnd(s, |s|) && e <= i
    ensures LStrip(RStrip(s)) == "" && Strip(s) == ""
  {
    assert e == 0 && i == |s|;
    assert s[..e] == [] && s[i..] == [];
  }

  /** Splitting at a separator splits the two sides independently. */
  lemma {:induction false} SplitConcat(x: string, c: char, y: string)
    ensures Split(x + [c] + y, c) == Split(x, c) + Split(y, c)
    decreases |x|
  {
    if |x| == 0 {
      assert x + [c] + y == [c] + y;
      assert ([c] + y)[1..] == y;
    } else {
      var s := x + [c] + y;
      assert s[1..] == x[1..] + [c] + y;
      SplitConcat(x[1..], c, y);
    }
  }

  /** `rstrip()` drops a blank tail together with the whitespace before it. */
  lemma RStripBlankTail(x: string, tail: string)
    requires IsBlank(tail)
    ensures RStrip(x + tail) == RStrip(x)
  {
    var e := x + tail;
    var t := TrimmedEnd(x, |x|);
    forall k | t <= k < |e|
      ensures IsSpace(e[k])
    {
      if k < |x| {
        assert e[k] == x[k];
      } else {
        assert e[k] == tail[k - |x|];
      }
    }
    if t > 0 {
      assert e[t - 1] == x[t - 1];
    }
    TrimmedEndAt(e, |e|, t);
    assert e[..t] == x[..t];
  }

  /** `rstrip()` of a string with a non-blank end keeps everything before it. */
  lemma RStripPrefix(p: string, m: string)
    requires !IsBlank(m)
    ensures RStrip(p + m) == p + RStrip(m)
  {
    var e := p + m;
    var t := TrimmedEnd(m, |m|);
    assert t > 0;
    forall k | |p| + t <= k < |e|
      ensures IsSpace(e[k])
    {
      assert e[k] == m[k - |p|];
    }
    assert e[|p| + t - 1] == m[t - 1];
    TrimmedEndAt(e, |e|, |p| + t);
    assert e[..|p| + t] == p + m[..t];
  }

  /** Joining pieces free of the separator and splitting again gives the
      pieces back. */
  lemma {:induction false} SplitJoin(parts: seq<string>, c: char)
    requires |parts| >= 1
    requires forall k :: 0 <= k < |parts| ==> c !in parts[k]
    ensures Split(Join(parts, [c]), c) == parts
    decreases |parts|
  {
    if |parts| == 1 {
      SplitNoSep(parts[0], c);
    } else {
      SplitJoin(parts[1..], c);
      assert Join(parts, [c]) == parts[0] + [c] + Join(parts[1..], [c]);
      SplitConcat(parts[0], c, Join(parts[1..], [c]));
      SplitNoSep(parts[0], c);
      assert parts == [parts[0]] + parts[1..];
    }
  }

  /** A string that starts and ends with something other than whitespace
      is its own `strip()`. */
  lemma StripKeepsEnds(s: string)
    requires |s| > 0 && !IsSpace(s[0]) && !IsSpace(s[|s| - 1])
    ensures Strip(s) == s
  {
    LStripNonSpace(s);
    TrimmedEndAt(s, |s|, |s|);
  }

  // ---------------------------------------------------------------------------
  // Facts about universal newlines
  // ---------------------------------------------------------------------------

  /** Text without a carriage return reads back as written. */
  lemma {:induction false} NewlinesPlain(s: string)
    requires '\r' !in s
    ensures Newlines(s) == s
    decreases |s|
  {
    if |s| > 0 {
      assert '\r' !in s[1..] by {
        assert forall i :: 0 <= i < |s[1..]| ==> s[1..][i] == s[i + 1];
      }
      NewlinesPlain(s[1..]);
      assert s == [s[0]] + s[1..];
    }
  }

  /** Two pieces read back as each read alone, unless the first ends with
      '\r' and the second starts with '\n', a pair that reads as one '\n'. */
  lemma {:induction false} NewlinesConcat(a: string, b: string)
    requires !(|a| > 0 && a[|a| - 1] == '\r' && |b| > 0 && b[0] == '\n')
    ensures Newlines(a + b) == Newlines(a) + Newlines(b)
    decreases |a|
  {
    if |a| == 0 {
      assert a + b == b;
    } else {
      var k := BreakWidth(a);
      WidthConcat(a, b);
      NewlinesFront(a + b, a[0], a[k..] + b);
      NewlinesConcat(a[k..], b);
      ConsAssoc(ReadChar(a[0]), Newlines(a[k..]), Newlines(b));
    }
  }

  /** One step of reading back: the first character or break, then the
      rest. */
  lemma NewlinesFront(s: string, c: char, rest: string)
    requires |s| > 0 && s[0] == c && s[BreakWidth(s)..] == rest
    ensures Newlines(s) == [ReadChar(c)] + Newlines(rest)
  {
  }

  lemma ConsAssoc(c: char, x: string, y: string)
    ensures [c] + (x + y) == ([c] + x) + y
  {
  }

  /** The first break of `a` is that of `a + b` unless a '\r' that ends `a`
      pairs with a '\n' that starts `b`. */
  lemma WidthConcat(a: string, b: string)
    requires |a| > 0 && !(a[|a| - 1] == '\r' && |b| > 0 && b[0] == '\n')
    ensures BreakWidth(a + b) == BreakWidth(a) && (a + b)[0] == a[0]
    ensures (a + b)[BreakWidth(a)..] == a[BreakWidth(a)..] + b
  {
  }

  /** Text that ends a line still does once read back. */
  lemma {:induction false} NewlinesEndsLine(s: string)
    requires EndsWith(s, "\n")
    ensures EndsWith(Newlines(s), "\n")
    decreases |s|
  {
    var k := BreakWidth(s);
    if k < |s| {
      assert EndsWith(s[k..], "\n");
      NewlinesEndsLine(s[k..]);
    }
  }
}
