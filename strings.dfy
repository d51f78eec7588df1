/** The handful of Python `str` operations the tool relies on, over
    `string` (= `seq<char>`). Whitespace is the ASCII part of Python's
    `str.isspace`; line splitting breaks at '\n' only. */
module Strings {

  /** The ten ASCII characters Python's `str.isspace` accepts: space, tab,
      '\n', '\r', vertical tab, form feed and the separators 0x1C-0x1F. */
  predicate IsSpace(c: char) {
    c == ' ' || c == '\t' || c == '\n' || c == '\r' || c == '\U{0B}' || c == '\U{0C}'
    || c == '\U{1C}' || c == '\U{1D}' || c == '\U{1E}' || c == '\U{1F}'
  }

  predicate AllSpace(s: string) {
    forall i :: 0 <= i < |s| ==> IsSpace(s[i])
  }

  /** `s.lstrip()`. */
  function LStrip(s: string): (r: string)
    ensures |r| <= |s|
  {
    if s != [] && IsSpace(s[0]) then LStrip(s[1..]) else s
  }

  /** `lstrip()` drops the leading whitespace, and only that. */
  lemma {:induction false} LStripSpec(s: string)
    ensures LStrip(s) == s[|s| - |LStrip(s)|..]
    ensures LStrip(s) == [] || !IsSpace(LStrip(s)[0])
    ensures AllSpace(s[..|s| - |LStrip(s)|])
    ensures LStrip(s) == [] <==> AllSpace(s)
  {
    if s != [] && IsSpace(s[0]) {
      var t := LStrip(s[1..]);
      LStripSpec(s[1..]);
      assert s[..|s| - |t|] == [s[0]] + s[1..][..|s| - 1 - |t|];
      assert t == [] ==> s == [s[0]] + s[1..][..|s| - 1 - |t|];
    }
  }

  /** `s.rstrip()`. */
  function RStrip(s: string): (r: string)
    ensures |r| <= |s|
  {
    if s != [] && IsSpace(s[|s| - 1]) then RStrip(s[..|s| - 1]) else s
  }

  /** `rstrip()` drops the trailing whitespace, and only that. */
  lemma {:induction false} RStripSpec(s: string)
    ensures RStrip(s) == s[..|RStrip(s)|]
    ensures RStrip(s) == [] || !IsSpace(RStrip(s)[|RStrip(s)| - 1])
    ensures AllSpace(s[|RStrip(s)|..])
  {
    if s != [] && IsSpace(s[|s| - 1]) {
      var t := RStrip(s[..|s| - 1]);
      RStripSpec(s[..|s| - 1]);
      assert s[|t|..] == s[..|s| - 1][|t|..] + [s[|s| - 1]];
    }
  }

  /** `rstrip()` draws its characters from its input and loses no
      character that is not whitespace. */
  lemma RStripChars(s: string)
    ensures forall c :: c in RStrip(s) ==> c in s
    ensures forall c :: !IsSpace(c) && c in s ==> c in RStrip(s)
  {
    var r := RStrip(s);
    RStripSpec(s);
    forall j | |r| <= j < |s|
      ensures IsSpace(s[j])
    {
      assert s[j] == s[|r|..][j - |r|];
    }
    forall c | !IsSpace(c) && c in s
      ensures c in r
    {
      var i :| 0 <= i < |s| && s[i] == c;
      assert r[i] == c;
    }
  }

  /** `s.strip()`. */
  function Strip(s: string): (r: string)
    ensures |r| <= |s|
  {
    RStrip(LStrip(s))
  }

  /** Neither starts nor ends with whitespace: what `strip()` returns. */
  predicate IsTrimmed(s: string) {
    s == [] || (!IsSpace(s[0]) && !IsSpace(s[|s| - 1]))
  }

  /** `strip()` returns trimmed text, empty exactly for blank input; it
      keeps a slice of its input, starting at the first non-blank
      character, and adds no character. */
  lemma StripSpec(s: string)
    ensures IsTrimmed(Strip(s))
    ensures Strip(s) == [] <==> AllSpace(s)
    ensures Strip(s) != [] ==> Strip(s)[0] == LStrip(s)[0]
    ensures forall c :: c in Strip(s) ==> c in s
  {
    var l := LStrip(s);
    var r := RStrip(l);
    LStripSpec(s);
    RStripSpec(l);
    assert r == [] ==> s == s[..|s| - |l|] + l[|r|..];
    assert r != [] ==> r[0] == l[0];
    assert forall c :: c in r ==> c in l;
    assert forall c :: c in l ==> c in s;
  }

  /** Stripping trimmed text changes nothing. */
  lemma StripTrimmed(t: string)
    requires IsTrimmed(t)
    ensures Strip(t) == t
  {
  }

  /** Stripping trimmed text followed by whitespace gives back the text. */
  lemma StripTrailing(t: string, w: string)
    requires IsTrimmed(t) && t != [] && AllSpace(w)
    ensures Strip(t + w) == t
  {
    var s := t + w;
    assert LStrip(s) == s;
    var r := RStrip(s);
    RStripSpec(s);
    assert !IsSpace(s[|t| - 1]);
    assert |r| <= |t| by {
      assert forall i :: |t| <= i < |s| ==> IsSpace(s[i]);
    }
    assert r == s[..|t|] == t;
  }

  /** No newline except possibly a final one. */
  predicate NoInnerNewline(s: string) {
    forall i :: 0 <= i < |s| - 1 ==> s[i] != '\n'
  }

  /** Stripping keeps a contiguous slice, so it creates no inner newline. */
  lemma StripNoInnerNewline(s: string)
    requires NoInnerNewline(s)
    ensures NoInnerNewline(Strip(s))
  {
    var l := LStrip(s);
    var r := RStrip(l);
    LStripSpec(s);
    RStripSpec(l);
    assert forall i :: 0 <= i < |r| ==> r[i] == s[|s| - |l| + i];
  }

  lemma {:induction false} LStripAppend(l: string, w: string)
    ensures AllSpace(l) ==> LStrip(l + w) == LStrip(w)
    ensures !AllSpace(l) ==> LStrip(l + w) == LStrip(l) + w
  {
    if l != [] {
      assert (l + w)[0] == l[0];
      assert (l + w)[1..] == l[1..] + w;
      LStripAppend(l[1..], w);
      assert AllSpace(l) <==> IsSpace(l[0]) && AllSpace(l[1..]);
    } else {
      assert l + w == w;
    }
  }

  /** Trailing whitespace makes no difference to `rstrip()`. */
  lemma {:induction false} RStripAppendSpace(y: string, w: string)
    requires AllSpace(w)
    ensures RStrip(y + w) == RStrip(y)
    decreases |w|
  {
    if w == [] {
      assert y + w == y;
    } else {
      assert (y + w)[..|y + w| - 1] == y + w[..|w| - 1];
      RStripAppendSpace(y, w[..|w| - 1]);
    }
  }

  /** Trailing whitespace makes no difference to `strip()`. */
  lemma StripAppendSpace(x: string, w: string)
    requires AllSpace(w)
    ensures Strip(x + w) == Strip(x)
  {
    LStripAppend(x, w);
    LStripSpec(x);
    LStripSpec(w);
    if !AllSpace(x) {
      RStripAppendSpace(LStrip(x), w);
    }
  }

  /** A final '\n' makes no difference to `strip()`. */
  lemma StripAddNewline(l: string)
    ensures Strip(l + "\n") == Strip(l)
  {
    LStripAppend(l, "\n");
    StripSpec(l);
    if !AllSpace(l) {
      var x := LStrip(l);
      assert (x + "\n")[..|x|] == x;
    } else {
      assert LStrip("\n") == [];
    }
  }

  /** `s.rstrip(c)`: drops the trailing run of `c`. */
  function RStripChar(s: string, c: char): (r: string)
    ensures |r| <= |s| && r == s[..|r|]
    ensures r == [] || r[|r| - 1] != c
    ensures forall i :: |r| <= i < |s| ==> s[i] == c
  {
    if s != [] && s[|s| - 1] == c then RStripChar(s[..|s| - 1], c) else s
  }

  /** Position of the first `c` in `s`, or `|s|` when there is none
      (`s.find(c)` with the "not found" answer moved to the end). */
  function IndexOf(s: string, c: char): (i: nat)
    ensures i <= |s|
    ensures i < |s| ==> s[i] == c
    ensures forall j :: 0 <= j < i ==> s[j] != c
  {
    if s == [] || s[0] == c then 0 else 1 + IndexOf(s[1..], c)
  }

  /** Cutting `t + s` inside `t` cuts `t`. */
  lemma SliceAppend(t: string, s: string, h: nat)
    requires h <= |t|
    ensures (t + s)[..h] == t[..h]
    ensures (t + s)[h..] == t[h..] + s
  {
  }

  /** Searching a concatenation finds the first part's occurrence if it
      has one, and otherwise looks in the second part. */
  lemma {:induction false} IndexOfAppend(s: string, t: string, c: char)
    ensures IndexOf(s + t, c) == if IndexOf(s, c) < |s| then IndexOf(s, c) else |s| + IndexOf(t, c)
  {
    if s == [] {
      assert s + t == t;
    } else {
      assert (s + t)[0] == s[0];
      assert (s + t)[1..] == s[1..] + t;
      IndexOfAppend(s[1..], t, c);
    }
  }

  predicate EndsWithNewline(s: string) {
    s != [] && s[|s| - 1] == '\n'
  }

  /** `"".join(parts)`. */
  function Concat(parts: seq<string>): string {
    if parts == [] then [] else parts[0] + Concat(parts[1..])
  }

  /** A character occurs in a concatenation exactly when it occurs in
      one of the parts. */
  lemma {:induction false} ConcatChars(parts: seq<string>, c: char)
    ensures c in Concat(parts) <==> exists i :: 0 <= i < |parts| && c in parts[i]
  {
    if parts != [] {
      ConcatChars(parts[1..], c);
      assert forall i :: 1 <= i < |parts| ==> parts[i] == parts[1..][i - 1];
      if c in Concat(parts[1..]) {
        var i :| 0 <= i < |parts[1..]| && c in parts[1..][i];
        assert c in parts[i + 1];
      }
    }
  }

  /** `sep.join(parts)`. */
  function Join(parts: seq<string>, sep: string): string {
    if parts == [] then []
    else if |parts| == 1 then parts[0]
    else parts[0] + sep + Join(parts[1..], sep)
  }

  /** `s.replace(from, to)` for single characters. */
  function ReplaceChar(s: string, from: char, to: char): (r: string)
    ensures |r| == |s|
    ensures forall i :: 0 <= i < |s| ==> r[i] == (if s[i] == from then to else s[i])
  {
    if s == [] then [] else [if s[0] == from then to else s[0]] + ReplaceChar(s[1..], from, to)
  }

  /** The number a string of decimal digits denotes, most significant
      digit first. */
  function DigitsValue(s: string): int {
    if s == [] then 0 else DigitsValue(s[..|s| - 1]) * 10 + (s[|s| - 1] as int - '0' as int)
  }

  /** Decimal rendering of a count, as `f"{n}"` prints it: digits only,
      no leading zero, denoting `n`. */
  function NatToString(n: nat): (r: string)
    ensures r != []
    ensures forall i :: 0 <= i < |r| ==> '0' <= r[i] <= '9'
    ensures |r| > 1 ==> r[0] != '0'
    ensures DigitsValue(r) == n
  {
    var d := ['0', '1', '2', '3', '4', '5', '6', '7', '8', '9'][n % 10];
    if n < 10 then [d] else
      var r := NatToString(n / 10) + [d];
      assert r[..|r| - 1] == NatToString(n / 10);
      r
  }

  // ---------------------------------------------------------------------
  // Physical lines

  /** A physical line as `splitlines(True)` yields it: non-empty, with a
      '\n' at most in its last position. */
  predicate IsLine(l: string) {
    l != [] && forall i :: 0 <= i < |l| - 1 ==> l[i] != '\n'
  }

  /** Newline-free text with a '\n' added is one physical line. */
  lemma NewlineEndsLine(t: string)
    requires '\n' !in t
    ensures IsLine(t + "\n") && EndsWithNewline(t + "\n")
  {
    assert forall i :: 0 <= i < |t| ==> (t + "\n")[i] == t[i];
  }

  /** Length of the first physical line of `s`, terminator included. */
  function FirstLineLength(s: string): (n: nat)
    requires s != []
    ensures 1 <= n <= |s|
    ensures n < |s| ==> s[n - 1] == '\n'
  {
    if s[0] == '\n' || |s| == 1 then 1 else 1 + FirstLineLength(s[1..])
  }

  /** The first line holds no '\n' before its end. */
  lemma {:induction false} FirstLineIsLine(s: string)
    requires s != []
    ensures IsLine(s[..FirstLineLength(s)])
  {
    if !(s[0] == '\n' || |s| == 1) {
      FirstLineIsLine(s[1..]);
      assert s[..FirstLineLength(s)] == [s[0]] + s[1..][..FirstLineLength(s[1..])];
    }
  }

  /** `s.splitlines(keepends=True)`, breaking at '\n' only. */
  function SplitLines(s: string): seq<string>
    decreases |s|
  {
    if s == [] then [] else
    var n := FirstLineLength(s);
    [s[..n]] + SplitLines(s[n..])
  }

  lemma {:induction false} ConcatAppend(a: seq<string>, b: seq<string>)
    ensures Concat(a + b) == Concat(a) + Concat(b)
  {
    if a == [] {
      assert a + b == b;
    } else {
      assert (a + b)[0] == a[0];
      assert (a + b)[1..] == a[1..] + b;
      ConcatAppend(a[1..], b);
    }
  }

  /** Joining the lines gives back the text: nothing is lost or added. */
  lemma {:induction false} SplitLinesConcat(s: string)
    ensures Concat(SplitLines(s)) == s
    decreases |s|
  {
    if s != [] {
      var n := FirstLineLength(s);
      SplitLinesConcat(s[n..]);
      assert s == s[..n] + s[n..];
    }
  }

  /** Every piece is a physical line. */
  lemma {:induction false} SplitLinesAreLines(s: string)
    ensures forall i :: 0 <= i < |SplitLines(s)| ==> IsLine(SplitLines(s)[i])
    decreases |s|
  {
    if s != [] {
      var n := FirstLineLength(s);
      FirstLineIsLine(s);
      SplitLinesAreLines(s[n..]);
      var ls := SplitLines(s);
      assert ls == [s[..n]] + SplitLines(s[n..]);
    }
  }

  /** Every piece but the last ends in '\n'; the last one does exactly
      when the text does. */
  lemma {:induction false} SplitLinesTerminated(s: string)
    ensures forall i :: 0 <= i < |SplitLines(s)| - 1 ==> EndsWithNewline(SplitLines(s)[i])
    ensures SplitLines(s) != [] ==> (EndsWithNewline(s) <==> EndsWithNewline(SplitLines(s)[|SplitLines(s)| - 1]))
    ensures SplitLines(s) == [] <==> s == []
    decreases |s|
  {
    if s != [] {
      var n := FirstLineLength(s);
      SplitLinesTerminated(s[n..]);
      var ls := SplitLines(s);
      var rest := SplitLines(s[n..]);
      assert ls == [s[..n]] + rest;
      if n < |s| {
        assert EndsWithNewline(s[..n]);
        assert EndsWithNewline(s) <==> EndsWithNewline(s[n..]);
      }
    }
  }

  /** Splitting text that ends at a line boundary distributes over `+`. */
  lemma {:induction false} SplitLinesAppend(a: string, b: string)
    requires a == [] || EndsWithNewline(a)
    ensures SplitLines(a + b) == SplitLines(a) + SplitLines(b)
    decreases |a|
  {
    if a == [] {
      assert a + b == b;
    } else {
      var n := FirstLineLength(a);
      var rest := a[n..];
      SplitLinesHead(a, b);
      SplitLinesAppend(rest, b);
      assert SplitLines(a) == [a[..n]] + SplitLines(rest);
      ConsAppend(a[..n], SplitLines(rest), SplitLines(b));
    }
  }

  lemma ConsAppend(x: string, xs: seq<string>, ys: seq<string>)
    ensures [x] + (xs + ys) == ([x] + xs) + ys
  {
  }

  /** The first line of `a + b` is the first line of `a` when `a` is terminated. */
  lemma SplitLinesHead(a: string, b: string)
    requires EndsWithNewline(a)
    ensures a[FirstLineLength(a)..] == [] || EndsWithNewline(a[FirstLineLength(a)..])
    ensures SplitLines(a + b) == [a[..FirstLineLength(a)]] + SplitLines(a[FirstLineLength(a)..] + b)
  {
    var n := FirstLineLength(a);
    FirstLineLengthPrefix(a, b);
    var ab := a + b;
    assert ab[..n] == a[..n];
    assert ab[n..] == a[n..] + b;
  }

  lemma {:induction false} FirstLineLengthPrefix(a: string, b: string)
    requires EndsWithNewline(a)
    ensures FirstLineLength(a + b) == FirstLineLength(a)
    decreases |a|
  {
    if a[0] != '\n' && |a| > 1 {
      assert (a + b)[1..] == a[1..] + b;
      FirstLineLengthPrefix(a[1..], b);
    }
  }

  /** A single line splits to itself. */
  lemma SplitOneLine(l: string)
    requires IsLine(l)
    ensures FirstLineLength(l) == |l|
    ensures SplitLines(l) == [l]
  {
    var n := FirstLineLength(l);
    assert l[n - 1] == '\n' ==> n - 1 == |l| - 1;
    assert n == |l|;
    assert l[n..] == [];
    assert l[..n] == l;
  }

  /** Terminated lines, joined, split back into the same lines. */
  lemma {:induction false} SplitLinesOfLines(ls: seq<string>)
    requires forall i :: 0 <= i < |ls| ==> IsLine(ls[i]) && EndsWithNewline(ls[i])
    ensures SplitLines(Concat(ls)) == ls
    ensures Concat(ls) == [] || EndsWithNewline(Concat(ls))
  {
    if ls != [] {
      SplitLinesOfLines(ls[1..]);
      SplitOneLine(ls[0]);
      SplitLinesAppend(ls[0], Concat(ls[1..]));
      assert ls == [ls[0]] + ls[1..];
    }
  }

  /** Adding a '\n' to text that lacks a final one only terminates its last
      line; the other lines are untouched. */
  lemma {:induction false} SplitLinesAddNewline(s: string)
    requires s != [] && !EndsWithNewline(s)
    ensures SplitLines(s) != []
    ensures SplitLines(s + "\n") == SplitLines(s)[..|SplitLines(s)| - 1] + [SplitLines(s)[|SplitLines(s)| - 1] + "\n"]
    decreases |s|
  {
    var n := FirstLineLength(s);
    if n == |s| {
      LastLineAddNewline(s);
    } else {
      var a, b := s[..n], s[n..];
      FirstLineEnds(s);
      CutBeforeNewline(s, n);
      SplitLinesCons(a, b + "\n");
      SplitLinesAddNewline(b);
      InitLastCons(a, SplitLines(b), SplitLines(b + "\n"));
    }
  }

  /** A text that is one unterminated line splits to itself, and so does
      the text with its '\n'. */
  lemma LastLineAddNewline(s: string)
    requires s != [] && !EndsWithNewline(s) && FirstLineLength(s) == |s|
    ensures SplitLines(s) == [s] && SplitLines(s + "\n") == [s + "\n"]
  {
    FirstLineIsLine(s);
    assert s[..|s|] == s;
    SplitOneLine(s);
    OpenLineHasNoNewline(s);
    NewlineEndsLine(s);
    SplitOneLine(s + "\n");
  }

  /** A physical line without a final '\n' has none at all. */
  lemma OpenLineHasNoNewline(s: string)
    requires IsLine(s) && !EndsWithNewline(s)
    ensures '\n' !in s
  {
    forall i | 0 <= i < |s|
      ensures s[i] != '\n'
    {
      if i == |s| - 1 {
        assert !EndsWithNewline(s);
      }
    }
  }

  /** The first of several lines is a terminated line. */
  lemma FirstLineEnds(s: string)
    requires s != [] && FirstLineLength(s) < |s|
    ensures IsLine(s[..FirstLineLength(s)]) && EndsWithNewline(s[..FirstLineLength(s)])
  {
    FirstLineIsLine(s);
    PrefixEnds(s, FirstLineLength(s));
  }

  lemma PrefixEnds(s: string, n: nat)
    requires 0 < n <= |s| && s[n - 1] == '\n'
    ensures EndsWithNewline(s[..n])
  {
  }

  /** Cutting `s` at `n` before adding a '\n' cuts `s + "\n"` there too. */
  lemma CutBeforeNewline(s: string, n: nat)
    requires n < |s|
    ensures s + "\n" == s[..n] + (s[n..] + "\n")
    ensures s[n..] != [] && (EndsWithNewline(s) <==> EndsWithNewline(s[n..]))
  {
    assert s == s[..n] + s[n..];
  }

  /** A terminated line in front of a text is its first line. */
  lemma SplitLinesCons(a: string, t: string)
    requires IsLine(a) && EndsWithNewline(a)
    ensures SplitLines(a + t) == [a] + SplitLines(t)
  {
    SplitOneLine(a);
    SplitLinesAppend(a, t);
  }

  /** Changing the last element of a tail changes the last element of the
      whole sequence. */
  lemma InitLastCons(a: string, lb: seq<string>, lb2: seq<string>)
    requires lb != [] && lb2 == lb[..|lb| - 1] + [lb[|lb| - 1] + "\n"]
    ensures var l := [a] + lb;
      [a] + lb2 == l[..|l| - 1] + [l[|l| - 1] + "\n"]
  {
    var l := [a] + lb;
    assert l[..|l| - 1] == [a] + lb[..|lb| - 1];
  }

  // ---------------------------------------------------------------------
  // Reading a file in text mode

  /** What `open(path, "r").read()` returns for the bytes `s`: universal
      newline translation turns every "\r\n" and every lone '\r' into
      '\n'; nothing else changes. */
  function ReadText(s: string): (r: string)
    ensures '\r' !in r
    ensures |r| <= |s|
    ensures '\n' in s ==> '\n' in r
    decreases |s|
  {
    if s == [] then []
    else if s[0] == '\r' then "\n" + ReadText(if |s| > 1 && s[1] == '\n' then s[2..] else s[1..])
    else [s[0]] + ReadText(s[1..])
  }

  /** Text without a '\r' reads back as written. */
  lemma {:induction false} ReadTextKeeps(s: string)
    requires '\r' !in s
    ensures ReadText(s) == s
    decreases |s|
  {
    if s != [] {
      assert '\r' !in s[1..] by {
        assert forall i :: 0 <= i < |s[1..]| ==> s[1..][i] == s[i + 1];
      }
      ReadTextKeeps(s[1..]);
    }
  }

  /** Reading what was read changes nothing. */
  lemma ReadTextIdempotent(s: string)
    ensures ReadText(ReadText(s)) == ReadText(s)
  {
    ReadTextKeeps(ReadText(s));
  }

  /** Reading splits at any point not inside a "\r\n" pair: text that
      does not end with '\r' reads the same on its own as in front of
      anything else. */
  lemma {:induction false} ReadTextAppend(a: string, b: string)
    ensures a == [] || a[|a| - 1] != '\r' ==> ReadText(a + b) == ReadText(a) + ReadText(b)
    decreases |a|
  {
    if a == [] {
      assert a + b == b;
    } else if a[|a| - 1] != '\r' {
      if a[0] != '\r' {
        var t := a[1..];
        assert a == [a[0]] + t && a + b == [a[0]] + (t + b);
        ReadTextStep(a[0], t);
        ReadTextStep(a[0], t + b);
        assert t == [] || t[|t| - 1] == a[|a| - 1];
        ReadTextAppend(t, b);
        ConcatAssoc([a[0]], ReadText(t), ReadText(b));
      } else if a[1] == '\n' {
        var t := a[2..];
        assert a == "\r\n" + t && a + b == "\r\n" + (t + b);
        ReadTextCrLf(t);
        ReadTextCrLf(t + b);
        assert t == [] || t[|t| - 1] == a[|a| - 1];
        ReadTextAppend(t, b);
        ConcatAssoc("\n", ReadText(t), ReadText(b));
      } else {
        var t := a[1..];
        assert a == "\r" + t && a + b == "\r" + (t + b);
        ReadTextCr(t);
        ReadTextCr(t + b);
        assert t == [] || t[|t| - 1] == a[|a| - 1];
        ReadTextAppend(t, b);
        ConcatAssoc("\n", ReadText(t), ReadText(b));
      }
    }
  }

  /** A character other than '\r' is read as itself. */
  lemma ReadTextStep(c: char, t: string)
    ensures c != '\r' ==> ReadText([c] + t) == [c] + ReadText(t)
  {
    assert ([c] + t)[1..] == t;
  }

  /** "\r\n" is read as '\n'. */
  lemma ReadTextCrLf(t: string)
    ensures ReadText("\r\n" + t) == "\n" + ReadText(t)
  {
    assert ("\r\n" + t)[2..] == t;
  }

  /** A '\r' not followed by '\n' is read as '\n'. */
  lemma ReadTextCr(t: string)
    ensures t == [] || t[0] != '\n' ==> ReadText("\r" + t) == "\n" + ReadText(t)
  {
    assert ("\r" + t)[1..] == t;
  }

  /** Each "\r\n", and each '\r' not followed by '\n', reads as one '\n'
      where it stands. */
  lemma ReadTextBreaks(a: string, b: string)
    ensures a == [] || a[|a| - 1] != '\r' ==>
      ReadText(a + "\r\n" + b) == ReadText(a) + "\n" + ReadText(b)
    ensures (a == [] || a[|a| - 1] != '\r') && (b == [] || b[0] != '\n') ==>
      ReadText(a + "\r" + b) == ReadText(a) + "\n" + ReadText(b)
  {
    if a == [] || a[|a| - 1] != '\r' {
      ConcatAssoc(a, "\r\n", b);
      ConcatAssoc(a, "\r", b);
      ConcatAssoc(ReadText(a), "\n", ReadText(b));
      ReadTextAppend(a, "\r\n" + b);
      ReadTextCrLf(b);
      ReadTextAppend(a, "\r" + b);
      ReadTextCr(b);
    }
  }

  lemma ConcatAssoc(x: string, y: string, z: string)
    ensures x + y + z == x + (y + z)
  {
  }


}
