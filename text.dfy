/** The pieces of Python's `str` that the extractor relies on: character
    replacement, deletion, squeezing of runs, `strip`, `split`, `join`,
    `splitlines` and the decimal rendering of an `int`. */
module Text {

  /** No character of `s` is in `cs`. */
  predicate NoneOf(s: string, cs: set<char>) {
    forall i :: 0 <= i < |s| ==> s[i] !in cs
  }

  /** Every character of `s` is in `cs`. */
  predicate OnlyOf(s: string, cs: set<char>) {
    forall i :: 0 <= i < |s| ==> s[i] in cs
  }

  /** `s` with every character of `targets` replaced by `sub`. */
  function ReplaceAll(s: string, targets: set<char>, sub: char): (r: string)
    ensures |r| == |s|
    ensures forall i :: 0 <= i < |s| ==> r[i] == if s[i] in targets then sub else s[i]
  {
    seq(|s|, i requires 0 <= i < |s| => if s[i] in targets then sub else s[i])
  }

  /** A character that `ReplaceAll` neither replaces nor inserts keeps its count. */
  lemma {:induction false} ReplaceAllCount(s: string, targets: set<char>, sub: char, c: char)
    requires c !in targets && c != sub
    ensures multiset(ReplaceAll(s, targets, sub))[c] == multiset(s)[c]
  {
    if s != [] {
      ReplaceAllCount(s[1..], targets, sub, c);
      var r, rest := ReplaceAll(s, targets, sub), ReplaceAll(s[1..], targets, sub);
      ReplaceAllCons(s, targets, sub);
      assert s == [s[0]] + s[1..];
      assert multiset(s) == multiset([s[0]]) + multiset(s[1..]);
      assert multiset(r) == multiset([r[0]]) + multiset(rest);
    }
  }

  /** `ReplaceAll` works character by character from the front. */
  lemma ReplaceAllCons(s: string, targets: set<char>, sub: char)
    requires s != []
    ensures ReplaceAll(s, targets, sub) == [ReplaceAll(s, targets, sub)[0]] + ReplaceAll(s[1..], targets, sub)
  {
    var r, rest := ReplaceAll(s, targets, sub), ReplaceAll(s[1..], targets, sub);
    forall i | 0 <= i < |r| ensures r[i] == ([r[0]] + rest)[i] {
      if i > 0 {
        assert s[i] == s[1..][i - 1];
      }
    }
  }

  /** `ReplaceAll` leaves a string with no target as it is. */
  lemma ReplaceAllKeeps(s: string, targets: set<char>, sub: char)
    requires NoneOf(s, targets)
    ensures ReplaceAll(s, targets, sub) == s
  {
  }

  /** `s` with every character of `drop` deleted. */
  function RemoveAll(s: string, drop: set<char>): (r: string)
    ensures |r| <= |s|
    ensures NoneOf(r, drop)
    ensures s != [] && s[0] !in drop ==> r != [] && r[0] == s[0]
    ensures NoneOf(s, drop) ==> r == s
  {
    if s == [] then []
    else if s[0] in drop then RemoveAll(s[1..], drop)
    else [s[0]] + RemoveAll(s[1..], drop)
  }

  /** A character that `RemoveAll` does not delete keeps its count. */
  lemma {:induction false} RemoveAllCount(s: string, drop: set<char>, c: char)
    requires c !in drop
    ensures multiset(RemoveAll(s, drop))[c] == multiset(s)[c]
  {
    if s != [] {
      RemoveAllCount(s[1..], drop, c);
      assert s == [s[0]] + s[1..];
    }
  }

  /** `RemoveAll` brings in no character that `s` lacks. */
  lemma {:induction false} RemoveAllWithin(s: string, drop: set<char>, cs: set<char>)
    requires OnlyOf(s, cs)
    ensures OnlyOf(RemoveAll(s, drop), cs)
  {
    if s != [] {
      RemoveAllWithin(s[1..], drop, cs);
    }
  }

  /** `RemoveAll` brings in no character from `cs` that `s` lacks. */
  lemma {:induction false} RemoveAllAvoids(s: string, drop: set<char>, cs: set<char>)
    requires NoneOf(s, cs)
    ensures NoneOf(RemoveAll(s, drop), cs)
  {
    if s != [] {
      RemoveAllAvoids(s[1..], drop, cs);
    }
  }

  /** No two consecutive characters of `s` are both `c`. */
  predicate NoRepeat(s: string, c: char) {
    forall i :: 0 <= i < |s| - 1 ==> !(s[i] == c && s[i + 1] == c)
  }

  /** Every run of `c` in `s` shortened to a single `c` (`re.sub("c+", "c", s)`). */
  function Squeeze(s: string, c: char): (r: string)
    ensures |r| <= |s|
    ensures NoRepeat(r, c)
    ensures |s| > 0 ==> |r| > 0 && r[0] == s[0] && r[|r| - 1] == s[|s| - 1]
    ensures NoRepeat(s, c) ==> r == s
  {
    if |s| <= 1 then s
    else if s[0] == c && s[1] == c then Squeeze(s[1..], c)
    else
      var rest := Squeeze(s[1..], c);
      assert NoRepeat(s, c) ==> NoRepeat(s[1..], c);
      [s[0]] + rest
  }

  /** A character other than `c` keeps its count through `Squeeze`. */
  lemma {:induction false} SqueezeCount(s: string, c: char, d: char)
    requires d != c
    ensures multiset(Squeeze(s, c))[d] == multiset(s)[d]
  {
    if |s| > 1 {
      SqueezeCount(s[1..], c, d);
      assert s == [s[0]] + s[1..];
      assert multiset(s) == multiset([s[0]]) + multiset(s[1..]);
      if !(s[0] == c && s[1] == c) {
        var rest := Squeeze(s[1..], c);
        assert Squeeze(s, c) == [s[0]] + rest;
        assert multiset(Squeeze(s, c)) == multiset([s[0]]) + multiset(rest);
      }
    }
  }

  /** `Squeeze` brings in no character that `s` lacks. */
  lemma {:induction false} SqueezeWithin(s: string, c: char, cs: set<char>)
    requires OnlyOf(s, cs)
    ensures OnlyOf(Squeeze(s, c), cs)
  {
    if |s| > 1 {
      SqueezeWithin(s[1..], c, cs);
    }
  }

  /** `Squeeze` brings in no character from `cs` that `s` lacks. */
  lemma {:induction false} SqueezeAvoids(s: string, c: char, cs: set<char>)
    requires NoneOf(s, cs)
    ensures NoneOf(Squeeze(s, c), cs)
  {
    if |s| > 1 {
      SqueezeAvoids(s[1..], c, cs);
    }
  }

  /** `s` without its leading characters from `cs` (`s.lstrip(cs)`). */
  function StripLeft(s: string, cs: set<char>): (r: string)
    ensures |r| <= |s|
  {
    if s != [] && s[0] in cs then StripLeft(s[1..], cs) else s
  }

  /** `lstrip` keeps a suffix and drops only characters from `cs`. */
  lemma {:induction false} StripLeftFacts(s: string, cs: set<char>)
    ensures var r := StripLeft(s, cs);
      && r == s[|s| - |r|..]
      && (r == [] || r[0] !in cs)
      && OnlyOf(s[..|s| - |r|], cs)
  {
    if s != [] && s[0] in cs {
      StripLeftFacts(s[1..], cs);
      var r := StripLeft(s, cs);
      assert s[..|s| - |r|] == [s[0]] + s[1..][..|s| - 1 - |r|];
    }
  }

  /** `s` without its trailing characters from `cs` (`s.rstrip(cs)`). */
  function StripRight(s: string, cs: set<char>): (r: string)
    ensures |r| <= |s|
  {
    if s != [] && s[|s| - 1] in cs then StripRight(s[..|s| - 1], cs) else s
  }

  /** `rstrip` keeps a prefix and drops only characters from `cs`. */
  lemma {:induction false} StripRightFacts(s: string, cs: set<char>)
    ensures var r := StripRight(s, cs);
      && r == s[..|r|]
      && (r == [] || r[|r| - 1] !in cs)
      && OnlyOf(s[|r|..], cs)
  {
    if s != [] && s[|s| - 1] in cs {
      StripRightFacts(s[..|s| - 1], cs);
      var r := StripRight(s, cs);
      assert s[|r|..] == s[..|s| - 1][|r|..] + [s[|s| - 1]];
    }
  }

  /** `s.strip(cs)`: both ends of `s` cleared of characters from `cs`. */
  function StripChars(s: string, cs: set<char>): string {
    StripRight(StripLeft(s, cs), cs)
  }

  /** What `strip` promises: never longer, no character of `cs` at either
      end, and a first character outside `cs` stays first. */
  lemma StripCharsEnds(s: string, cs: set<char>)
    ensures var r := StripChars(s, cs);
      && |r| <= |s|
      && (r == [] || (r[0] !in cs && r[|r| - 1] !in cs))
      && (s != [] && s[0] !in cs ==> r != [] && r[0] == s[0])
  {
    var l := StripLeft(s, cs);
    StripLeftFacts(s, cs);
    StripRightFacts(l, cs);
    if s != [] && s[0] !in cs {
      assert l == s;
    }
  }

  /** `strip` leaves a string with no character of `cs` at either end as it is. */
  lemma StripCharsKeepsAll(s: string, cs: set<char>)
    requires s == [] || (s[0] !in cs && s[|s| - 1] !in cs)
    ensures StripChars(s, cs) == s
  {
    assert StripLeft(s, cs) == s;
  }

  /** Stripping a string made only of characters from `cs` leaves nothing. */
  lemma {:induction false} StripCharsOnlyOf(s: string, cs: set<char>)
    requires OnlyOf(s, cs)
    ensures StripChars(s, cs) == []
  {
    if s != [] {
      StripCharsOnlyOf(s[1..], cs);
      assert StripLeft(s, cs) == StripLeft(s[1..], cs);
    }
  }

  /** `StripChars` keeps a contiguous slice of `s`, starting at `a`, and
      everything it drops is from `cs`. */
  lemma StripCharsSlice(s: string, cs: set<char>) returns (a: nat)
    ensures a + |StripChars(s, cs)| <= |s|
    ensures StripChars(s, cs) == s[a..a + |StripChars(s, cs)|]
    ensures OnlyOf(s[..a], cs) && OnlyOf(s[a + |StripChars(s, cs)|..], cs)
  {
    var l := StripLeft(s, cs);
    a := |s| - |l|;
    var r := StripRight(l, cs);
    StripLeftFacts(s, cs);
    StripRightFacts(l, cs);
    assert StripChars(s, cs) == r;
    SliceOfSuffix(s, a, l, |r|);
  }

  /** Slices of the suffix `l == s[a..]` are slices of `s`. */
  lemma SliceOfSuffix(s: string, a: nat, l: string, k: nat)
    requires a <= |s| && l == s[a..] && k <= |l|
    ensures s[a + k..] == l[k..] && s[a..a + k] == l[..k]
  {
  }

  /** A character outside `cs` keeps its count through `StripChars`. */
  lemma StripCharsCount(s: string, cs: set<char>, c: char)
    requires c !in cs
    ensures multiset(StripChars(s, cs))[c] == multiset(s)[c]
  {
    var a := StripCharsSlice(s, cs);
    var r := StripChars(s, cs);
    var b := a + |r|;
    assert s == s[..a] + r + s[b..];
    assert c !in s[..a] && c !in s[b..];
  }

  /** Python's `str.isspace()` on one character. */
  predicate IsSpace(c: char) {
    || '\t' <= c <= '\r'
    || '\U{1C}' <= c <= ' '
    || c == '\U{85}' || c == '\U{A0}' || c == '\U{1680}'
    || '\U{2000}' <= c <= '\U{200A}'
    || c == '\U{2028}' || c == '\U{2029}' || c == '\U{202F}' || c == '\U{205F}' || c == '\U{3000}'
  }

  /** The characters for which Python's `str.isspace()` holds. */
  const Whitespace: set<char> := set c: char | '\t' <= c <= '\U{3000}' && IsSpace(c)

  /** `s.strip()` with no argument. */
  function Strip(s: string): string {
    StripChars(s, Whitespace)
  }

  /** `s.split(sep)` for a one-character separator. */
  function Split(s: string, sep: char): (parts: seq<string>)
    ensures |parts| >= 1
    ensures forall k :: 0 <= k < |parts| ==> sep !in parts[k]
  {
    if s == [] then [[]]
    else
      var rest := Split(s[1..], sep);
      if s[0] == sep then [[]] + rest else [[s[0]] + rest[0]] + rest[1..]
  }

  /** `sep.join(parts)`. */
  function Join(parts: seq<string>, sep: string): string {
    if parts == [] then []
    else if |parts| == 1 then parts[0]
    else parts[0] + sep + Join(parts[1..], sep)
  }

  /** `f` applied to each element of `s` (`[f(x) for x in s]`). */
  function MapSeq<A, B>(f: A -> B, s: seq<A>): (r: seq<B>)
    ensures |r| == |s|
  {
    if s == [] then [] else [f(s[0])] + MapSeq(f, s[1..])
  }

  /** Mapping distributes over concatenation. */
  lemma MapSeqConcat<A, B>(f: A -> B, a: seq<A>, b: seq<A>)
    ensures MapSeq(f, a + b) == MapSeq(f, a) + MapSeq(f, b)
  {
    var l, r := MapSeq(f, a + b), MapSeq(f, a) + MapSeq(f, b);
    forall i | 0 <= i < |l| ensures l[i] == r[i] {
      MapSeqAt(f, a + b, i);
      if i < |a| {
        MapSeqAt(f, a, i);
      } else {
        MapSeqAt(f, b, i - |a|);
      }
    }
  }

  /** The element at `i` of the mapped sequence is `f` of the element at `i`. */
  lemma {:induction false} MapSeqAt<A, B>(f: A -> B, s: seq<A>, i: nat)
    requires i < |s|
    ensures MapSeq(f, s)[i] == f(s[i])
    decreases i
  {
    if i > 0 {
      MapSeqAt(f, s[1..], i - 1);
    }
  }

  /** Each element of `parts` passed through `Strip` (`[p.strip() for p in parts]`). */
  function StripEach(parts: seq<string>): seq<string> {
    MapSeq(Strip, parts)
  }

  /** The line boundaries of Python's `str.splitlines()`. */
  const PythonLineBreaks: set<char> :=
    {'\n', '\r', '\U{0B}', '\U{0C}', '\U{1C}', '\U{1D}', '\U{1E}', '\U{85}', '\U{2028}', '\U{2029}'}

  /** The index of the first character of `s` in `breaks`, or `|s|`. */
  function LineEnd(s: string, breaks: set<char>): (e: nat)
    ensures e <= |s|
    ensures e < |s| ==> s[e] in breaks
  {
    if s == [] || s[0] in breaks then 0 else 1 + LineEnd(s[1..], breaks)
  }

  /** The first line holds no line boundary. */
  lemma {:induction false} FirstLineHasNoBreaks(s: string, breaks: set<char>)
    ensures NoneOf(s[..LineEnd(s, breaks)], breaks)
  {
    if s != [] && s[0] !in breaks {
      FirstLineHasNoBreaks(s[1..], breaks);
      assert s[..LineEnd(s, breaks)] == [s[0]] + s[1..][..LineEnd(s[1..], breaks)];
    }
  }

  /** Where the line after a boundary at `e` begins: `\r\n` is one boundary. */
  function NextLineStart(s: string, e: nat): (next: nat)
    requires e <= |s|
    ensures e <= next <= |s|
  {
    if e == |s| then e
    else if s[e] == '\r' && e + 1 < |s| && s[e + 1] == '\n' then e + 2
    else e + 1
  }

  /** `s.splitlines()` for the line boundaries `breaks`: the text between
      boundaries, where `\r\n` counts as one boundary and a boundary at the
      very end does not start another line. */
  function SplitLines(s: string, breaks: set<char>): (lines: seq<string>)
    ensures lines == [] <==> s == []
    decreases |s|
  {
    if s == [] then []
    else
      var e := LineEnd(s, breaks);
      [s[..e]] + SplitLines(s[NextLineStart(s, e)..], breaks)
  }

  /** No line that `SplitLines` returns holds a line boundary. */
  lemma {:induction false} SplitLinesHaveNoBreaks(s: string, breaks: set<char>)
    ensures forall k :: 0 <= k < |SplitLines(s, breaks)| ==> NoneOf(SplitLines(s, breaks)[k], breaks)
    decreases |s|
  {
    if s != [] {
      SplitLinesHaveNoBreaks(s[NextLineStart(s, LineEnd(s, breaks))..], breaks);
      FirstLineHasNoBreaks(s, breaks);
    }
  }

  /** The decimal digit for `d`. */
  function Digit(d: nat): char
    requires d < 10
  {
    ('0' as int + d) as char
  }

  predicate IsDigit(c: char) {
    '0' as int <= c as int <= '9' as int
  }

  /** `str(n)` for a non-negative integer. */
  function NatToString(n: nat): (s: string)
    ensures |s| >= 1
    ensures forall i :: 0 <= i < |s| ==> IsDigit(s[i])
  {
    if n < 10 then [Digit(n)] else NatToString(n / 10) + [Digit(n % 10)]
  }

  /** `int(s)` for a string of decimal digits; the inverse of `NatToString`. */
  function ParseNat(s: string): nat
    requires forall i :: 0 <= i < |s| ==> IsDigit(s[i])
  {
    if s == [] then 0
    else
      assert IsDigit(s[|s| - 1]);
      ParseNat(s[..|s| - 1]) * 10 + (s[|s| - 1] as int - '0' as int)
  }

  // ---------------------------------------------------------------- lemmas

  /** Rendering an integer and parsing it back gives the integer again. */
  lemma {:induction false} ParseNatToString(n: nat)
    ensures ParseNat(NatToString(n)) == n
  {
    var s := NatToString(n);
    if n >= 10 {
      ParseNatToString(n / 10);
      assert s[..|s| - 1] == NatToString(n / 10);
    }
  }

  /** Distinct integers have distinct decimal renderings. */
  lemma NatToStringInjective(m: nat, n: nat)
    requires NatToString(m) == NatToString(n)
    ensures m == n
  {
    ParseNatToString(m);
    ParseNatToString(n);
  }

  /** Splitting a string that begins with a separator-free `w`: `w` joins the
      first part and the other parts are those of the rest. */
  lemma {:induction false} SplitAfterPrefix(w: string, t: string, sep: char)
    requires sep !in w
    ensures Split(w + t, sep) == [w + Split(t, sep)[0]] + Split(t, sep)[1..]
  {
    var tail := Split(t, sep);
    if w == [] {
      assert w + t == t;
      assert w + tail[0] == tail[0];
      assert tail == [tail[0]] + tail[1..];
    } else {
      SplitAfterPrefix(w[1..], t, sep);
      assert (w + t)[0] == w[0];
      assert (w + t)[1..] == w[1..] + t;
      var rest := Split(w[1..] + t, sep);
      assert rest[0] == w[1..] + tail[0];
      assert rest[1..] == tail[1..];
      assert [w[0]] + (w[1..] + tail[0]) == w + tail[0];
    }
  }

  /** Joining a first part in front of further parts. */
  lemma JoinCons(first: string, rest: seq<string>, sep: string)
    ensures Join([first] + rest, sep) == if rest == [] then first else first + sep + Join(rest, sep)
  {
    assert ([first] + rest)[1..] == rest;
  }

  /** Joining the parts of a split with the separator gives back the string. */
  lemma {:induction false} JoinSplit(s: string, sep: char)
    ensures Join(Split(s, sep), [sep]) == s
  {
    if s != [] {
      JoinSplit(s[1..], sep);
      var rest := Split(s[1..], sep);
      if s[0] != sep {
        if |rest| > 1 {
          assert ([s[0]] + rest[0]) + [sep] + Join(rest[1..], [sep])
              == [s[0]] + (rest[0] + [sep] + Join(rest[1..], [sep]));
        }
        assert s == [s[0]] + s[1..];
      } else {
        assert s == [sep] + s[1..];
      }
    }
  }

  /** Splitting a join of separator-free parts gives back the parts. */
  lemma {:induction false} SplitJoin(parts: seq<string>, sep: char)
    requires |parts| >= 1
    requires forall k :: 0 <= k < |parts| ==> sep !in parts[k]
    ensures Split(Join(parts, [sep]), sep) == parts
  {
    if |parts| == 1 {
      SplitAfterPrefix(parts[0], [], sep);
      assert parts[0] + [] == parts[0];
    } else {
      var rest := Join(parts[1..], [sep]);
      SplitJoin(parts[1..], sep);
      assert parts[0] + [sep] + rest == parts[0] + ([sep] + rest);
      SplitAfterPrefix(parts[0], [sep] + rest, sep);
      assert ([sep] + rest)[0] == sep;
      assert ([sep] + rest)[1..] == rest;
      assert Split([sep] + rest, sep) == [[]] + parts[1..];
      assert parts[0] + [] == parts[0];
      assert parts == [parts[0]] + parts[1..];
    }
  }

  /** Splitting at a separator right after a separator-free `w`. */
  lemma SplitAtFirst(w: string, t: string, sep: char)
    requires sep !in w
    ensures Split(w + [sep] + t, sep) == [w] + Split(t, sep)
  {
    var u := [sep] + t;
    assert w + [sep] + t == w + u;
    SplitAfterPrefix(w, u, sep);
    assert u[0] == sep && u[1..] == t;
    assert Split(u, sep) == [[]] + Split(t, sep);
    assert w + [] == w;
  }

  /** The first line of a text whose first boundary is a lone `\n` at `e`. */
  lemma {:induction false} SplitLinesAtNewline(s: string, breaks: set<char>, e: nat)
    requires e == LineEnd(s, breaks) && e < |s| - 1 && s[e] == '\n'
    ensures SplitLines(s, breaks) == [s[..e]] + SplitLines(s[e + 1..], breaks)
  {
    assert NextLineStart(s, e) == e + 1;
  }

  /** A suffix keeps what `NoneOf` says of the whole. */
  lemma NoneOfSuffix(s: string, cs: set<char>, k: nat)
    requires NoneOf(s, cs) && k <= |s|
    ensures NoneOf(s[k..], cs)
  {
    forall i | 0 <= i < |s| - k ensures s[k..][i] !in cs {
      assert s[k..][i] == s[k + i];
    }
  }

  /** `s` is the part before index `e`, the character at `e` and the rest. */
  lemma CutAt(s: string, e: nat)
    requires e < |s|
    ensures s == s[..e] + [s[e]] + s[e + 1..]
  {
    assert s == s[..e + 1] + s[e + 1..];
  }

  /** A non-empty string without a line boundary is one line. */
  lemma SplitLinesOfOneLine(s: string, breaks: set<char>)
    requires s != [] && LineEnd(s, breaks) == |s|
    ensures SplitLines(s, breaks) == [s]
  {
    assert s[..|s|] == s && s[|s|..] == [];
  }

  /** A string without the separator splits into itself alone. */
  lemma SplitWithoutSeparator(s: string, sep: char)
    requires sep !in s
    ensures Split(s, sep) == [s]
  {
    SplitAfterPrefix(s, [], sep);
    assert s + [] == s;
  }

  /** In such a text the first line holds no `\n` and ends at a `\n`, if anywhere. */
  lemma PlainFirstLine(s: string, breaks: set<char>)
    requires '\n' in breaks
    requires NoneOf(s, breaks - {'\n'})
    ensures var e := LineEnd(s, breaks);
      '\n' !in s[..e] && (e < |s| ==> s[e] == '\n')
  {
    var e := LineEnd(s, breaks);
    FirstLineHasNoBreaks(s, breaks);
    assert '\n' !in s[..e] by {
      forall j | 0 <= j < e ensures s[..e][j] != '\n' {
        assert s[..e][j] !in breaks;
      }
    }
  }

  /** A string whose only boundaries are single `\n`s, not at the end, is
      split into lines exactly as `str.split("\n")` splits it. */
  lemma {:induction false} SplitLinesOfPlainText(s: string, breaks: set<char>)
    requires '\n' in breaks
    requires s != [] && s[|s| - 1] != '\n'
    requires NoneOf(s, breaks - {'\n'})
    ensures SplitLines(s, breaks) == Split(s, '\n')
    decreases |s|
  {
    var e := LineEnd(s, breaks);
    PlainFirstLine(s, breaks);
    if e == |s| {
      SplitLinesOfOneLine(s, breaks);
      SplitWithoutSeparator(s, '\n');
    } else {
      var t := s[e + 1..];
      assert e < |s| - 1;
      SplitLinesAtNewline(s, breaks, e);
      NoneOfSuffix(s, breaks - {'\n'}, e + 1);
      SplitLinesOfPlainText(t, breaks);
      CutAt(s, e);
      SplitAtFirst(s[..e], t, '\n');
    }
  }
}
