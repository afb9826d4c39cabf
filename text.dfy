/**
 * The few `str` operations of Python 3 the core relies on: `find`,
 * `split(sep)`, `split()`, `strip()`, `replace` of one character, `isalpha`
 * and `int` of a run of ASCII digits.
 */
module Text {

  /** The characters `str.isspace` accepts, which `split()` and `strip()` remove. */
  predicate IsSpace(c: char) {
    || c == ' '
    || '\t' <= c <= '\r'
    || '\U{1C}' <= c <= '\U{1F}'
    || c == '\U{85}' || c == '\U{A0}' || c == '\U{1680}'
    || '\U{2000}' <= c <= '\U{200A}'
    || c == '\U{2028}' || c == '\U{2029}' || c == '\U{202F}' || c == '\U{205F}' || c == '\U{3000}'
  }

  // ---------------------------------------------------------------- find

  /** `needle` occurs in `hay` starting at index `i`. */
  predicate OccursAt(hay: string, needle: string, i: int) {
    0 <= i && i + |needle| <= |hay| && hay[i..i + |needle|] == needle
  }

  /** The scan behind `find`: the lowest index at or after `from` where `needle` occurs, or -1. */
  function FindFrom(hay: string, needle: string, from: nat): (r: int)
    ensures r == -1 || (from <= r && OccursAt(hay, needle, r))
    ensures forall j :: from <= j < r ==> !OccursAt(hay, needle, j)
    ensures r == -1 ==> forall j :: from <= j ==> !OccursAt(hay, needle, j)
    decreases |hay| - from
  {
    if OccursAt(hay, needle, from) then from
    else if from >= |hay| then -1
    else FindFrom(hay, needle, from + 1)
  }

  /** `hay.find(needle)`: the lowest index where `needle` occurs, or -1. */
  function Find(hay: string, needle: string): (r: int)
    ensures r == -1 || OccursAt(hay, needle, r)
    ensures forall j :: 0 <= j < r ==> !OccursAt(hay, needle, j)
    ensures r == -1 <==> forall j :: 0 <= j ==> !OccursAt(hay, needle, j)
  {
    FindFrom(hay, needle, 0)
  }

  /** `hay.find(needle) != -1`, the substring test the source writes out. */
  predicate Contains(hay: string, needle: string) {
    Find(hay, needle) != -1
  }

  lemma ContainsIff(hay: string, needle: string)
    ensures Contains(hay, needle) <==> exists j :: OccursAt(hay, needle, j)
  {
    if exists j :: OccursAt(hay, needle, j) {
      var j :| OccursAt(hay, needle, j);
      assert 0 <= j <= |hay|;
    }
  }

  // ---------------------------------------------------------------- split(sep)

  /** `s.split(sep)` for a one-character separator: every piece, empty ones included. */
  function Split(s: string, sep: char): (r: seq<string>)
    ensures |r| >= 1
    ensures forall k :: 0 <= k < |r| ==> sep !in r[k]
    decreases |s|
  {
    if |s| == 0 then [""]
    else
      var rest := Split(s[1..], sep);
      if s[0] == sep then [""] + rest
      else [[s[0]] + rest[0]] + rest[1..]
  }

  /** `sep.join(parts)` */
  function Join(parts: seq<string>, sep: char): string {
    if |parts| == 0 then ""
    else if |parts| == 1 then parts[0]
    else parts[0] + [sep] + Join(parts[1..], sep)
  }

  /** Splitting and joining again gives back the string. */
  lemma {:induction false} JoinSplit(s: string, sep: char)
    ensures Join(Split(s, sep), sep) == s
    decreases |s|
  {
    if |s| > 0 {
      var rest := Split(s[1..], sep);
      JoinSplit(s[1..], sep);
      if s[0] == sep {
        assert Split(s, sep) == [""] + rest;
        assert ([""] + rest)[1..] == rest;
        assert s == [s[0]] + s[1..];
      } else if |rest| == 1 {
        assert s == [s[0]] + rest[0];
      } else {
        assert Split(s, sep)[1..] == rest[1..];
        assert s == [s[0]] + (rest[0] + [sep] + Join(rest[1..], sep));
      }
    }
  }

  /** A string without the separator is one piece. */
  lemma {:induction false} SplitWithoutSeparator(s: string, sep: char)
    requires sep !in s
    ensures Split(s, sep) == [s]
    decreases |s|
  {
    if |s| > 0 {
      SplitWithoutSeparator(s[1..], sep);
      assert [s[0]] + s[1..] == s;
    }
  }

  /** Splitting at the first separator: the part before it, then the pieces of the rest. */
  lemma {:induction false} SplitAfterFirst(a: string, sep: char, b: string)
    requires sep !in a
    ensures Split(a + [sep] + b, sep) == [a] + Split(b, sep)
    decreases |a|
  {
    if |a| == 0 {
      assert a + [sep] + b == [sep] + b;
      assert ([sep] + b)[1..] == b;
    } else {
      SplitAfterFirst(a[1..], sep, b);
      assert (a + [sep] + b)[1..] == a[1..] + [sep] + b;
      assert [a[0]] + a[1..] == a;
    }
  }

  /** A non-empty string that splits into one piece is that piece. */
  lemma SplitSingle(s: string, sep: char)
    requires |Split(s, sep)| == 1
    ensures Split(s, sep)[0] == s
  {
    JoinSplit(s, sep);
  }

  // ---------------------------------------------------------------- split()

  /** `s.split()`: the maximal runs of non-whitespace characters, in order. */
  function Words(s: string): (r: seq<string>)
    ensures forall k :: 0 <= k < |r| ==> r[k] != "" && forall c :: c in r[k] ==> !IsSpace(c)
    ensures |s| > 0 && !IsSpace(s[0]) ==> |r| > 0 && r[0][0] == s[0]
    decreases |s|
  {
    if |s| == 0 then []
    else
      var rest := Words(s[1..]);
      if IsSpace(s[0]) then rest
      else if |s| > 1 && !IsSpace(s[1]) then [[s[0]] + rest[0]] + rest[1..]
      else [[s[0]]] + rest
  }

  /** A string without whitespace is one word. */
  lemma {:induction false} WordsOfWord(s: string)
    requires s != "" && forall c :: c in s ==> !IsSpace(c)
    ensures Words(s) == [s]
    decreases |s|
  {
    assert s[0] in s;
    if |s| == 1 {
      assert Words(s[1..]) == [];
      assert [s[0]] == s;
    } else {
      assert s[1] in s;
      WordsOfWord(s[1..]);
      assert [s[0]] + s[1..] == s;
      assert Words(s) == [[s[0]] + s[1..]];
    }
  }

  /** Whitespace before the first word is skipped. */
  lemma WordsSkipSpace(c: char, s: string)
    requires IsSpace(c)
    ensures Words([c] + s) == Words(s)
  {
    assert ([c] + s)[1..] == s;
  }

  /**
   * A word followed by whitespace is the first word, and the words of the
   * rest follow it: `split()` cuts at every run of whitespace.
   */
  lemma {:induction false} WordsCons(w: string, c: char, s: string)
    requires w != "" && forall x :: x in w ==> !IsSpace(x)
    requires IsSpace(c)
    ensures Words(w + [c] + s) == [w] + Words(s)
    decreases |w|
  {
    var t := w + [c] + s;
    assert t[0] == w[0] && w[0] in w;
    if |w| == 1 {
      assert t[1..] == [c] + s;
      WordsSkipSpace(c, s);
      assert [w[0]] == w;
    } else {
      assert w[1] in w;
      forall x | x in w[1..] ensures !IsSpace(x) {
        assert x in w;
      }
      assert t[1..] == w[1..] + [c] + s;
      WordsCons(w[1..], c, s);
      assert t[1] == w[1];
      assert [w[0]] + w[1..] == w;
    }
  }

  /** The words of "d m y": three whitespace-free words separated by blanks come back as they were. */
  lemma ThreeWords(w0: string, w1: string, w2: string)
    requires w0 != "" && forall x :: x in w0 ==> !IsSpace(x)
    requires w1 != "" && forall x :: x in w1 ==> !IsSpace(x)
    requires w2 != "" && forall x :: x in w2 ==> !IsSpace(x)
    ensures Words(w0 + " " + w1 + " " + w2) == [w0, w1, w2]
  {
    var tail := w1 + [' '] + w2;
    BlankJoined(w0, w1, w2);
    WordsOfWord(w2);
    WordsCons(w1, ' ', w2);
    WordsCons(w0, ' ', tail);
  }

  lemma BlankJoined(a: string, b: string, c: string)
    ensures a + " " + b + " " + c == a + [' '] + (b + [' '] + c)
  {
  }

  // ---------------------------------------------------------------- strip()

  /** The number of leading whitespace characters. */
  function LeadingSpaces(s: string): (k: nat)
    ensures k <= |s|
    ensures forall i :: 0 <= i < k ==> IsSpace(s[i])
    ensures k < |s| ==> !IsSpace(s[k])
    decreases |s|
  {
    if |s| > 0 && IsSpace(s[0]) then 1 + LeadingSpaces(s[1..]) else 0
  }

  /** The number of trailing whitespace characters. */
  function TrailingSpaces(s: string): (k: nat)
    ensures k <= |s|
    ensures forall i :: |s| - k <= i < |s| ==> IsSpace(s[i])
    ensures k < |s| ==> !IsSpace(s[|s| - 1 - k])
    decreases |s|
  {
    if |s| > 0 && IsSpace(s[|s| - 1]) then 1 + TrailingSpaces(s[..|s| - 1]) else 0
  }

  /** `r` is found at index `i` of `s` with only whitespace around it. */
  predicate StrippedAt(s: string, r: string, i: int) {
    && 0 <= i <= |s| - |r|
    && s[i..i + |r|] == r
    && (forall j :: 0 <= j < i ==> IsSpace(s[j]))
    && (forall j :: i + |r| <= j < |s| ==> IsSpace(s[j]))
  }

  /** `s.strip()`: `s` without its leading and trailing whitespace. */
  function Strip(s: string): (r: string)
    ensures r == "" || (!IsSpace(r[0]) && !IsSpace(r[|r| - 1]))
    ensures exists i :: StrippedAt(s, r, i)
  {
    var lead := LeadingSpaces(s);
    var t := s[lead..];
    var trail := TrailingSpaces(t);
    var r := t[..|t| - trail];
    assert s[lead..lead + |r|] == r;
    assert StrippedAt(s, r, lead);
    r
  }

  /** A string with no whitespace at either end is left as it is. */
  lemma StripUntouched(s: string)
    requires s == "" || (!IsSpace(s[0]) && !IsSpace(s[|s| - 1]))
    ensures Strip(s) == s
  {
    assert LeadingSpaces(s) == 0;
    assert TrailingSpaces(s) == 0;
  }

  /** Whitespace around a core with no whitespace at its ends is exactly what `strip()` removes. */
  lemma StripPadded(a: string, core: string, b: string)
    requires forall x :: x in a ==> IsSpace(x)
    requires forall x :: x in b ==> IsSpace(x)
    requires core != "" && !IsSpace(core[0]) && !IsSpace(core[|core| - 1])
    ensures Strip(a + core + b) == core
  {
    var s := a + core + b;
    var r := Strip(s);
    var i :| StrippedAt(s, r, i);
    var first, last := |a|, |a| + |core| - 1;
    assert s[first] == core[0] && s[last] == core[|core| - 1];
    forall j | 0 <= j < first ensures IsSpace(s[j]) {
      assert s[j] == a[j] && a[j] in a;
    }
    forall j | last < j < |s| ensures IsSpace(s[j]) {
      assert s[j] == b[j - last - 1] && b[j - last - 1] in b;
    }
    assert r != "";
    assert r[0] == s[i] && r[|r| - 1] == s[i + |r| - 1];
    assert s[first..last + 1] == core;
  }

  /** One blank on either side of a word is stripped. */
  lemma StripBlankAround(core: string, before: string, after: string)
    requires core != "" && !IsSpace(core[0]) && !IsSpace(core[|core| - 1])
    requires before == "" || before == " "
    requires after == "" || after == " "
    ensures Strip(before + core + after) == core
  {
    StripPadded(before, core, after);
  }

  /** "a - b" splits at its one '-'. */
  lemma DashPieces(a: string, b: string)
    requires '-' !in a && '-' !in b
    ensures Split(a + " - " + b, '-') == [a + " ", " " + b]
  {
    assert a + " - " + b == (a + " ") + ['-'] + (" " + b);
    SplitAfterFirst(a + " ", '-', " " + b);
    SplitWithoutSeparator(" " + b, '-');
  }

  /** Stripping the first piece of "a - b" gives back `a`. */
  lemma DashFirstStripped(a: string, b: string)
    requires '-' !in a && '-' !in b
    requires a != "" && !IsSpace(a[0]) && !IsSpace(a[|a| - 1])
    ensures Strip(Split(a + " - " + b, '-')[0]) == a
  {
    DashPieces(a, b);
    StripBlankAround(a, "", " ");
    assert "" + a + " " == a + " ";
  }

  /** Stripping the second piece of "a - b" gives back `b`. */
  lemma DashSecondStripped(a: string, b: string)
    requires '-' !in a && '-' !in b
    requires b != "" && !IsSpace(b[0]) && !IsSpace(b[|b| - 1])
    ensures |Split(a + " - " + b, '-')| == 2 && Strip(Split(a + " - " + b, '-')[1]) == b
  {
    DashPieces(a, b);
    StripBlankAround(b, " ", "");
    assert " " + b + "" == " " + b;
  }

  // ---------------------------------------------------------------- misc

  /** `s.replace(a, b)` for single characters. */
  function Replace(s: string, a: char, b: char): (r: string)
    ensures |r| == |s|
    ensures forall i :: 0 <= i < |s| ==> r[i] == if s[i] == a then b else s[i]
  {
    if |s| == 0 then "" else Replace(s[..|s| - 1], a, b) + [if s[|s| - 1] == a then b else s[|s| - 1]]
  }

  /** `s.isalpha()`: non-empty and every character a letter; what counts as a letter is Unicode's business. */
  predicate IsAlpha(s: string, isLetter: char -> bool) {
    |s| > 0 && forall i :: 0 <= i < |s| ==> isLetter(s[i])
  }

  predicate IsAsciiDigit(c: char) {
    '0' <= c <= '9'
  }

  predicate AllAsciiDigits(s: string) {
    forall i :: 0 <= i < |s| ==> IsAsciiDigit(s[i])
  }

  /** `int(s)` for a string of ASCII digits. */
  function DecimalValue(s: string): (n: nat)
    requires AllAsciiDigits(s)
  {
    if |s| == 0 then 0 else 10 * DecimalValue(s[..|s| - 1]) + (s[|s| - 1] as int - '0' as int)
  }
}
