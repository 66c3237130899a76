/**
 * The Python string built-ins that tools/fancy.py relies on:
 * `str.splitlines(keepends=True)`, `"".join`, `str.split(":")` and `int()`
 * on a decimal string, together with `str()` of an integer as the
 * inverse of `int()`.
 */
module PyText {
  import opened Wrappers

  // ---------------------------------------------------------------------
  // str.splitlines(keepends=True) and "".join

  /** The characters `str.splitlines` treats as line boundaries. */
  predicate IsLineBoundary(c: char) {
    c == '\n' || c == '\r' || c == '\U{0B}' || c == '\U{0C}' ||
    c == '\U{1C}' || c == '\U{1D}' || c == '\U{1E}' || c == '\U{85}' ||
    c == '\U{2028}' || c == '\U{2029}'
  }

  /**
   * No line boundary occurs in `s[..e]` except at its last index, or as the
   * "\r" of a "\r\n" that ends it.
   */
  predicate BoundaryOnlyAtEnd(s: string, e: nat)
    requires e <= |s|
  {
    forall j :: 0 <= j < e - 1 ==>
      !IsLineBoundary(s[j]) || (j == e - 2 && s[j] == '\r' && s[j + 1] == '\n')
  }

  /**
   * Scanning a line that started at index 0 from index `i`, the index just
   * past its terminator (or `|s|` for a last line without one).  "\r\n" is a
   * single two-character terminator.
   */
  function LineEnd(s: string, i: nat): (n: nat)
    requires i <= |s|
    requires forall j :: 0 <= j < i ==> !IsLineBoundary(s[j])
    ensures i <= n <= |s| && (i < |s| ==> i < n)
    ensures n == |s| || IsLineBoundary(s[n - 1])
    ensures BoundaryOnlyAtEnd(s, n)
    ensures n < |s| ==> !(s[n - 1] == '\r' && s[n] == '\n')
    decreases |s| - i
  {
    if i == |s| then i
    else if s[i] == '\r' && i + 1 < |s| && s[i + 1] == '\n' then i + 2
    else if IsLineBoundary(s[i]) then i + 1
    else LineEnd(s, i + 1)
  }

  /**
   * A line as `splitlines(keepends=True)` produces it: not empty, and no
   * boundary inside it except as its final character (or as the "\r" of a
   * final "\r\n").
   */
  predicate IsLine(line: string) {
    line != [] && BoundaryOnlyAtEnd(line, |line|)
  }

  /** The line ends in a boundary character. */
  predicate EndsInBoundary(line: string) {
    line != [] && IsLineBoundary(line[|line| - 1])
  }

  /** `a` ends in the "\r" and `b` starts with the "\n" of one "\r\n". */
  predicate SplitsCrLf(a: string, b: string) {
    a != [] && b != [] && a[|a| - 1] == '\r' && b[0] == '\n'
  }

  lemma PrefixBoundaryOnlyAtEnd(s: string, n: nat)
    requires n <= |s| && BoundaryOnlyAtEnd(s, n)
    ensures BoundaryOnlyAtEnd(s[..n], n)
  {
    var t := s[..n];
    forall j | 0 <= j < n - 1
      ensures !IsLineBoundary(t[j]) || (j == n - 2 && t[j] == '\r' && t[j + 1] == '\n')
    {
      assert t[j] == s[j] && t[j + 1] == s[j + 1];
    }
  }

  /**
   * `s.splitlines(keepends=True)`: every line but the last ends in a
   * boundary, and no "\r\n" is split between two lines.
   */
  function SplitLines(s: string): (lines: seq<string>)
    ensures forall k :: 0 <= k < |lines| ==> IsLine(lines[k])
    ensures forall k :: 0 <= k < |lines| - 1 ==> EndsInBoundary(lines[k])
    ensures forall k :: 0 <= k < |lines| - 1 ==> !SplitsCrLf(lines[k], lines[k + 1])
    ensures s == [] <==> lines == []
    ensures lines != [] ==> lines[0] <= s
    decreases |s|
  {
    if s == [] then []
    else
      var n := LineEnd(s, 0);
      PrefixBoundaryOnlyAtEnd(s, n);
      var rest := SplitLines(s[n..]);
      [s[..n]] + rest
  }

  /** `"".join(lines)` */
  function Concat(lines: seq<string>): string {
    if lines == [] then [] else lines[0] + Concat(lines[1..])
  }

  /** Splitting with kept line endings and rejoining gives the text back. */
  lemma {:induction false} ConcatSplitLines(s: string)
    ensures Concat(SplitLines(s)) == s
    decreases |s|
  {
    if s != [] {
      var n := LineEnd(s, 0);
      ConcatSplitLines(s[n..]);
      assert s[..n] + s[n..] == s;
    }
  }

  /**
   * A scan from `i` ends at `m` when `s[..m]` is a complete line: its only
   * boundary is at its end, and it does not stop inside a "\r\n".
   */
  lemma {:induction false} LineEndAt(s: string, i: nat, m: nat)
    requires i < m <= |s|
    requires forall j :: 0 <= j < i ==> !IsLineBoundary(s[j])
    requires BoundaryOnlyAtEnd(s, m)
    requires m == |s| || IsLineBoundary(s[m - 1])
    requires m < |s| ==> !(s[m - 1] == '\r' && s[m] == '\n')
    ensures LineEnd(s, i) == m
    decreases m - i
  {
    if s[i] == '\r' && i + 1 < |s| && s[i + 1] == '\n' {
      assert i != m - 1;
    } else if IsLineBoundary(s[i]) {
      if i < m - 1 {
        BoundaryBefore(s, m, i);
      }
    } else if i + 1 < m {
      LineEndAt(s, i + 1, m);
    }
  }

  /** A boundary before the last index of `s[..e]` can only be the "\r" of a final "\r\n". */
  lemma BoundaryBefore(s: string, e: nat, j: nat)
    requires e <= |s| && BoundaryOnlyAtEnd(s, e) && j < e - 1 && IsLineBoundary(s[j])
    ensures j == e - 2 && s[j] == '\r' && s[j + 1] == '\n'
  {
  }

  /** A line at the front of `s` keeps its only-at-the-end terminator inside `s`. */
  lemma LineInText(line: string, s: string)
    requires IsLine(line) && line <= s
    ensures BoundaryOnlyAtEnd(s, |line|)
  {
    forall j | 0 <= j < |line| - 1
      ensures !IsLineBoundary(s[j]) || (j == |line| - 2 && s[j] == '\r' && s[j + 1] == '\n')
    {
      assert s[j] == line[j] && s[j + 1] == line[j + 1];
    }
  }

  /**
   * `splitlines(keepends=True)` is the only split of a text into lines that
   * joins back to it, ends every line but the last in a boundary, and keeps
   * each "\r\n" together.
   */
  lemma {:induction false} SplitLinesUnique(s: string, ls: seq<string>)
    requires Concat(ls) == s
    requires forall k :: 0 <= k < |ls| ==> IsLine(ls[k])
    requires forall k :: 0 <= k < |ls| - 1 ==> EndsInBoundary(ls[k])
    requires forall k :: 0 <= k < |ls| - 1 ==> !SplitsCrLf(ls[k], ls[k + 1])
    ensures SplitLines(s) == ls
    decreases |ls|
  {
    if ls != [] {
      var line, rest := ls[0], ls[1..];
      var m := |line|;
      assert IsLine(line);
      assert s == line + Concat(rest);
      assert s[..m] == line;
      LineInText(line, s);
      if |ls| > 1 {
        assert IsLine(ls[1]) && EndsInBoundary(ls[0]) && !SplitsCrLf(ls[0], ls[1]);
        assert Concat(rest) == ls[1] + Concat(rest[1..]);
        assert s[m] == ls[1][0];
      }
      LineEndAt(s, 0, m);
      assert s[m..] == Concat(rest);
      SplitLinesUnique(s[m..], rest);
    }
  }

  /** Two lists of lines whose lines have the same lengths join to texts of equal length. */
  lemma {:induction false} ConcatSameShape(a: seq<string>, b: seq<string>)
    requires |a| == |b| && forall k :: 0 <= k < |a| ==> |a[k]| == |b[k]|
    ensures |Concat(a)| == |Concat(b)|
  {
    if a != [] {
      ConcatSameShape(a[1..], b[1..]);
    }
  }

  // ---------------------------------------------------------------------
  // str.split(sep) with an explicit separator

  function Split(s: string, sep: char): (parts: seq<string>)
    ensures |parts| >= 1
    ensures forall k :: 0 <= k < |parts| ==> sep !in parts[k]
  {
    if s == [] then [[]]
    else
      var rest := Split(s[1..], sep);
      if s[0] == sep then [[]] + rest
      else [[s[0]] + rest[0]] + rest[1..]
  }

  /** `sep.join(parts)` */
  function JoinWith(parts: seq<string>, sep: char): string
    requires |parts| >= 1
  {
    if |parts| == 1 then parts[0] else parts[0] + [sep] + JoinWith(parts[1..], sep)
  }

  /** Splitting on `sep` and joining with `sep` gives the string back. */
  lemma {:induction false} JoinSplit(s: string, sep: char)
    ensures JoinWith(Split(s, sep), sep) == s
  {
    if s != [] {
      JoinSplit(s[1..], sep);
      var rest := Split(s[1..], sep);
      if s[0] != sep && |rest| > 1 {
        assert Split(s, sep)[1..] == rest[1..];
      }
    }
  }

  /** A string with no separator in it is one part. */
  lemma {:induction false} SplitNoSeparator(s: string, sep: char)
    requires sep !in s
    ensures Split(s, sep) == [s]
  {
    if s != [] {
      SplitNoSeparator(s[1..], sep);
      assert [s[0]] + s[1..] == s;
    }
  }

  /** The first separator ends the first part. */
  lemma {:induction false} SplitAtFirst(a: string, sep: char, b: string)
    requires sep !in a
    ensures Split(a + [sep] + b, sep) == [a] + Split(b, sep)
  {
    if a == [] {
      assert a + [sep] + b == [sep] + b;
      assert ([sep] + b)[1..] == b;
    } else {
      SplitAtFirst(a[1..], sep, b);
      assert (a + [sep] + b)[1..] == a[1..] + [sep] + b;
      assert [a[0]] + a[1..] == a;
    }
  }

  // ---------------------------------------------------------------------
  // int() on a base-10 string, and str() of an int

  /**
   * The white space `int()` skips around a number: the ASCII characters
   * tab, line feed, vertical tab, form feed, carriage return and space, and
   * every non-ASCII character `str.isspace` accepts (CPython turns those into
   * spaces before parsing).  U+001C..U+001F pass `str.isspace` but are not
   * skipped.
   */
  predicate IsSpace(c: char) {
    ('\U{09}' <= c <= '\U{0D}') || c == ' ' ||
    c == '\U{85}' || c == '\U{A0}' || c == '\U{1680}' ||
    ('\U{2000}' <= c <= '\U{200A}') || c == '\U{2028}' || c == '\U{2029}' ||
    c == '\U{202F}' || c == '\U{205F}' || c == '\U{3000}'
  }

  function StripStart(s: string): (t: string)
    ensures t == [] || !IsSpace(t[0])
  {
    if s != [] && IsSpace(s[0]) then StripStart(s[1..]) else s
  }

  function StripEnd(s: string): (t: string)
    ensures t == [] || !IsSpace(t[|t| - 1])
  {
    if s != [] && IsSpace(s[|s| - 1]) then StripEnd(s[..|s| - 1]) else s
  }

  /** Stripping the end leaves a prefix. */
  lemma {:induction false} StripEndPrefix(s: string)
    ensures StripEnd(s) <= s
  {
    if s != [] && IsSpace(s[|s| - 1]) {
      StripEndPrefix(s[..|s| - 1]);
    }
  }

  /** Stripping the end stops at a non-space character. */
  lemma {:induction false} StripEndKeeps(s: string, k: nat)
    requires k < |s| && !IsSpace(s[k])
    ensures k < |StripEnd(s)|
  {
    if IsSpace(s[|s| - 1]) {
      StripEndKeeps(s[..|s| - 1], k);
    }
  }

  /** The white space `int()` skips at both ends. */
  function Strip(s: string): (t: string)
    ensures t == [] || (!IsSpace(t[0]) && !IsSpace(t[|t| - 1]))
  {
    var u := StripStart(s);
    StripEndPrefix(u);
    StripEnd(u)
  }

  /** Stripping the start leaves a suffix, and removes only white space. */
  lemma {:induction false} StripStartSuffix(s: string)
    ensures var t := StripStart(s);
      |t| <= |s| && t == s[|s| - |t|..] && forall k :: 0 <= k < |s| - |t| ==> IsSpace(s[k])
  {
    if s != [] && IsSpace(s[0]) {
      StripStartSuffix(s[1..]);
    }
  }

  /** Stripping the end removes only white space. */
  lemma {:induction false} StripEndRemovesSpace(s: string)
    ensures |StripEnd(s)| <= |s| && forall k :: |StripEnd(s)| <= k < |s| ==> IsSpace(s[k])
  {
    if s != [] && IsSpace(s[|s| - 1]) {
      StripEndRemovesSpace(s[..|s| - 1]);
    }
  }

  /**
   * What `Strip` keeps is a slice of `s` whose ends are not white space,
   * and everything it removes before and after that slice is white space.
   */
  lemma StripRemovesOnlySpace(s: string)
    ensures var i, t := |s| - |StripStart(s)|, Strip(s);
      0 <= i && i + |t| <= |s| && t == s[i..i + |t|] &&
      (forall k :: 0 <= k < i ==> IsSpace(s[k])) &&
      (forall k :: i + |t| <= k < |s| ==> IsSpace(s[k]))
  {
    var u := StripStart(s);
    var i := |s| - |u|;
    StripStartSuffix(s);
    StripEndPrefix(u);
    StripEndRemovesSpace(u);
    var t := Strip(s);
    assert t == u[..|t|];
    forall k | i + |t| <= k < |s|
      ensures IsSpace(s[k])
    {
      assert s[k] == u[k - i];
    }
  }

  predicate IsDigit(c: char) {
    '0' <= c <= '9'
  }

  function DigitValue(c: char): (d: nat)
    requires IsDigit(c)
    ensures d < 10
  {
    c as int - '0' as int
  }

  function DigitChar(d: nat): (c: char)
    requires d < 10
    ensures IsDigit(c) && DigitValue(c) == d
  {
    ('0' as int + d) as char
  }

  /**
   * The value of a run of ASCII digits in which single underscores may
   * separate digits (`1_000`), or None for anything else.
   */
  function DigitsValue(s: string): Option<nat> {
    if s == [] || !IsDigit(s[|s| - 1]) then None
    else if |s| == 1 then Some(DigitValue(s[0]))
    else
      var init := s[..|s| - 1];
      var head := if init[|init| - 1] == '_' then init[..|init| - 1] else init;
      match DigitsValue(head)
      case None => None
      case Some(v) => Some(10 * v + DigitValue(s[|s| - 1]))
  }

  /**
   * The most digits `int()` converts from a decimal string: the default of
   * `sys.get_int_max_str_digits()`; leading zeros count, underscores do not.
   */
  const MaxStrDigits: nat := 4300

  /** The number of ASCII digits in `s`. */
  function DigitCount(s: string): (n: nat)
    ensures n <= |s|
  {
    if s == [] then 0 else DigitCount(s[..|s| - 1]) + if IsDigit(s[|s| - 1]) then 1 else 0
  }

  /** A run of digits `int()` accepts: well-formed and within the digit limit. */
  function Decimal(s: string): Option<nat> {
    if DigitCount(s) > MaxStrDigits then None else DigitsValue(s)
  }

  /** `int(s)`: None stands for the ValueError it raises. */
  function ParseInt(s: string): Option<int> {
    var t := Strip(s);
    if t != [] && (t[0] == '-' || t[0] == '+') then
      match Decimal(t[1..])
      case None => None
      case Some(v) =>
        var x: int := if t[0] == '-' then -(v as int) else v;
        Some(x)
    else
      match Decimal(t)
      case None => None
      case Some(v) => Some(v)
  }

  function FormatNat(n: nat): (s: string)
    ensures s != [] && forall k :: 0 <= k < |s| ==> IsDigit(s[k])
  {
    if n < 10 then [DigitChar(n)] else FormatNat(n / 10) + [DigitChar(n % 10)]
  }

  /** `str(n)` */
  function FormatInt(n: int): (s: string)
    ensures ':' !in s
  {
    if n < 0 then "-" + FormatNat(-n) else FormatNat(n)
  }

  lemma {:induction false} DigitsValueFormatNat(n: nat)
    ensures DigitsValue(FormatNat(n)) == Some(n)
  {
    if n >= 10 {
      DigitsValueFormatNat(n / 10);
      var s := FormatNat(n);
      assert s[..|s| - 1] == FormatNat(n / 10);
    }
  }

  /** In a run of ASCII digits every character counts. */
  lemma {:induction false} DigitCountAllDigits(s: string)
    requires forall k :: 0 <= k < |s| ==> IsDigit(s[k])
    ensures DigitCount(s) == |s|
  {
    if s != [] {
      DigitCountAllDigits(s[..|s| - 1]);
    }
  }

  /** The integers whose decimal form `int()` reads back: at most MaxStrDigits digits. */
  predicate WithinDigitLimit(n: int) {
    |FormatNat(if n < 0 then -n else n)| <= MaxStrDigits
  }

  /** A string that starts and ends with a non-space is its own strip. */
  lemma StripUnspaced(s: string)
    requires s != [] && !IsSpace(s[0]) && !IsSpace(s[|s| - 1])
    ensures Strip(s) == s
  {
    assert StripStart(s) == s;
  }

  /** `int(d) == v` for an accepted run `d` of value `v` that starts and ends with a digit. */
  lemma ParseDigits(d: string, v: nat)
    requires d != [] && IsDigit(d[0]) && IsDigit(d[|d| - 1])
    requires Decimal(d) == Some(v)
    ensures ParseInt(d) == Some(v)
  {
    StripUnspaced(d);
  }

  /** `int(s)` for a stripped `s` that is a minus sign and an accepted run of value `v`. */
  lemma ParseMinus(s: string, v: nat)
    requires s != [] && s[0] == '-' && Strip(s) == s
    requires Decimal(s[1..]) == Some(v)
    ensures ParseInt(s) == Some(-(v as int))
  {
  }

  /** `int("-" + d) == -v` for an accepted run `d` of value `v` that ends with a digit. */
  lemma ParseNegativeDigits(d: string, v: nat)
    requires d != [] && IsDigit(d[|d| - 1])
    requires Decimal(d) == Some(v)
    ensures ParseInt("-" + d) == Some(-(v as int))
  {
    var s := "-" + d;
    assert s[0] == '-' && !IsSpace(s[0]);
    assert s[|s| - 1] == d[|d| - 1];
    StripUnspaced(s);
    assert s[1..] == d;
    ParseMinus(s, v);
  }

  /** The decimal form of a natural number within the limit is accepted with its value. */
  lemma DecimalFormatNat(n: nat)
    requires |FormatNat(n)| <= MaxStrDigits
    ensures Decimal(FormatNat(n)) == Some(n)
  {
    DigitCountAllDigits(FormatNat(n));
    DigitsValueFormatNat(n);
  }

  /** `int(str(n)) == n` for a natural number within the limit. */
  lemma ParseFormatNat(n: nat)
    requires |FormatNat(n)| <= MaxStrDigits
    ensures ParseInt(FormatNat(n)) == Some(n)
  {
    var d := FormatNat(n);
    DecimalFormatNat(n);
    assert IsDigit(d[0]) && IsDigit(d[|d| - 1]);
    ParseDigits(d, n);
  }

  /** `int("-" + str(n)) == -n` for a natural number within the limit. */
  lemma ParseFormatMinus(n: nat)
    requires |FormatNat(n)| <= MaxStrDigits
    ensures ParseInt("-" + FormatNat(n)) == Some(-(n as int))
  {
    var d := FormatNat(n);
    DecimalFormatNat(n);
    assert IsDigit(d[|d| - 1]);
    ParseNegativeDigits(d, n);
  }

  /** `int(str(n)) == n` for every integer of at most MaxStrDigits digits. */
  lemma ParseFormatInt(n: int)
    requires WithinDigitLimit(n)
    ensures ParseInt(FormatInt(n)) == Some(n)
  {
    if n < 0 {
      ParseFormatMinus(-n);
    } else {
      ParseFormatNat(n);
    }
  }

  /** A string of more than MaxStrDigits digits is refused, whatever its value. */
  lemma TooManyDigits(d: string)
    requires |d| > MaxStrDigits && forall k :: 0 <= k < |d| ==> IsDigit(d[k])
    ensures ParseInt(d) == None
  {
    assert IsDigit(d[0]) && IsDigit(d[|d| - 1]);
    StripUnspaced(d);
    DigitCountAllDigits(d);
  }

  /** An accepted run of digits starts with a digit. */
  lemma {:induction false} DigitsValueHead(s: string)
    requires DigitsValue(s).Some?
    ensures IsDigit(s[0])
  {
    if |s| > 1 {
      var init := s[..|s| - 1];
      var head := if init[|init| - 1] == '_' then init[..|init| - 1] else init;
      DigitsValueHead(head);
      assert head[0] == s[0];
    }
  }

  /**
   * A leading U+001C..U+001F is not skipped: `int()` refuses the string,
   * although `str.isspace` accepts the character.
   */
  lemma LeadingSeparatorRefused(c: char, d: string)
    requires '\U{1C}' <= c <= '\U{1F}'
    ensures ParseInt([c] + d) == None
  {
    var s := [c] + d;
    assert StripStart(s) == s;
    StripEndPrefix(s);
    StripEndKeeps(s, 0);
    var t := Strip(s);
    assert t != [] && t[0] == c;
    if DigitsValue(t).Some? {
      DigitsValueHead(t);
    }
  }
}
