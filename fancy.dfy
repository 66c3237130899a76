/**
 * tools/fancy.py: place curly quotes at given `line:char` positions of a
 * text file.  The file is an input (whether it exists, and its text) and
 * the text written back is part of the outcome.
 */
module Fancy {
  import opened Wrappers
  import opened PyText

  /** U+201C LEFT DOUBLE QUOTATION MARK */
  const LeftQuote: char := '\U{201C}'
  /** U+201D RIGHT DOUBLE QUOTATION MARK */
  const RightQuote: char := '\U{201D}'

  /** The quote a command writes; None for an unknown command. */
  function QuoteFor(cmd: string): (r: Option<char>)
    ensures r == Some(LeftQuote) <==> cmd == "left"
    ensures r == Some(RightQuote) <==> cmd == "right"
    ensures r == None <==> cmd != "left" && cmd != "right"
  {
    if cmd == "left" then Some(LeftQuote)
    else if cmd == "right" then Some(RightQuote)
    else None
  }

  /**
   * `line_num, col = map(int, pos.split(":"))`: None stands for the
   * ValueError raised when there are not exactly two parts or a part is not
   * an integer.
   */
  function ParsePosition(pos: string): Option<(int, int)> {
    var parts := Split(pos, ':');
    if |parts| != 2 then None
    else
      match (ParseInt(parts[0]), ParseInt(parts[1]))
      case (Some(l), Some(c)) => Some((l, c))
      case _ => None
  }

  /** Every pair of integers written as `l:c` parses back to itself, within `int()`'s digit limit. */
  lemma ParsePositionFormat(l: int, c: int)
    requires WithinDigitLimit(l) && WithinDigitLimit(c)
    ensures ParsePosition(FormatInt(l) + ":" + FormatInt(c)) == Some((l, c))
  {
    var a, b := FormatInt(l), FormatInt(c);
    assert a + ":" + b == a + [':'] + b;
    SplitAtFirst(a, ':', b);
    SplitNoSeparator(b, ':');
    ParseFormatInt(l);
    ParseFormatInt(c);
  }

  /** A position whose line number starts with U+001C..U+001F does not parse (`int()` does not skip it). */
  lemma LeadingSeparatorPosition(c: char, rest: string)
    requires '\U{1C}' <= c <= '\U{1F}'
    ensures ParsePosition([c] + rest) == None
  {
    var s := [c] + rest;
    assert s[1..] == rest;
    assert Split(s, ':')[0] == [c] + Split(rest, ':')[0];
    LeadingSeparatorRefused(c, Split(rest, ':')[0]);
  }

  /** A position that parses has exactly one colon. */
  lemma {:induction false} ParsePositionOneColon(pos: string)
    requires ParsePosition(pos).Some?
    ensures exists k :: 0 <= k < |pos| && pos[k] == ':' && ':' !in pos[..k] && ':' !in pos[k + 1..]
  {
    var parts := Split(pos, ':');
    JoinSplit(pos, ':');
    assert |parts| == 2;
    assert pos == parts[0] + [':'] + parts[1];
    var k := |parts[0]|;
    assert pos[..k] == parts[0] && pos[k + 1..] == parts[1];
  }

  /** 1-based line `l` and column `c` address a character of `lines`. */
  predicate InRange(lines: seq<string>, l: int, c: int) {
    1 <= l <= |lines| && 1 <= c <= |lines[l - 1]|
  }

  /** The position string `pos` parses and is in range: it places a quote. */
  predicate Effective(lines: seq<string>, pos: string) {
    var p := ParsePosition(pos);
    p.Some? && InRange(lines, p.value.0, p.value.1)
  }

  /** Same number of lines, and each line of the same length. */
  predicate SameShape(a: seq<string>, b: seq<string>) {
    |a| == |b| && forall i :: 0 <= i < |a| ==> |a[i]| == |b[i]|
  }

  /** One turn of the loop body: overwrite the character at `pos` if it is effective. */
  function Place(lines: seq<string>, ch: char, pos: string): (r: seq<string>)
    ensures SameShape(r, lines)
  {
    if Effective(lines, pos) then
      var (l, c) := ParsePosition(pos).value;
      lines[l - 1 := lines[l - 1][c - 1 := ch]]
    else lines
  }

  /** The lines after the loop has handled every position of `ps` in order. */
  function PlaceAll(lines: seq<string>, ch: char, ps: seq<string>): (r: seq<string>)
    ensures SameShape(r, lines)
  {
    if ps == [] then lines
    else Place(PlaceAll(lines, ch, ps[..|ps| - 1]), ch, ps[|ps| - 1])
  }

  /** The number of effective positions in `ps`. */
  function HitCount(lines: seq<string>, ps: seq<string>): (n: nat)
    ensures n <= |ps|
  {
    if ps == [] then 0
    else HitCount(lines, ps[..|ps| - 1]) + (if Effective(lines, ps[|ps| - 1]) then 1 else 0)
  }

  /** Some position of `ps` addresses line `i` and column `j` (0-based). */
  predicate Targeted(ps: seq<string>, i: int, j: int) {
    exists k :: 0 <= k < |ps| && ParsePosition(ps[k]) == Some((i + 1, j + 1))
  }

  lemma EffectiveSameShape(a: seq<string>, b: seq<string>, pos: string)
    requires SameShape(a, b)
    ensures Effective(a, pos) == Effective(b, pos)
  {
  }

  /**
   * The character at line `i`, column `j` after the loop is the quote if
   * some position addresses it and the original character otherwise: no
   * other character is written and nothing else moves.
   */
  lemma {:induction false} PlaceAllAt(lines: seq<string>, ch: char, ps: seq<string>, i: int, j: int)
    requires 0 <= i < |lines| && 0 <= j < |lines[i]|
    ensures PlaceAll(lines, ch, ps)[i][j] == if Targeted(ps, i, j) then ch else lines[i][j]
  {
    if ps != [] {
      var init, last := ps[..|ps| - 1], ps[|ps| - 1];
      PlaceAllAt(lines, ch, init, i, j);
      PlaceAt(PlaceAll(lines, ch, init), ch, last, i, j);
      TargetedSnoc(ps, i, j);
    }
  }

  /** One placement changes the addressed character only. */
  lemma PlaceAt(lines: seq<string>, ch: char, pos: string, i: int, j: int)
    requires 0 <= i < |lines| && 0 <= j < |lines[i]|
    ensures Place(lines, ch, pos)[i][j] == if ParsePosition(pos) == Some((i + 1, j + 1)) then ch else lines[i][j]
  {
  }

  /** The positions addressing a character are those of the prefix plus possibly the last one. */
  lemma TargetedSnoc(ps: seq<string>, i: int, j: int)
    requires ps != []
    ensures Targeted(ps, i, j) <==>
      Targeted(ps[..|ps| - 1], i, j) || ParsePosition(ps[|ps| - 1]) == Some((i + 1, j + 1))
  {
    if Targeted(ps[..|ps| - 1], i, j) {
      TargetedInit(ps, i, j);
    }
    if Targeted(ps, i, j) {
      TargetedSplit(ps, i, j);
    }
  }

  /** A position of the prefix addressing the character is one of the whole list. */
  lemma TargetedInit(ps: seq<string>, i: int, j: int)
    requires ps != [] && Targeted(ps[..|ps| - 1], i, j)
    ensures Targeted(ps, i, j)
  {
    var init := ps[..|ps| - 1];
    var k :| 0 <= k < |init| && ParsePosition(init[k]) == Some((i + 1, j + 1));
    assert ps[k] == init[k];
  }

  /** A position addressing the character is in the prefix or is the last one. */
  lemma TargetedSplit(ps: seq<string>, i: int, j: int)
    requires ps != [] && Targeted(ps, i, j)
    ensures Targeted(ps[..|ps| - 1], i, j) || ParsePosition(ps[|ps| - 1]) == Some((i + 1, j + 1))
  {
    var init := ps[..|ps| - 1];
    var k :| 0 <= k < |ps| && ParsePosition(ps[k]) == Some((i + 1, j + 1));
    if k < |init| {
      assert init[k] == ps[k];
      assert Targeted(init, i, j);
    } else {
      assert k == |ps| - 1;
    }
  }

  /** Every character of the result is the original one or the quote. */
  lemma PlaceAllWritesOnlyQuote(lines: seq<string>, ch: char, ps: seq<string>, i: int, j: int)
    requires 0 <= i < |lines| && 0 <= j < |lines[i]|
    ensures PlaceAll(lines, ch, ps)[i][j] in {lines[i][j], ch}
  {
    PlaceAllAt(lines, ch, ps, i, j);
  }

  /** Two position lists with the same elements give the same lines. */
  lemma PlaceAllOrderFree(lines: seq<string>, ch: char, ps: seq<string>, qs: seq<string>)
    requires forall p :: p in ps <==> p in qs
    ensures PlaceAll(lines, ch, ps) == PlaceAll(lines, ch, qs)
  {
    var a, b := PlaceAll(lines, ch, ps), PlaceAll(lines, ch, qs);
    forall i | 0 <= i < |lines|
      ensures a[i] == b[i]
    {
      forall j | 0 <= j < |lines[i]|
        ensures a[i][j] == b[i][j]
      {
        PlaceAllAt(lines, ch, ps, i, j);
        PlaceAllAt(lines, ch, qs, i, j);
        if Targeted(ps, i, j) {
          var k :| 0 <= k < |ps| && ParsePosition(ps[k]) == Some((i + 1, j + 1));
          assert ps[k] in qs;
          var k' :| 0 <= k' < |qs| && qs[k'] == ps[k];
        }
        if Targeted(qs, i, j) {
          var k :| 0 <= k < |qs| && ParsePosition(qs[k]) == Some((i + 1, j + 1));
          assert qs[k] in ps;
          var k' :| 0 <= k' < |ps| && ps[k'] == qs[k];
        }
      }
    }
  }

  /** Placing the same positions a second time changes nothing. */
  lemma PlaceAllIdempotent(lines: seq<string>, ch: char, ps: seq<string>)
    ensures PlaceAll(PlaceAll(lines, ch, ps), ch, ps) == PlaceAll(lines, ch, ps)
  {
    var once := PlaceAll(lines, ch, ps);
    var twice := PlaceAll(once, ch, ps);
    forall i | 0 <= i < |lines|
      ensures twice[i] == once[i]
    {
      forall j | 0 <= j < |lines[i]|
        ensures twice[i][j] == once[i][j]
      {
        PlaceAllAt(lines, ch, ps, i, j);
        PlaceAllAt(once, ch, ps, i, j);
      }
    }
  }

  /** A position that does not parse, or is out of range, changes neither the lines nor the count. */
  lemma IneffectiveIsSkipped(lines: seq<string>, ch: char, ps: seq<string>, pos: string)
    requires !Effective(lines, pos)
    ensures PlaceAll(lines, ch, ps + [pos]) == PlaceAll(lines, ch, ps)
    ensures HitCount(lines, ps + [pos]) == HitCount(lines, ps)
  {
    assert (ps + [pos])[..|ps|] == ps;
    EffectiveSameShape(PlaceAll(lines, ch, ps), lines, pos);
  }

  /** With no effective position, the lines come back unchanged. */
  lemma {:induction false} NoHitsNoChange(lines: seq<string>, ch: char, ps: seq<string>)
    requires HitCount(lines, ps) == 0
    ensures PlaceAll(lines, ch, ps) == lines
  {
    if ps != [] {
      NoHitsNoChange(lines, ch, ps[..|ps| - 1]);
      assert !Effective(lines, ps[|ps| - 1]);
    }
  }

  /**
   * The kept line terminator is addressable: every line but the last ends
   * in a line boundary, and naming the last column of a line overwrites it
   * (for "\r\n", the "\n").
   */
  lemma TerminatorOverwritten(text: string, ch: char, i: nat)
    requires i < |SplitLines(text)|
    requires WithinDigitLimit(i + 1) && WithinDigitLimit(|SplitLines(text)[i]|)
    ensures var line := SplitLines(text)[i];
      (i < |SplitLines(text)| - 1 ==> IsLineBoundary(line[|line| - 1])) &&
      PlaceAll(SplitLines(text), ch, [FormatInt(i + 1) + ":" + FormatInt(|line|)])[i][|line| - 1] == ch
  {
    var lines := SplitLines(text);
    var pos := FormatInt(i + 1) + ":" + FormatInt(|lines[i]|);
    ParsePositionFormat(i + 1, |lines[i]|);
    PlaceAllAt(lines, ch, [pos], i, |lines[i]| - 1);
    assert [pos][0] == pos;
  }

  /** The lines and the count after one more position. */
  lemma PlaceAllStep(lines: seq<string>, ch: char, ps: seq<string>, n: nat)
    requires n < |ps|
    ensures PlaceAll(lines, ch, ps[..n + 1]) == Place(PlaceAll(lines, ch, ps[..n]), ch, ps[n])
    ensures HitCount(lines, ps[..n + 1]) == HitCount(lines, ps[..n]) + if Effective(lines, ps[n]) then 1 else 0
  {
    assert ps[..n + 1][..n] == ps[..n];
  }

  /** An effective position replaces one line by its slices around the quote. */
  lemma PlaceHit(lines: seq<string>, ch: char, pos: string, l: int, c: int)
    requires ParsePosition(pos) == Some((l, c)) && InRange(lines, l, c)
    ensures Place(lines, ch, pos) == lines[l - 1 := lines[l - 1][..c - 1] + [ch] + lines[l - 1][c..]]
  {
    var line := lines[l - 1];
    assert line[..c - 1] + [ch] + line[c..] == line[c - 1 := ch];
  }

  /**
   * One turn of the loop body: parse `pos`, and when it is in range replace
   * its line by the slices around the quote; `hit` is whether the count
   * goes up.
   */
  method PlaceOne(lines: array<string>, ch: char, pos: string) returns (hit: bool)
    modifies lines
    ensures lines[..] == Place(old(lines[..]), ch, pos)
    ensures hit == Effective(old(lines[..]), pos)
  {
    ghost var before := lines[..];
    hit := false;
    var parsed := ParsePosition(pos);
    if parsed.Some? {
      var (lineNum, col) := parsed.value;
      var lineIdx, colIdx := lineNum - 1, col - 1;
      if 0 <= lineIdx < lines.Length {
        var line := lines[lineIdx];
        if 0 <= colIdx < |line| {
          PlaceHit(before, ch, pos, lineNum, col);
          lines[lineIdx] := line[..colIdx] + [ch] + line[colIdx + 1..];
          hit := true;
        }
      }
    }
  }

  /**
   * The `for pos in positions` loop over the list of lines, with the
   * in-place line replacement and the replacement count.
   */
  method PlaceQuotes(lines: array<string>, ch: char, positions: seq<string>) returns (count: nat)
    modifies lines
    ensures lines[..] == PlaceAll(old(lines[..]), ch, positions)
    ensures count == HitCount(old(lines[..]), positions)
  {
    ghost var original := lines[..];
    count := 0;
    for n := 0 to |positions|
      invariant lines[..] == PlaceAll(original, ch, positions[..n])
      invariant count == HitCount(original, positions[..n])
    {
      PlaceAllStep(original, ch, positions, n);
      EffectiveSameShape(lines[..], original, positions[n]);
      var hit := PlaceOne(lines, ch, positions[n]);
      if hit {
        count := count + 1;
      }
    }
    assert positions[..|positions|] == positions;
  }

  /** How a run ends; every outcome but Placed exits with status 1 and writes nothing. */
  datatype Outcome =
    | Usage                      // fewer than three arguments
    | UnknownCommand(cmd: string)
    | FileNotFound
    | Placed(text: string, count: nat)   // the text written back and the count reported

  /** The `sys.exit` status: 1 for the usage, unknown-command and file-not-found exits, else 0. */
  function ExitStatus(o: Outcome): int {
    if o.Placed? then 0 else 1
  }

  /**
   * `main`: `argv` is `sys.argv` (the script name first), `fileExists` is
   * `filepath.exists()` and `contents` is what `read_text` returns.
   */
  method Run(argv: seq<string>, fileExists: bool, contents: string) returns (o: Outcome)
    ensures |argv| < 4 ==> o == Usage
    ensures |argv| >= 4 && QuoteFor(argv[1]).None? ==> o == UnknownCommand(argv[1])
    ensures |argv| >= 4 && QuoteFor(argv[1]).Some? && !fileExists ==> o == FileNotFound
    ensures |argv| >= 4 && QuoteFor(argv[1]).Some? && fileExists ==>
      var lines := SplitLines(contents);
      o == Placed(Concat(PlaceAll(lines, QuoteFor(argv[1]).value, argv[3..])),
                  HitCount(lines, argv[3..]))
    ensures ExitStatus(o) == if |argv| >= 4 && QuoteFor(argv[1]).Some? && fileExists then 0 else 1
  {
    if |argv| < 4 {
      return Usage;
    }
    var cmd := argv[1];
    var positions := argv[3..];
    var quote := QuoteFor(cmd);
    if quote.None? {
      return UnknownCommand(cmd);
    }
    if !fileExists {
      return FileNotFound;
    }
    var split := SplitLines(contents);
    var lines := new string[|split|](k requires 0 <= k < |split| => split[k]);
    assert lines[..] == split;
    var count := PlaceQuotes(lines, quote.value, positions);
    o := Placed(Concat(lines[..]), count);
  }

  /**
   * What a successful run writes: a text of the original length, with at
   * most one quote per position, and the original text back when no
   * position was effective.
   */
  lemma PlacedText(contents: string, ch: char, positions: seq<string>)
    ensures var lines := SplitLines(contents);
      var out := Concat(PlaceAll(lines, ch, positions));
      |out| == |contents| &&
      HitCount(lines, positions) <= |positions| &&
      (HitCount(lines, positions) == 0 ==> out == contents)
  {
    var lines := SplitLines(contents);
    ConcatSplitLines(contents);
    ConcatSameShape(PlaceAll(lines, ch, positions), lines);
    if HitCount(lines, positions) == 0 {
      NoHitsNoChange(lines, ch, positions);
    }
  }
}
