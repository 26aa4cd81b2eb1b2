/** The few operations on Python `str` values that the CSV parser uses,
    over Dafny strings (sequences of Unicode scalar values). */
module Strings {
  import opened Options

  /** `str.isdigit()` on one character, restricted to the ASCII digits. */
  predicate IsDigit(c: char) {
    '0' <= c <= '9'
  }

  /** The characters for which Python's `str.isspace()` holds: these are what
      `str.strip()` and `str.split()` without arguments remove and split at. */
  predicate IsSpace(c: char) {
    var n := c as int;
    || 0x09 <= n <= 0x0D || 0x1C <= n <= 0x20 || n == 0x85 || n == 0xA0 || n == 0x1680
    || 0x2000 <= n <= 0x200A || n == 0x2028 || n == 0x2029 || n == 0x202F || n == 0x205F
    || n == 0x3000
  }

  /** The characters at which `str.splitlines()` ends a line; `\r\n` counts as one break. */
  predicate IsLineBreak(c: char) {
    var n := c as int;
    || 0x0A <= n <= 0x0D || 0x1C <= n <= 0x1E || n == 0x85 || n == 0x2028 || n == 0x2029
  }

  // ---------------------------------------------------------------------------
  // strip
  // ---------------------------------------------------------------------------

  /** `s.lstrip(chars)`: `s` without its longest prefix of characters that `drop` accepts. */
  function TrimLeft(s: string, drop: char -> bool): (r: string)
    ensures |r| <= |s|
  {
    if s != [] && drop(s[0]) then TrimLeft(s[1..], drop) else s
  }

  /** `s.rstrip(chars)`: `s` without its longest suffix of characters that `drop` accepts. */
  function TrimRight(s: string, drop: char -> bool): (r: string)
    ensures |r| <= |s|
  {
    if s != [] && drop(s[|s| - 1]) then TrimRight(s[..|s| - 1], drop) else s
  }

  /** `s.strip(chars)`. */
  function Trim(s: string, drop: char -> bool): (r: string)
    ensures |r| <= |s|
  {
    TrimRight(TrimLeft(s, drop), drop)
  }

  /** `s.strip()` with no argument. */
  function Strip(s: string): string {
    Trim(s, IsSpace)
  }

  /** `lstrip` keeps a suffix, removes only characters it was asked to remove, and stops at
      the first one it was not. */
  lemma {:induction false} TrimLeftSpec(s: string, drop: char -> bool)
    ensures var r := TrimLeft(s, drop);
      && r == s[|s| - |r|..]
      && (forall k :: 0 <= k < |s| - |r| ==> drop(s[k]))
      && (r != [] ==> !drop(r[0]))
  {
    if s != [] && drop(s[0]) {
      TrimLeftSpec(s[1..], drop);
    }
  }

  /** `rstrip` keeps a prefix, removes only characters it was asked to remove, and stops at
      the last one it was not. */
  lemma {:induction false} TrimRightSpec(s: string, drop: char -> bool)
    ensures var r := TrimRight(s, drop);
      && r == s[..|r|]
      && (forall k :: |r| <= k < |s| ==> drop(s[k]))
      && (r != [] ==> !drop(r[|r| - 1]))
  {
    if s != [] && drop(s[|s| - 1]) {
      TrimRightSpec(s[..|s| - 1], drop);
    }
  }

  /** What `strip` keeps is a slice of `s` that neither starts nor ends with a character it
      was asked to remove, and everything it cuts off is such a character. */
  lemma TrimSpec(s: string, drop: char -> bool)
    ensures exists i, j :: 0 <= i <= j <= |s| && Trim(s, drop) == s[i..j]
              && (forall k :: 0 <= k < i ==> drop(s[k]))
              && (forall k :: j <= k < |s| ==> drop(s[k]))
    ensures var r := Trim(s, drop); r != [] ==> !drop(r[0]) && !drop(r[|r| - 1])
  {
    var left := TrimLeft(s, drop);
    TrimLeftSpec(s, drop);
    TrimRightSpec(left, drop);
    var r := TrimRight(left, drop);
    var i := |s| - |left|;
    assert r == s[i..i + |r|];
  }

  /** A string that neither starts nor ends with a character to remove is left as it is. */
  lemma TrimUnchanged(s: string, drop: char -> bool)
    requires s != [] && !drop(s[0]) && !drop(s[|s| - 1])
    ensures Trim(s, drop) == s
  {
  }

  /** Stripping twice removes nothing more than stripping once. */
  lemma TrimIdempotent(s: string, drop: char -> bool)
    ensures Trim(Trim(s, drop), drop) == Trim(s, drop)
  {
    var t := Trim(s, drop);
    TrimSpec(s, drop);
    if t != [] {
      assert TrimLeft(t, drop) == t;
      assert TrimRight(t, drop) == t;
    }
  }

  // ---------------------------------------------------------------------------
  // find, replace, split
  // ---------------------------------------------------------------------------

  /** `s.find(c)` for a character that occurs in `s`. */
  function FirstIndex(s: string, c: char): (k: nat)
    requires c in s
    ensures k < |s| && s[k] == c && c !in s[..k]
  {
    if s[0] == c then 0 else 1 + FirstIndex(s[1..], c)
  }

  lemma FirstIndexAt(s: string, c: char, k: nat)
    requires k < |s| && s[k] == c && c !in s[..k]
    ensures FirstIndex(s, c) == k
  {
  }

  /** `s.replace(c, '', 1)`. */
  function RemoveFirst(s: string, c: char): string {
    if s == [] then []
    else if s[0] == c then s[1..]
    else [s[0]] + RemoveFirst(s[1..], c)
  }

  /** `replace(c, '', 1)` deletes the first occurrence of `c`, if any, and nothing else. */
  lemma {:induction false} RemoveFirstSpec(s: string, c: char)
    ensures c !in s ==> RemoveFirst(s, c) == s
    ensures c in s ==> RemoveFirst(s, c) == s[..FirstIndex(s, c)] + s[FirstIndex(s, c) + 1..]
  {
    if s == [] {
    } else if s[0] == c {
      assert s[..FirstIndex(s, c)] + s[FirstIndex(s, c) + 1..] == s[1..];
    } else {
      var tail := s[1..];
      assert s == [s[0]] + tail;
      RemoveFirstSpec(tail, c);
      if c in s {
        assert c in tail;
        var k' := FirstIndex(tail, c);
        assert FirstIndex(s, c) == 1 + k';
        calc {
          RemoveFirst(s, c);
          [s[0]] + RemoveFirst(tail, c);
          [s[0]] + (tail[..k'] + tail[k' + 1..]);
          { assert s[..1 + k'] == [s[0]] + tail[..k'];
            assert s[1 + k' + 1..] == tail[k' + 1..]; }
          s[..1 + k'] + s[1 + k' + 1..];
        }
      } else {
        assert c !in tail;
      }
    }
  }

  /** Deleting the first `c` takes exactly one `c` out of the characters of `s`, if there is one. */
  lemma {:induction false} RemoveFirstMultiset(s: string, c: char)
    ensures multiset(RemoveFirst(s, c)) == multiset(s) - multiset{c}
  {
    RemoveFirstSpec(s, c);
    if c in s {
      var k := FirstIndex(s, c);
      assert s == s[..k] + [c] + s[k + 1..];
      DropOne(s[..k], c, s[k + 1..]);
    } else {
      assert multiset(s)[c] == 0;
    }
  }

  lemma DropOne(before: string, c: char, after: string)
    ensures multiset(before + after) == multiset(before + [c] + after) - multiset{c}
  {
    var rest := multiset(before) + multiset(after);
    assert multiset(before + [c] + after) == rest + multiset{c};
    assert (rest + multiset{c}) - multiset{c} == rest;
  }

  /** `s.replace(a, b)` for single characters. */
  function ReplaceAll(s: string, a: char, b: char): (r: string)
    ensures |r| == |s|
  {
    if s == [] then [] else [if s[0] == a then b else s[0]] + ReplaceAll(s[1..], a, b)
  }

  /** Every `a` becomes `b`, and nothing else changes. */
  lemma {:induction false} ReplaceAllSpec(s: string, a: char, b: char)
    ensures forall k :: 0 <= k < |s| ==> ReplaceAll(s, a, b)[k] == if s[k] == a then b else s[k]
  {
    if s != [] {
      ReplaceAllSpec(s[1..], a, b);
      assert forall k :: 1 <= k < |s| ==> ReplaceAll(s, a, b)[k] == ReplaceAll(s[1..], a, b)[k - 1];
    }
  }

  /** `s.split(c, 1)` for a separator that occurs in `s`: the text before its first
      occurrence and the text after it. */
  function SplitFirst(s: string, c: char): (parts: (string, string))
    requires c in s
    ensures parts.0 + [c] + parts.1 == s
    ensures c !in parts.0
  {
    var k := FirstIndex(s, c);
    assert s == s[..k] + [c] + s[k + 1..];
    (s[..k], s[k + 1..])
  }

  /** `s.lower()` on ASCII letters; every other character is left as it is. */
  function LowerChar(c: char): char {
    if 'A' <= c <= 'Z' then (c as int + 32) as char else c
  }

  function Lower(s: string): (r: string)
    ensures |r| == |s|
  {
    if s == [] then [] else [LowerChar(s[0])] + Lower(s[1..])
  }

  lemma {:induction false} LowerSpec(s: string)
    ensures forall k :: 0 <= k < |s| ==> Lower(s)[k] == LowerChar(s[k])
  {
    if s != [] {
      LowerSpec(s[1..]);
      assert forall k :: 1 <= k < |s| ==> Lower(s)[k] == Lower(s[1..])[k - 1];
    }
  }

  /** The maximal run of non-whitespace characters at the start of `s`. */
  function Word(s: string): (w: string)
    ensures |w| <= |s|
  {
    if s == [] || IsSpace(s[0]) then [] else [s[0]] + Word(s[1..])
  }

  lemma {:induction false} WordSpec(s: string)
    ensures var w := Word(s);
      && w == s[..|w|]
      && (forall k :: 0 <= k < |w| ==> !IsSpace(w[k]))
      && (|w| == |s| || IsSpace(s[|w|]))
  {
    if s != [] && !IsSpace(s[0]) {
      WordSpec(s[1..]);
    }
  }

  /** `s.split()[0]`: the first whitespace-delimited word, or `None` where Python raises
      `IndexError` because `s` holds no word at all. */
  function FirstToken(s: string): Option<string> {
    var t := TrimLeft(s, IsSpace);
    if t == [] then None else Some(Word(t))
  }

  /** There is a first word exactly when some character is not whitespace; it is then a
      non-empty run of non-whitespace that starts at the first such character and ends at
      whitespace or at the end. */
  lemma FirstTokenSpec(s: string)
    ensures FirstToken(s).None? <==> forall k :: 0 <= k < |s| ==> IsSpace(s[k])
    ensures FirstToken(s).Some? ==> var w, t := FirstToken(s).value, TrimLeft(s, IsSpace);
      && w != [] && |w| <= |t| && w == t[..|w|]
      && t == s[|s| - |t|..]
      && (forall k :: 0 <= k < |s| - |t| ==> IsSpace(s[k]))
      && (forall k :: 0 <= k < |w| ==> !IsSpace(w[k]))
      && (|w| == |t| || IsSpace(t[|w|]))
  {
    var t := TrimLeft(s, IsSpace);
    TrimLeftSpec(s, IsSpace);
    WordSpec(t);
    if t != [] {
      assert s[|s| - |t|] == t[0];
    }
  }

  // ---------------------------------------------------------------------------
  // splitlines
  // ---------------------------------------------------------------------------

  predicate NoBreak(s: string) {
    forall k :: 0 <= k < |s| ==> !IsLineBreak(s[k])
  }

  /** Index of the first line break in `s`, or `|s|` when there is none. */
  function BreakIndex(s: string): (k: nat)
    ensures k <= |s| && NoBreak(s[..k])
    ensures k < |s| ==> IsLineBreak(s[k])
  {
    if s == [] || IsLineBreak(s[0]) then 0
    else
      var k := 1 + BreakIndex(s[1..]);
      assert s[..k] == [s[0]] + s[1..][..k - 1];
      k
  }

  /** `s.splitlines()`: the lines of `s` without their terminators; a final
      terminator does not open an empty last line. */
  function SplitLines(s: string): (lines: seq<string>)
    ensures forall k :: 0 <= k < |lines| ==> NoBreak(lines[k])
    decreases |s|
  {
    if s == [] then []
    else
      var k := BreakIndex(s);
      if k == |s| then [s]
      else
        [s[..k]] + SplitLines(s[AfterBreak(s, k)..])
  }

  /** Where the next line starts after the break at `k`: past `\r\n` as one break. */
  function AfterBreak(s: string, k: nat): (next: nat)
    requires k < |s|
    ensures k < next <= |s|
  {
    if s[k] == '\r' && k + 1 < |s| && s[k + 1] == '\n' then k + 2 else k + 1
  }

  lemma BreakIndexAt(s: string, k: nat)
    requires k < |s| && IsLineBreak(s[k]) && NoBreak(s[..k])
    ensures BreakIndex(s) == k
  {
  }

  /** A last line without a terminator is still a line. */
  lemma SplitLinesLast(line: string)
    requires line != [] && NoBreak(line)
    ensures SplitLines(line) == [line]
  {
    assert BreakIndex(line) == |line|;
  }

  /** `\r\n` ends a line as one break, so it opens no empty line. */
  lemma {:induction false} SplitLinesCrLf(line: string, rest: string)
    requires NoBreak(line)
    ensures SplitLines(line + "\r\n" + rest) == [line] + SplitLines(rest)
  {
    var s := line + "\r\n" + rest;
    assert s[|line|] == '\r' && s[|line| + 1] == '\n';
    assert s[..|line|] == line;
    assert s[|line| + 2..] == rest;
    BreakIndexAt(s, |line|);
  }

  /** Any single break character ends a line, unless it is a `\r` that a `\n` follows. */
  lemma {:induction false} SplitLinesBreak(line: string, c: char, rest: string)
    requires NoBreak(line) && IsLineBreak(c)
    requires c == '\r' ==> rest == [] || rest[0] != '\n'
    ensures SplitLines(line + [c] + rest) == [line] + SplitLines(rest)
  {
    var s := line + [c] + rest;
    assert s[|line|] == c;
    assert s[..|line|] == line;
    assert s[|line| + 1..] == rest;
    BreakIndexAt(s, |line|);
  }

  /** A line terminator as `splitlines` recognises it: one break character, or `\r\n`. */
  predicate IsTerminator(t: string) {
    t == "\r\n" || (|t| == 1 && IsLineBreak(t[0]))
  }

  /** Each line followed by its own terminator. */
  function Rejoin(lines: seq<string>, ends: seq<string>): string
    requires |ends| == |lines|
  {
    if lines == [] then [] else lines[0] + ends[0] + Rejoin(lines[1..], ends[1..])
  }

  /** Break-free lines with terminators that `splitlines` reads back as written: every line
      but the last has a terminator, the last may go without one only when it is not empty,
      and a lone `\r` is not followed by the `\n` it would form one `\r\n` with. */
  predicate WellEnded(lines: seq<string>, ends: seq<string>) {
    && |ends| == |lines|
    && (forall k :: 0 <= k < |lines| ==> NoBreak(lines[k]))
    && (forall k :: 0 <= k < |ends| - 1 ==> IsTerminator(ends[k]))
    && (|ends| > 0 ==> IsTerminator(ends[|ends| - 1]) || (ends[|ends| - 1] == [] && lines[|lines| - 1] != []))
    && (forall k :: 0 <= k < |ends| - 1 && ends[k] == "\r" ==>
          !(lines[k + 1] == [] && |ends[k + 1]| > 0 && ends[k + 1][0] == '\n'))
  }

  lemma WellEndedTail(lines: seq<string>, ends: seq<string>)
    requires WellEnded(lines, ends) && lines != []
    ensures WellEnded(lines[1..], ends[1..])
  {
    assert forall k :: 0 <= k < |lines| - 1 ==> lines[1..][k] == lines[k + 1] && ends[1..][k] == ends[k + 1];
  }

  /** One more line and its terminator in front of text that splits as `lines`. */
  lemma RejoinCons(line: string, end: string, rest: string, lines: seq<string>, ends: seq<string>)
    requires NoBreak(line) && IsTerminator(end) && WellEnded(lines, ends) && Rejoin(lines, ends) == rest
    requires end == "\r" ==> rest == [] || rest[0] != '\n'
    ensures WellEnded([line] + lines, [end] + ends)
    ensures Rejoin([line] + lines, [end] + ends) == line + end + rest
  {
    var ls, es := [line] + lines, [end] + ends;
    assert ls[1..] == lines && es[1..] == ends;
    if end == "\r" && lines != [] {
      assert rest == lines[0] + ends[0] + Rejoin(lines[1..], ends[1..]);
    }
    assert forall k :: 1 <= k < |ls| ==> ls[k] == lines[k - 1] && es[k] == ends[k - 1];
  }

  /** Splitting lines joined with their terminators gives the lines back, whatever mix of
      `\n`, `\r\n` and the other breaks ends them, and whether or not the last one is ended. */
  lemma {:induction false} SplitRejoin(lines: seq<string>, ends: seq<string>)
    requires WellEnded(lines, ends)
    ensures SplitLines(Rejoin(lines, ends)) == lines
  {
    if lines != [] {
      if ends[0] == [] {
        assert |lines| == 1;
        assert Rejoin(lines, ends) == lines[0] && lines == [lines[0]];
        SplitLinesLast(lines[0]);
      } else {
        WellEndedTail(lines, ends);
        SplitRejoin(lines[1..], ends[1..]);
        SplitRejoinStep(lines, ends);
      }
    }
  }

  /** The step of `SplitRejoin`: the first line and its terminator split off. */
  lemma SplitRejoinStep(lines: seq<string>, ends: seq<string>)
    requires WellEnded(lines, ends) && lines != [] && ends[0] != []
    ensures SplitLines(Rejoin(lines, ends)) == [lines[0]] + SplitLines(Rejoin(lines[1..], ends[1..]))
  {
    var line, end := lines[0], ends[0];
    var rest := Rejoin(lines[1..], ends[1..]);
    assert Rejoin(lines, ends) == line + end + rest;
    if end == "\r\n" {
      SplitLinesCrLf(line, rest);
    } else {
      if |lines| > 1 {
        assert rest == lines[1] + ends[1] + Rejoin(lines[2..], ends[2..]);
      }
      assert end == [end[0]];
      SplitLinesBreak(line, end[0], rest);
    }
  }

  /** The terminator `splitlines` drops after each line of `s`, or nothing after a last
      line that ends the text. */
  function LineEnds(s: string): (ends: seq<string>)
    decreases |s|
  {
    if s == [] then []
    else
      var k := BreakIndex(s);
      if k == |s| then [[]] else [s[k..AfterBreak(s, k)]] + LineEnds(s[AfterBreak(s, k)..])
  }

  /** Conversely, the text is its lines, each followed by the terminator it was split at. */
  lemma {:induction false} SplitLinesRejoin(s: string)
    ensures WellEnded(SplitLines(s), LineEnds(s))
    ensures Rejoin(SplitLines(s), LineEnds(s)) == s
    decreases |s|
  {
    if s != [] {
      var k := BreakIndex(s);
      if k == |s| {
        RejoinLastLine(s);
      } else {
        SplitLinesRejoin(s[AfterBreak(s, k)..]);
        RejoinFirstLine(s);
      }
    }
  }

  lemma RejoinLastLine(s: string)
    requires s != [] && BreakIndex(s) == |s|
    ensures WellEnded(SplitLines(s), LineEnds(s))
    ensures Rejoin(SplitLines(s), LineEnds(s)) == s
  {
    assert s[..|s|] == s;
    assert Rejoin([s], [[]]) == s;
  }

  lemma RejoinFirstLine(s: string)
    requires s != [] && BreakIndex(s) < |s|
    requires var rest := s[AfterBreak(s, BreakIndex(s))..];
      WellEnded(SplitLines(rest), LineEnds(rest)) && Rejoin(SplitLines(rest), LineEnds(rest)) == rest
    ensures WellEnded(SplitLines(s), LineEnds(s))
    ensures Rejoin(SplitLines(s), LineEnds(s)) == s
  {
    var k := BreakIndex(s);
    var rest := s[AfterBreak(s, k)..];
    var line, end := s[..k], s[k..AfterBreak(s, k)];
    SplitLinesUnfold(s);
    LineEndsUnfold(s);
    BreakTerminator(s, k);
    RejoinCons(line, end, rest, SplitLines(rest), LineEnds(rest));
  }

  lemma SplitLinesUnfold(s: string)
    requires s != [] && BreakIndex(s) < |s|
    ensures SplitLines(s) == [s[..BreakIndex(s)]] + SplitLines(s[AfterBreak(s, BreakIndex(s))..])
  {
  }

  lemma LineEndsUnfold(s: string)
    requires s != [] && BreakIndex(s) < |s|
    ensures LineEnds(s) == [s[BreakIndex(s)..AfterBreak(s, BreakIndex(s))]] + LineEnds(s[AfterBreak(s, BreakIndex(s))..])
  {
  }

  /** The text after the first line of `s` starts with one terminator. */
  lemma BreakTerminator(s: string, k: nat)
    requires k < |s| && IsLineBreak(s[k])
    ensures var next := AfterBreak(s, k);
      && s == s[..k] + s[k..next] + s[next..]
      && IsTerminator(s[k..next])
      && (s[k..next] == "\r" ==> s[next..] == [] || s[next..][0] != '\n')
  {
    var next := AfterBreak(s, k);
    if next == k + 2 {
      assert s[k..next] == "\r\n";
    } else {
      assert s[k..next] == [s[k]];
      assert next < |s| ==> s[next..][0] == s[k + 1];
    }
  }
}
