/**
 * The address reader: the text of the address file becomes the list of its
 * lines, each stripped of surrounding whitespace, in file order. Blank lines
 * are kept as empty strings.
 *
 * Reading happens in Python's text mode, so the file's "\r\n" and lone "\r"
 * line ends are first translated to "\n" (universal newlines); iteration then
 * yields each line with its "\n" still attached, and `str.strip()` removes
 * it together with any other whitespace at either end.
 */
module Addresses {
  import opened Sequences

  /** Python's `str.isspace` on one character: what `str.strip()` removes. */
  predicate IsSpace(c: char)
  {
    || c == ' '
    || ('\t' <= c <= '\r')
    || ('\U{1C}' <= c <= '\U{1F}')
    || c == '\U{85}' || c == '\U{A0}' || c == '\U{1680}'
    || ('\U{2000}' <= c <= '\U{200A}')
    || c == '\U{2028}' || c == '\U{2029}' || c == '\U{202F}' || c == '\U{205F}' || c == '\U{3000}'
  }

  /** The length of the longest all-whitespace prefix of `s`. */
  function LeadingSpaces(s: string): (n: nat)
    ensures n <= |s|
    ensures forall k :: 0 <= k < n ==> IsSpace(s[k])
    ensures n < |s| ==> !IsSpace(s[n])
  {
    if s == [] || !IsSpace(s[0]) then 0 else 1 + LeadingSpaces(s[1..])
  }

  /** The length of the longest all-whitespace suffix of `s`. */
  function TrailingSpaces(s: string): (n: nat)
    ensures n <= |s|
    ensures forall k :: |s| - n <= k < |s| ==> IsSpace(s[k])
    ensures n < |s| ==> !IsSpace(s[|s| - 1 - n])
  {
    if s == [] || !IsSpace(s[|s| - 1]) then 0 else 1 + TrailingSpaces(s[..|s| - 1])
  }

  /**
   * Python's `str.strip()` without arguments: the part of `s` left after
   * dropping whitespace at both ends.
   */
  function Strip(s: string): (r: string)
    ensures LeadingSpaces(s) + |r| <= |s|
    ensures r == s[LeadingSpaces(s)..LeadingSpaces(s) + |r|]
    ensures forall k :: LeadingSpaces(s) + |r| <= k < |s| ==> IsSpace(s[k])
    ensures r != [] ==> !IsSpace(r[0]) && !IsSpace(r[|r| - 1])
    ensures r == [] <==> forall k :: 0 <= k < |s| ==> IsSpace(s[k])
  {
    var a := LeadingSpaces(s);
    var t := s[a..];
    var r := t[..|t| - TrailingSpaces(t)];
    assert r != [] ==> r[0] == s[a];
    r
  }

  /** A string with no whitespace at either end is its own strip. */
  lemma {:induction false} StripClean(s: string)
    requires s == [] || (!IsSpace(s[0]) && !IsSpace(s[|s| - 1]))
    ensures Strip(s) == s
  {
  }

  /** Stripping twice is stripping once. */
  lemma {:induction false} StripIdempotent(s: string)
    ensures Strip(Strip(s)) == Strip(s)
  {
    StripClean(Strip(s));
  }

  /**
   * Universal-newline translation done by Python's text-mode reads: "\r\n"
   * and a lone "\r" both become "\n"; every other character is kept.
   */
  function Translate(raw: string): (t: string)
    ensures '\r' !in t
    ensures |t| <= |raw|
    decreases |raw|
  {
    if raw == [] then []
    else if raw[0] == '\r' then
      "\n" + Translate(if |raw| > 1 && raw[1] == '\n' then raw[2..] else raw[1..])
    else
      [raw[0]] + Translate(raw[1..])
  }

  /** The index just past the first line of `t`: past its first "\n", or |t| when there is none. */
  function LineEnd(t: string): (n: nat)
    requires t != []
    ensures 0 < n <= |t|
    ensures forall k :: 0 <= k < n - 1 ==> t[k] != '\n'
    ensures t[n - 1] == '\n' || n == |t|
  {
    if t[0] == '\n' || |t| == 1 then 1 else 1 + LineEnd(t[1..])
  }

  /**
   * The lines Python yields when iterating over a text file holding `t`:
   * each keeps its "\n"; only the last one may lack it.
   */
  function Lines(t: string): seq<string>
    decreases |t|
  {
    if t == [] then [] else var n := LineEnd(t); [t[..n]] + Lines(t[n..])
  }

  /** The lines of a text, concatenated in order, are the text. */
  lemma {:induction false} LinesFlatten(t: string)
    ensures Flatten(Lines(t)) == t
    decreases |t|
  {
    if t != [] {
      var n := LineEnd(t);
      LinesFlatten(t[n..]);
      assert Lines(t) == [t[..n]] + Lines(t[n..]);
      assert t[..n] + t[n..] == t;
    }
  }

  /** The lines of any text have the shape of lines. */
  lemma {:induction false} LinesShaped(t: string)
    ensures LineShaped(Lines(t))
    decreases |t|
  {
    if t != [] {
      var n := LineEnd(t);
      var rest := Lines(t[n..]);
      LinesShaped(t[n..]);
      var ls := Lines(t);
      assert ls == [t[..n]] + rest;
      assert forall k :: 1 <= k < |ls| ==> ls[k] == rest[k - 1];
    }
  }

  /**
   * The shape of the lines of a file: none is empty, none has a "\n" before
   * its last character, and all but the last end in "\n".
   */
  predicate LineShaped(ls: seq<string>)
  {
    && (forall k :: 0 <= k < |ls| ==> ls[k] != [])
    && (forall k, j :: 0 <= k < |ls| && 0 <= j < |ls[k]| - 1 ==> ls[k][j] != '\n')
    && (forall k :: 0 <= k < |ls| - 1 ==> ls[k][|ls[k]| - 1] == '\n')
  }

  /** How many times `c` occurs in `s`. */
  function Occurrences(s: string, c: char): nat
  {
    if s == [] then 0 else (if s[0] == c then 1 else 0) + Occurrences(s[1..], c)
  }

  /**
   * The number of lines of `t`: one per "\n", plus one for a final line
   * that has no "\n".
   */
  function LineCount(t: string): nat
  {
    Occurrences(t, '\n') + (if t != [] && t[|t| - 1] != '\n' then 1 else 0)
  }

  /** `read_addresses` on the file's contents (before newline translation). */
  function ReadAddresses(contents: string): (addresses: seq<string>)
    ensures |addresses| == LineCount(Translate(contents))
    ensures forall k :: 0 <= k < |addresses| ==>
      '\n' !in addresses[k] && '\r' !in addresses[k] &&
      (addresses[k] == [] || (!IsSpace(addresses[k][0]) && !IsSpace(addresses[k][|addresses[k]| - 1])))
  {
    var t := Translate(contents);
    var ls := Lines(t);
    LinesCount(t);
    LinesShaped(t);
    LinesFlatten(t);
    FlattenExcludes(ls, '\r');
    forall k | 0 <= k < |ls|
      ensures '\n' !in Strip(ls[k]) && '\r' !in Strip(ls[k])
    {
      StripLine(ls[k]);
    }
    StripEach(ls)
  }

  /** Each line stripped, in order. */
  function StripEach(ls: seq<string>): (r: seq<string>)
  {
    seq(|ls|, k requires 0 <= k < |ls| => Strip(ls[k]))
  }

  /** A character absent from a flattened sequence is absent from each piece. */
  lemma {:induction false} FlattenExcludes(ls: seq<string>, c: char)
    requires c !in Flatten(ls)
    ensures forall k :: 0 <= k < |ls| ==> c !in ls[k]
  {
    if ls != [] {
      FlattenExcludes(ls[1..], c);
      forall k | 1 <= k < |ls|
        ensures c !in ls[k]
      {
        assert ls[k] == ls[1..][k - 1];
      }
    }
  }

  /** Stripping one line of a translated file leaves no line-break character. */
  lemma {:induction false} StripLine(line: string)
    requires forall j :: 0 <= j < |line| - 1 ==> line[j] != '\n'
    requires '\r' !in line
    ensures '\n' !in Strip(line) && '\r' !in Strip(line)
  {
  }

  /** Lines(t) has exactly LineCount(t) elements. */
  lemma {:induction false} LinesCount(t: string)
    ensures |Lines(t)| == LineCount(t)
    decreases |t|
  {
    if t != [] {
      var n := LineEnd(t);
      var tail := t[n..];
      FirstLineOccurrences(t);
      if n < |t| {
        LinesCount(tail);
        assert tail[|tail| - 1] == t[|t| - 1];
      }
    }
  }

  /** Splitting off the first line: how many "\n" it holds and how many are left. */
  lemma {:induction false} FirstLineOccurrences(t: string)
    requires t != []
    ensures var n := LineEnd(t);
      Occurrences(t, '\n') == (if t[n - 1] == '\n' then 1 else 0) + Occurrences(t[n..], '\n')
  {
    var n := LineEnd(t);
    assert t[..n] + t[n..] == t;
    OccurrencesSplit(t[..n], t[n..], '\n');
    OccurrencesNoneButLast(t[..n]);
  }

  /** Occurrences of `c` in a concatenation add up. */
  lemma {:induction false} OccurrencesSplit(a: string, b: string, c: char)
    ensures Occurrences(a + b, c) == Occurrences(a, c) + Occurrences(b, c)
  {
    if a != [] {
      assert (a + b)[1..] == a[1..] + b;
      OccurrencesSplit(a[1..], b, c);
    } else {
      assert a + b == b;
    }
  }

  /** A string with no "\n" before its last character holds one "\n" if it ends in one, none otherwise. */
  lemma {:induction false} OccurrencesNoneButLast(s: string)
    requires s != []
    requires forall k :: 0 <= k < |s| - 1 ==> s[k] != '\n'
    ensures Occurrences(s, '\n') == if s[|s| - 1] == '\n' then 1 else 0
  {
    if |s| > 1 {
      OccurrencesNoneButLast(s[1..]);
    }
  }

  /** The translated text of a file that holds `xs` one per line: each line ends in "\n". */
  function Unlines(xs: seq<string>): string
  {
    if xs == [] then [] else xs[0] + "\n" + Unlines(xs[1..])
  }

  /** A line-friendly address: no line break inside and nothing for strip to remove. */
  predicate IsCleanLine(x: string)
  {
    '\n' !in x && '\r' !in x && (x == [] || (!IsSpace(x[0]) && !IsSpace(x[|x| - 1])))
  }

  /** The lines of Unlines(xs) are the elements of xs, each with its "\n". */
  lemma {:induction false} LinesOfUnlines(xs: seq<string>)
    requires forall k :: 0 <= k < |xs| ==> '\n' !in xs[k]
    ensures |Lines(Unlines(xs))| == |xs|
    ensures forall k :: 0 <= k < |xs| ==> Lines(Unlines(xs))[k] == xs[k] + "\n"
  {
    if xs != [] {
      var x, rest := xs[0], Unlines(xs[1..]);
      var t := x + "\n" + rest;
      assert Unlines(xs) == t;
      LineEndAfter(x, rest);
      assert t[..|x| + 1] == x + "\n" && t[|x| + 1..] == rest;
      LinesOfUnlines(xs[1..]);
      assert Lines(t) == [x + "\n"] + Lines(rest);
    }
  }

  /** The lines of Unlines(xs) + y, for a last line y with no "\n": the elements of xs, each with its "\n", then y. */
  lemma {:induction false} LinesOfUnlinesLast(xs: seq<string>, y: string)
    requires forall k :: 0 <= k < |xs| ==> '\n' !in xs[k]
    requires y != [] && '\n' !in y
    ensures |Lines(Unlines(xs) + y)| == |xs| + 1
    ensures forall k :: 0 <= k < |xs| ==> Lines(Unlines(xs) + y)[k] == xs[k] + "\n"
    ensures Lines(Unlines(xs) + y)[|xs|] == y
  {
    if xs == [] {
      assert Unlines(xs) + y == y;
      LinesOne(y);
    } else {
      var rest := Unlines(xs[1..]) + y;
      assert Unlines(xs) + y == xs[0] + "\n" + rest;
      LinesCons(xs[0], rest);
      LinesOfUnlinesLast(xs[1..], y);
    }
  }

  /** A non-empty text without "\n" is one line. */
  lemma {:induction false} LinesOne(y: string)
    requires y != [] && '\n' !in y
    ensures Lines(y) == [y]
  {
    assert LineEnd(y) == |y|;
    assert y[..|y|] == y;
  }

  /** A line ended by "\n" comes first, then the lines of the rest. */
  lemma {:induction false} LinesCons(x: string, rest: string)
    requires '\n' !in x
    ensures Lines(x + "\n" + rest) == [x + "\n"] + Lines(rest)
  {
    var t := x + "\n" + rest;
    LineEndAfter(x, rest);
    assert t[..|x| + 1] == x + "\n" && t[|x| + 1..] == rest;
  }

  /** The first line of x + "\n" + rest ends just past the "\n" when x has none. */
  lemma {:induction false} LineEndAfter(x: string, rest: string)
    requires '\n' !in x
    ensures LineEnd(x + "\n" + rest) == |x| + 1
  {
    var t := x + "\n" + rest;
    var n := LineEnd(t);
    assert t[|x|] == '\n';
  }

  /** Stripping each line of Unlines(xs) gives each element stripped, in order. */
  lemma {:induction false} StripEachUnlines(xs: seq<string>)
    requires forall k :: 0 <= k < |xs| ==> '\n' !in xs[k]
    ensures StripEach(Lines(Unlines(xs))) == seq(|xs|, k requires 0 <= k < |xs| => Strip(xs[k]))
  {
    var ls := Lines(Unlines(xs));
    LinesOfUnlines(xs);
    var r := StripEach(ls);
    forall k | 0 <= k < |xs|
      ensures r[k] == Strip(xs[k])
    {
      assert ls[k] == xs[k] + "\n";
      StripNewline(xs[k]);
    }
  }

  /** The "\n" at the end of a line is stripped with the rest of its trailing whitespace. */
  lemma {:induction false} StripNewline(x: string)
    requires '\n' !in x
    ensures Strip(x + "\n") == Strip(x)
  {
    var q := Strip(x);
    if q == [] {
      AllSpaceNewline(x);
    } else {
      var s, a := x + "\n", LeadingSpaces(x);
      LeadingSpacesAppend(x, "\n");
      assert s[a + |q| - 1] == q[|q| - 1];
      assert forall k :: a + |q| <= k < |x| ==> s[k] == x[k];
      assert s[|x|] == '\n';
      StripAt(s, a, a + |q|);
      SliceBeforeAppend(x, "\n", a, a + |q|);
    }
  }

  /** A slice that ends within `x` is the same slice of `x + y`. */
  lemma {:induction false} SliceBeforeAppend(x: string, y: string, i: nat, j: nat)
    requires i <= j <= |x|
    ensures (x + y)[i..j] == x[i..j]
  {
  }

  /**
   * Where the strip ends: past the last non-space character, after which
   * there is only whitespace.
   */
  lemma {:induction false} StripAt(s: string, a: nat, e: nat)
    requires a == LeadingSpaces(s) < e <= |s|
    requires !IsSpace(s[e - 1])
    requires forall k :: e <= k < |s| ==> IsSpace(s[k])
    ensures Strip(s) == s[a..e]
  {
    var r := Strip(s);
    assert r != [] by {
      assert !IsSpace(s[a]);
    }
    assert s[a + |r| - 1] == r[|r| - 1];
  }

  /** A blank line stays blank with its "\n". */
  lemma {:induction false} AllSpaceNewline(x: string)
    requires Strip(x) == []
    ensures Strip(x + "\n") == []
  {
    var s := x + "\n";
    forall k | 0 <= k < |s|
      ensures IsSpace(s[k])
    {
      if k < |x| {
        assert s[k] == x[k];
      }
    }
  }

  /** Text after a non-space character does not change the leading whitespace. */
  lemma {:induction false} LeadingSpacesAppend(x: string, y: string)
    requires LeadingSpaces(x) < |x|
    ensures LeadingSpaces(x + y) == LeadingSpaces(x)
  {
    var a := LeadingSpaces(x);
    assert (x + y)[a] == x[a];
    assert forall k :: 0 <= k < a ==> (x + y)[k] == x[k];
  }

  /**
   * The text of a file that holds `xs`, one per line, each line ended by
   * `end` ("\n", "\r\n" or "\r").
   */
  function JoinLines(xs: seq<string>, end: string): string
  {
    if xs == [] then [] else xs[0] + (end + JoinLines(xs[1..], end))
  }

  /** Text without "\r" passes through the translation unchanged, whatever follows it. */
  lemma {:induction false} TranslatePlain(x: string, t: string)
    requires '\r' !in x
    ensures Translate(x + t) == x + Translate(t)
  {
    if x != [] {
      assert (x + t)[1..] == x[1..] + t;
      TranslatePlain(x[1..], t);
    } else {
      assert x + t == t;
    }
  }

  /** Text with no "\r" reads exactly as it is. */
  lemma {:induction false} TranslateNoReturn(raw: string)
    requires '\r' !in raw
    ensures Translate(raw) == raw
  {
    TranslatePlain(raw, []);
    assert raw + [] == raw;
  }

  /**
   * Universal newlines: a file whose lines end in "\r\n", or in a lone
   * "\r", reads as the same text as one whose lines end in "\n".
   */
  lemma {:induction false} TranslateJoinLines(xs: seq<string>, end: string)
    requires end == "\n" || end == "\r\n" || end == "\r"
    requires forall k :: 0 <= k < |xs| ==> '\n' !in xs[k] && '\r' !in xs[k]
    ensures Translate(JoinLines(xs, end)) == Unlines(xs)
  {
    if xs != [] {
      var rest := JoinLines(xs[1..], end);
      if rest != [] && end == "\r" {
        JoinLinesStart(xs[1..], end);
      }
      TranslateJoinLines(xs[1..], end);
      TranslateLine(xs[0], end, rest);
      assert Unlines(xs) == xs[0] + ("\n" + Unlines(xs[1..]));
    }
  }

  /** One line and its line end translate to the line and one "\n". */
  lemma {:induction false} TranslateLine(x: string, end: string, rest: string)
    requires '\r' !in x
    requires end == "\n" || end == "\r\n" || end == "\r"
    requires end == "\r" ==> rest == [] || rest[0] != '\n'
    ensures Translate(x + (end + rest)) == x + ("\n" + Translate(rest))
  {
    TranslatePlain(x, end + rest);
    TranslateLineEnd(end, rest);
  }

  /** Each of the three line ends translates to one "\n", unless a lone "\r" is followed by "\n". */
  lemma {:induction false} TranslateLineEnd(end: string, rest: string)
    requires end == "\n" || end == "\r\n" || end == "\r"
    requires end == "\r" ==> rest == [] || rest[0] != '\n'
    ensures Translate(end + rest) == "\n" + Translate(rest)
  {
    if end == "\r\n" {
      assert (end + rest)[2..] == rest;
    } else {
      assert (end + rest)[1..] == rest;
    }
  }

  /** A file of such lines never starts with "\n" when its line end is "\r". */
  lemma {:induction false} JoinLinesStart(xs: seq<string>, end: string)
    requires end == "\r"
    requires forall k :: 0 <= k < |xs| ==> '\n' !in xs[k]
    requires JoinLines(xs, end) != []
    ensures JoinLines(xs, end)[0] != '\n'
  {
    var t := JoinLines(xs, end);
    if xs[0] != [] {
      assert t[0] == xs[0][0];
    }
  }

  /**
   * `read_addresses` on a file that holds `xs`, one per line, with "\n",
   * "\r\n" or "\r" after each: element k is `xs[k]` stripped of
   * whitespace at either end.
   */
  lemma {:induction false} ReadAddressesStripped(xs: seq<string>, end: string)
    requires end == "\n" || end == "\r\n" || end == "\r"
    requires forall k :: 0 <= k < |xs| ==> '\n' !in xs[k] && '\r' !in xs[k]
    ensures ReadAddresses(JoinLines(xs, end)) == seq(|xs|, k requires 0 <= k < |xs| => Strip(xs[k]))
  {
    TranslateJoinLines(xs, end);
    StripEachUnlines(xs);
  }

  /**
   * `read_addresses` on a file whose last line has no line end: the lines
   * before it, each ended by "\n", read as in `ReadAddressesStripped`, and
   * the last line is read stripped too.
   */
  lemma {:induction false} ReadAddressesLast(xs: seq<string>, y: string)
    requires forall k :: 0 <= k < |xs| ==> '\n' !in xs[k] && '\r' !in xs[k]
    requires y != [] && '\n' !in y && '\r' !in y
    ensures ReadAddresses(Unlines(xs) + y) == seq(|xs|, k requires 0 <= k < |xs| => Strip(xs[k])) + [Strip(y)]
  {
    TranslateUnlinesLast(xs, y);
    StripEachUnlinesLast(xs, y);
  }

  /** Text made of "\n"-ended lines and a last line, none holding "\r", is its own translation. */
  lemma {:induction false} TranslateUnlinesLast(xs: seq<string>, y: string)
    requires forall k :: 0 <= k < |xs| ==> '\n' !in xs[k] && '\r' !in xs[k]
    requires '\r' !in y
    ensures Translate(Unlines(xs) + y) == Unlines(xs) + y
  {
    TranslateJoinLines(xs, "\n");
    TranslatePlain(Unlines(xs), y);
    TranslateNoReturn(y);
  }

  /** Stripping each line of Unlines(xs) + y gives each element of xs stripped, then y stripped. */
  lemma {:induction false} StripEachUnlinesLast(xs: seq<string>, y: string)
    requires forall k :: 0 <= k < |xs| ==> '\n' !in xs[k]
    requires y != [] && '\n' !in y
    ensures StripEach(Lines(Unlines(xs) + y)) == seq(|xs|, k requires 0 <= k < |xs| => Strip(xs[k])) + [Strip(y)]
  {
    var ls := Lines(Unlines(xs) + y);
    LinesOfUnlinesLast(xs, y);
    var r := StripEach(ls);
    var w := seq(|xs|, k requires 0 <= k < |xs| => Strip(xs[k])) + [Strip(y)];
    assert |r| == |w|;
    forall k | 0 <= k < |xs|
      ensures r[k] == w[k]
    {
      StripNewline(xs[k]);
    }
    assert r[|xs|] == w[|xs|];
  }

  /** Clean addresses, each but the last followed by "\n", read back as the same list. */
  lemma {:induction false} ReadAddressesLastClean(xs: seq<string>, y: string)
    requires forall k :: 0 <= k < |xs| ==> IsCleanLine(xs[k])
    requires y != [] && IsCleanLine(y)
    ensures ReadAddresses(Unlines(xs) + y) == xs + [y]
  {
    ReadAddressesLast(xs, y);
    StripClean(y);
    forall k | 0 <= k < |xs|
      ensures Strip(xs[k]) == xs[k]
    {
      StripClean(xs[k]);
    }
  }

  /**
   * Round trip for every line end Python's text mode accepts: clean
   * addresses written one per line, with "\n", "\r\n" or "\r" after each,
   * read back as the same list.
   */
  lemma {:induction false} ReadAddressesLineEnds(xs: seq<string>, end: string)
    requires end == "\n" || end == "\r\n" || end == "\r"
    requires forall k :: 0 <= k < |xs| ==> IsCleanLine(xs[k])
    ensures ReadAddresses(JoinLines(xs, end)) == xs
  {
    ReadAddressesStripped(xs, end);
    forall k | 0 <= k < |xs|
      ensures Strip(xs[k]) == xs[k]
    {
      StripClean(xs[k]);
    }
  }

  /** A blank line in the middle of the file is kept as an empty address. */
  lemma {:induction false} BlankLineKept()
    ensures ReadAddresses("0xAA\n\n0xBB\n") == ["0xAA", "", "0xBB"]
  {
    assert "0xAA\n\n0xBB\n" == JoinLines(["0xAA", "", "0xBB"], "\n");
    ReadAddressesLineEnds(["0xAA", "", "0xBB"], "\n");
  }

  /** Whitespace around an address, and the line end after it, are dropped. */
  lemma {:induction false} PaddedLineRead()
    ensures ReadAddresses("  0xAA\t\r\n") == ["0xAA"]
  {
    assert "  0xAA\t\r\n" == JoinLines(["  0xAA\t"], "\r\n");
    ReadAddressesStripped(["  0xAA\t"], "\r\n");
    StripPadded();
  }

  /** Two spaces before an address and a tab after it are stripped. */
  lemma {:induction false} StripPadded()
    ensures Strip("  0xAA\t") == "0xAA"
  {
    var s := "  0xAA\t";
    assert !IsSpace(s[2]) && !IsSpace(s[5]) && IsSpace(s[6]);
    assert LeadingSpaces(s[2..]) == 0;
    assert LeadingSpaces(s[1..]) == 1;
    assert LeadingSpaces(s) == 2;
    var r := Strip(s);
    assert |r| == 4;
  }

  /** A last line without a line end is still read. */
  lemma {:induction false} UnterminatedLastLine()
    ensures ReadAddresses("0xAA\n0xBB") == ["0xAA", "0xBB"]
  {
    assert "0xAA\n0xBB" == Unlines(["0xAA"]) + "0xBB";
    ReadAddressesLastClean(["0xAA"], "0xBB");
  }

  /** A file written with Windows line ends reads as one address per line. */
  lemma {:induction false} CrlfLinesRead()
    ensures ReadAddresses("0xAA\r\n0xBB\r\n") == ["0xAA", "0xBB"]
  {
    assert "0xAA\r\n0xBB\r\n" == JoinLines(["0xAA", "0xBB"], "\r\n");
    ReadAddressesLineEnds(["0xAA", "0xBB"], "\r\n");
  }
}
