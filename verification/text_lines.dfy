/**
 * The pieces of .NET text handling the profile format relies on: `Char.IsWhiteSpace`,
 * `String.Trim`, `String.IsNullOrWhiteSpace`, the line splitting of `File.ReadLines`
 * and the line writing of `StreamWriter.WriteLine`.
 */
module TextLines {
  import opened Wrappers

  /** `Char.IsWhiteSpace`: the Unicode White_Space characters of the BMP. */
  predicate IsWhiteSpace(c: char) {
    var x := c as int;
    || 0x09 <= x <= 0x0D
    || x == 0x20
    || x == 0x85
    || x == 0xA0
    || x == 0x1680
    || 0x2000 <= x <= 0x200A
    || x == 0x2028
    || x == 0x2029
    || x == 0x202F
    || x == 0x205F
    || x == 0x3000
  }

  /** Every character of `s` is white space (true of the empty string). */
  predicate AllWhiteSpace(s: string) {
    forall i :: 0 <= i < |s| ==> IsWhiteSpace(s[i])
  }

  /** `String.IsNullOrWhiteSpace`, with `None` for a null reference. */
  predicate IsNullOrWhiteSpace(s: Option<string>) {
    s.None? || AllWhiteSpace(s.value)
  }

  /** Neither the first nor the last character of `s` is white space. */
  predicate Trimmed(s: string) {
    s == [] || (!IsWhiteSpace(s[0]) && !IsWhiteSpace(s[|s| - 1]))
  }

  /** The number of white-space characters at the start of `s`. */
  function LeadingWhite(s: string): (n: nat)
    ensures n <= |s|
  {
    if s != [] && IsWhiteSpace(s[0]) then 1 + LeadingWhite(s[1..]) else 0
  }

  /** The number of white-space characters at the end of `s`. */
  function TrailingWhite(s: string): (n: nat)
    ensures n <= |s|
  {
    if s != [] && IsWhiteSpace(s[|s| - 1]) then 1 + TrailingWhite(s[..|s| - 1]) else 0
  }

  /** `s` without its leading white space (`String.TrimStart()`). */
  function TrimStart(s: string): string {
    s[LeadingWhite(s)..]
  }

  /** `s` without its trailing white space (`String.TrimEnd()`). */
  function TrimEnd(s: string): string {
    s[..|s| - TrailingWhite(s)]
  }

  /** `String.Trim()`: `s` without its leading and trailing white space. */
  function Trim(s: string): string {
    TrimEnd(TrimStart(s))
  }

  /** The characters `LeadingWhite` counts are white space and the next one is not. */
  lemma {:induction false} LeadingWhiteSpec(s: string)
    ensures forall i :: 0 <= i < LeadingWhite(s) ==> IsWhiteSpace(s[i])
    ensures LeadingWhite(s) < |s| ==> !IsWhiteSpace(s[LeadingWhite(s)])
    decreases |s|
  {
    if s != [] && IsWhiteSpace(s[0]) {
      LeadingWhiteSpec(s[1..]);
    }
  }

  /** In text made only of white space, `LeadingWhite` counts every character. */
  lemma {:induction false} LeadingAllWhite(s: string)
    requires AllWhiteSpace(s)
    ensures LeadingWhite(s) == |s|
    decreases |s|
  {
    if s != [] {
      assert AllWhiteSpace(s[1..]) by {
        forall i | 0 <= i < |s| - 1 ensures IsWhiteSpace(s[1..][i]) { assert s[1..][i] == s[i + 1]; }
      }
      LeadingAllWhite(s[1..]);
    }
  }

  /** The characters `TrailingWhite` counts are white space and the one before them is not. */
  lemma {:induction false} TrailingWhiteSpec(s: string)
    ensures forall i :: |s| - TrailingWhite(s) <= i < |s| ==> IsWhiteSpace(s[i])
    ensures TrailingWhite(s) < |s| ==> !IsWhiteSpace(s[|s| - 1 - TrailingWhite(s)])
    decreases |s|
  {
    if s != [] && IsWhiteSpace(s[|s| - 1]) {
      TrailingWhiteSpec(s[..|s| - 1]);
    }
  }

  /**
   * `Trim` removes exactly white space: the result is a slice of `s` that neither starts
   * nor ends with white space, and everything cut off on either side is white space.
   */
  lemma TrimSpec(s: string)
    ensures Trimmed(Trim(s))
    ensures exists a, b ::
      && 0 <= a <= b <= |s| && Trim(s) == s[a..b]
      && AllWhiteSpace(s[..a]) && AllWhiteSpace(s[b..])
  {
    LeadingWhiteSpec(s);
    var a := LeadingWhite(s);
    var rest := s[a..];
    TrailingWhiteSpec(rest);
    var b := a + |rest| - TrailingWhite(rest);
    assert Trim(s) == s[a..b];
    assert AllWhiteSpace(s[..a]) by {
      forall i | 0 <= i < a ensures IsWhiteSpace(s[..a][i]) { assert s[..a][i] == s[i]; }
    }
    assert AllWhiteSpace(s[b..]) by {
      forall i | 0 <= i < |s| - b ensures IsWhiteSpace(s[b..][i]) {
        assert s[b..][i] == rest[b - a + i];
      }
    }
    if a < b {
      assert Trim(s)[0] == s[a];
      assert Trim(s)[b - a - 1] == rest[|rest| - 1 - TrailingWhite(rest)];
    }
  }

  /** Trimming leaves `s` unchanged exactly when it does not start or end with white space. */
  lemma TrimIdentity(s: string)
    ensures Trim(s) == s <==> Trimmed(s)
  {
    TrimSpec(s);
    if Trimmed(s) && s != [] {
      assert LeadingWhite(s) == 0;
      assert s[0..] == s;
      assert TrailingWhite(s) == 0;
    }
  }

  /** Trimming twice is trimming once. */
  lemma TrimIdempotent(s: string)
    ensures Trim(Trim(s)) == Trim(s)
  {
    TrimSpec(s);
    TrimIdentity(Trim(s));
  }

  /** Trimming gives the empty string exactly for text made only of white space. */
  lemma TrimEmpty(s: string)
    ensures Trim(s) == [] <==> AllWhiteSpace(s)
  {
    if AllWhiteSpace(s) {
      LeadingAllWhite(s);
    }
    if Trim(s) == [] {
      LeadingWhiteSpec(s);
      var a := LeadingWhite(s);
      if a < |s| {
        assert s[a..][0] == s[a];
        TrailingWhiteSpec(s[a..]);
      }
    }
  }

  /** `c` ends a line for `StreamReader.ReadLine`: carriage return or line feed. */
  predicate IsLineBreak(c: char) {
    c == '\r' || c == '\n'
  }

  /** The index of the first line break in `s` at or after `i`, or `|s|`. */
  function LineEnd(s: string, i: nat): (k: nat)
    requires i <= |s|
    ensures i <= k <= |s|
    decreases |s| - i
  {
    if i == |s| || IsLineBreak(s[i]) then i else LineEnd(s, i + 1)
  }

  /** `LineEnd` stops at the first line break: none occurs between `i` and it. */
  lemma {:induction false} LineEndSpec(s: string, i: nat)
    requires i <= |s|
    ensures var k := LineEnd(s, i);
      && (k < |s| ==> IsLineBreak(s[k]))
      && forall j :: i <= j < k ==> !IsLineBreak(s[j])
    decreases |s| - i
  {
    if i < |s| && !IsLineBreak(s[i]) {
      LineEndSpec(s, i + 1);
    }
  }

  /** No character of `s` is a line break. */
  predicate SingleLine(s: string) {
    forall i :: 0 <= i < |s| ==> !IsLineBreak(s[i])
  }

  /** Where no line break occurs, `LineEnd` runs to the end. */
  lemma {:induction false} LineEndOfLine(s: string, i: nat, k: nat)
    requires i <= k < |s| && IsLineBreak(s[k])
    requires forall j :: i <= j < k ==> !IsLineBreak(s[j])
    ensures LineEnd(s, i) == k
    decreases k - i
  {
    if i < k {
      LineEndOfLine(s, i + 1, k);
    }
  }

  /** How many characters end the line whose break is at `k`: two for CR LF, else one. */
  function BreakLength(s: string, k: nat): nat
    requires k < |s|
  {
    if s[k] == '\r' && k + 1 < |s| && s[k + 1] == '\n' then 2 else 1
  }

  /**
   * `File.ReadLines`: the lines of `text`, each ended by CR, LF or CR LF. A last line
   * without a line break counts; a line break at the very end does not start another line.
   */
  function ReadLines(text: string): (lines: seq<string>)
    ensures forall i :: 0 <= i < |lines| ==> SingleLine(lines[i])
    decreases |text|
  {
    if text == [] then []
    else
      var k := LineEnd(text, 0);
      LineEndSpec(text, 0);
      if k == |text| then [text]
      else [text[..k]] + ReadLines(text[k + BreakLength(text, k)..])
  }

  /** The line terminator `StreamWriter.WriteLine` writes (`Environment.NewLine` on Windows). */
  const NewLine: string := "\r\n"

  /** The text written by calling `WriteLine` once per line. */
  function WriteLines(lines: seq<string>): string {
    if lines == [] then [] else lines[0] + NewLine + WriteLines(lines[1..])
  }

  /** A written line followed by more text reads back as that line, then the lines of the rest. */
  lemma ReadLinesStep(l: string, rest: string)
    requires SingleLine(l)
    ensures ReadLines(l + NewLine + rest) == [l] + ReadLines(rest)
  {
    var text := l + NewLine + rest;
    assert text[|l|] == '\r' && text[|l| + 1] == '\n';
    LineEndOfLine(text, 0, |l|);
    assert text[..|l|] == l;
    assert text[|l| + 2..] == rest;
  }

  /** Reading back written lines gives them again, provided none holds a line break. */
  lemma {:induction false} ReadWriteLines(lines: seq<string>)
    requires forall i :: 0 <= i < |lines| ==> SingleLine(lines[i])
    ensures ReadLines(WriteLines(lines)) == lines
    decreases |lines|
  {
    if lines != [] {
      ReadLinesStep(lines[0], WriteLines(lines[1..]));
      ReadWriteLines(lines[1..]);
    }
  }
}
