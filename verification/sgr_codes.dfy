/**
 * The formatting state of the interpreter and the meaning of an SGR parameter string:
 * the string is split at ';' and each token is applied in turn, with 38/48 consuming
 * the arguments of an extended colour.
 */
module SgrCodes {
  import opened Wrappers
  import opened AnsiColors

  /** The font style flags a .NET `FontStyle` can carry. */
  datatype StyleFlag = Bold | Italic | Underline | Strikeout

  /** A `FontStyle` value: the set of flags it has. `Regular` is the empty set. */
  type Style = set<StyleFlag>

  /** The flags an SGR code can set. */
  const SgrFlags: Style := {Bold, Italic, Underline}

  /** Foreground, background and style of the text being appended. */
  datatype Format = Format(fg: Color, bg: Color, style: Style)

  /** The control's default colours, which reset codes return to. */
  datatype Ambient = Ambient(fg: Color, bg: Color)

  /** The state every reset code (0, an empty code, an empty parameter string) produces. */
  function Reset(amb: Ambient): (f: Format)
    ensures f.fg == amb.fg && f.bg == amb.bg && f.style == {}
  {
    Format(amb.fg, amb.bg, {})
  }

  /** A colour some SGR code can select: a palette entry or a 24-bit colour. */
  predicate IsSgrColor(c: Color) {
    c.Rgb? || IsPaletteName(c.name)
  }

  // ---------------------------------------------------------------------------
  // int.TryParse on a token

  /** `int.MaxValue`. */
  const Int32Max: int := 0x7FFF_FFFF

  predicate IsDigit(c: char) {
    '0' <= c <= '9'
  }

  predicate AllDigits(s: string) {
    forall i :: 0 <= i < |s| ==> IsDigit(s[i])
  }

  /** The value of a string of decimal digits (leading zeros allowed). */
  function DecimalValue(s: string): nat
    requires AllDigits(s)
  {
    if s == [] then 0
    else 10 * DecimalValue(s[..|s| - 1]) + (s[|s| - 1] as int - '0' as int)
  }

  /**
   * `int.TryParse` on a token of an SGR parameter string. Such tokens hold only digits
   * (the sequence pattern admits nothing else), so a token parses exactly when it is a
   * non-empty digit string whose value fits in 32 bits.
   */
  function ParseInt32(tok: string): (r: Option<int>)
    ensures r.Some? ==> 0 <= r.value <= Int32Max
  {
    if tok != [] && AllDigits(tok) && DecimalValue(tok) <= Int32Max then Some(DecimalValue(tok)) else None
  }

  /** The canonical decimal rendering of `n`, as a program writes a code. */
  function ToDecimal(n: nat): (s: string)
    ensures s != [] && AllDigits(s)
  {
    if n < 10 then ['0' + n as char]
    else ToDecimal(n / 10) + ['0' + (n % 10) as char]
  }

  /** Reading back a rendered number gives the number. */
  lemma {:induction false} DecimalRoundTrip(n: nat)
    ensures DecimalValue(ToDecimal(n)) == n
  {
    if n >= 10 {
      var s := ToDecimal(n);
      assert s[..|s| - 1] == ToDecimal(n / 10);
      DecimalRoundTrip(n / 10);
    }
  }

  /** Every code a program writes parses, and one past `int.MaxValue` does not. */
  lemma ParseInt32Rendered(n: nat)
    ensures n <= Int32Max ==> ParseInt32(ToDecimal(n)) == Some(n)
    ensures n > Int32Max ==> ParseInt32(ToDecimal(n)) == None
  {
    DecimalRoundTrip(n);
  }

  /** Leading zeros do not change what a token parses to. */
  lemma {:induction false} LeadingZeroIgnored(tok: string)
    requires tok != [] && AllDigits(tok)
    ensures DecimalValue("0" + tok) == DecimalValue(tok)
    ensures ParseInt32("0" + tok) == ParseInt32(tok)
    decreases |tok|
  {
    var z := "0" + tok;
    assert z[..|z| - 1] == "0" + tok[..|tok| - 1];
    if |tok| > 1 {
      LeadingZeroIgnored(tok[..|tok| - 1]);
    } else {
      assert DecimalValue(z[..|z| - 1]) == 0;
    }
    assert AllDigits(z);
  }

  // ---------------------------------------------------------------------------
  // String.Split(';')

  /** `String.Split(sep)`: n separators give n + 1 tokens, empty ones included. */
  function Split(s: string, sep: char): (r: seq<string>)
    ensures |r| >= 1
  {
    if s == [] then [[]]
    else
      var rest := Split(s[1..], sep);
      if s[0] == sep then [[]] + rest
      else [[s[0]] + rest[0]] + rest[1..]
  }

  /** The tokens hold no separator, and joining them with it gives the string back. */
  lemma {:induction false} JoinSplit(s: string, sep: char)
    ensures forall k :: 0 <= k < |Split(s, sep)| ==> sep !in Split(s, sep)[k]
    ensures Join(Split(s, sep), sep) == s
    decreases |s|
  {
    if s != [] {
      var rest := Split(s[1..], sep);
      JoinSplit(s[1..], sep);
      if s[0] == sep {
        assert ([[]] + rest)[1..] == rest;
      } else {
        var r := [[s[0]] + rest[0]] + rest[1..];
        assert r[1..] == rest[1..];
        assert s == [s[0]] + s[1..];
      }
    }
  }

  /** `String.Join(sep, ts)`: the inverse of `Split`. */
  function Join(ts: seq<string>, sep: char): string
    requires |ts| >= 1
  {
    if |ts| == 1 then ts[0] else ts[0] + [sep] + Join(ts[1..], sep)
  }

  /** Splitting a joined list of separator-free tokens gives the tokens back. */
  lemma {:induction false} SplitJoin(ts: seq<string>, sep: char)
    requires |ts| >= 1
    requires forall k :: 0 <= k < |ts| ==> sep !in ts[k]
    ensures Split(Join(ts, sep), sep) == ts
    decreases |ts|, |ts[0]|
  {
    var s := Join(ts, sep);
    if ts[0] == [] {
      if |ts| > 1 {
        assert s == [sep] + Join(ts[1..], sep);
        assert s[1..] == Join(ts[1..], sep);
        SplitJoin(ts[1..], sep);
      }
    } else {
      var ts' := [ts[0][1..]] + ts[1..];
      assert ts'[1..] == ts[1..];
      assert s == [ts[0][0]] + Join(ts', sep);
      assert s[1..] == Join(ts', sep);
      SplitJoin(ts', sep);
      assert ts[0] == [ts[0][0]] + ts'[0];
      assert ts == [[ts[0][0]] + ts'[0]] + ts'[1..];
    }
  }

  /** A trailing separator adds one empty token. */
  lemma {:induction false} SplitTrailingSeparator(s: string, sep: char)
    ensures Split(s + [sep], sep) == Split(s, sep) + [[]]
    decreases |s|
  {
    if s != [] {
      assert (s + [sep])[1..] == s[1..] + [sep];
      SplitTrailingSeparator(s[1..], sep);
    }
  }

  // ---------------------------------------------------------------------------
  // Applying codes

  /** The single codes handled by the switch apart from the extended colours 38 and 48. */
  predicate IsBasicCode(v: int) {
    || v in {0, 1, 2, 3, 4, 22, 23, 24, 39, 49}
    || 30 <= v <= 37 || 40 <= v <= 47 || 90 <= v <= 97 || 100 <= v <= 107
  }

  /** The effect of one basic code on the format; any other integer is ignored. */
  function ApplyCode(v: int, f: Format, amb: Ambient): (r: Format)
    ensures v == 0 ==> r == Reset(amb)
    ensures !IsBasicCode(v) ==> r == f
    ensures r.fg != f.fg ==> v == 0 || v == 39 || 30 <= v <= 37 || 90 <= v <= 97
    ensures r.bg != f.bg ==> v == 0 || v == 49 || 40 <= v <= 47 || 100 <= v <= 107
    ensures r.style != f.style ==> v in {0, 1, 2, 3, 4, 22, 23, 24}
    ensures r.style <= f.style + SgrFlags
    ensures (30 <= v <= 37 || 90 <= v <= 97) ==> IsSgrColor(r.fg)
    ensures (40 <= v <= 47 || 100 <= v <= 107) ==> IsSgrColor(r.bg)
  {
    if v == 0 then Reset(amb)
    else if v == 1 then f.(style := f.style + {Bold})
    else if v == 2 then f.(style := f.style - {Bold})
    else if v == 3 then f.(style := f.style + {Italic})
    else if v == 4 then f.(style := f.style + {Underline})
    else if v == 22 then f.(style := f.style - {Bold})
    else if v == 23 then f.(style := f.style - {Italic})
    else if v == 24 then f.(style := f.style - {Underline})
    else if 30 <= v <= 37 then f.(fg := Get3BitColor(v - 30))
    else if v == 39 then f.(fg := amb.fg)
    else if 40 <= v <= 47 then f.(bg := Get3BitColor(v - 40))
    else if v == 49 then f.(bg := amb.bg)
    else if 90 <= v <= 97 then f.(fg := Get4BitColor(v - 90))
    else if 100 <= v <= 107 then f.(bg := Get4BitColor(v - 100))
    else f
  }

  /** Where an extended colour ends and which colour it selects. */
  datatype Extended = Extended(last: nat, color: Color)

  /**
   * The arguments of 38 or 48 at token `i`: `5;n` selects palette entry n and
   * `2;r;g;b` a 24-bit colour. Any other or incomplete form consumes nothing beyond
   * token `i` and keeps the colour `c`.
   */
  function ProcessExtendedColor(ts: seq<string>, i: nat, c: Color): (r: Extended)
    requires i < |ts|
    ensures r.last < |ts|
    ensures r.last == i || r.last == i + 2 || r.last == i + 4
    ensures forall k :: i < k <= r.last ==> ParseInt32(ts[k]).Some?
    ensures r.last == i ==> r.color == c
    ensures r.last == i + 2 <==>
      i + 2 < |ts| && ParseInt32(ts[i + 1]) == Some(5) && ParseInt32(ts[i + 2]).Some?
    ensures r.last == i + 2 ==> r.color == Get256Color(ParseInt32(ts[i + 2]).value)
    ensures r.last == i + 4 <==>
      && i + 4 < |ts| && ParseInt32(ts[i + 1]) == Some(2)
      && ParseInt32(ts[i + 2]).Some? && ParseInt32(ts[i + 3]).Some? && ParseInt32(ts[i + 4]).Some?
    ensures r.last == i + 4 ==>
      r.color == GetRgbColor(ParseInt32(ts[i + 2]).value, ParseInt32(ts[i + 3]).value, ParseInt32(ts[i + 4]).value)
  {
    if i + 1 >= |ts| then Extended(i, c)
    else
      match ParseInt32(ts[i + 1])
      case None => Extended(i, c)
      case Some(mode) =>
        if mode == 5 && i + 2 < |ts| then
          match ParseInt32(ts[i + 2])
          case Some(n) => Extended(i + 2, Get256Color(n))
          case None => Extended(i, c)
        else if mode == 2 && i + 4 < |ts| then
          match (ParseInt32(ts[i + 2]), ParseInt32(ts[i + 3]), ParseInt32(ts[i + 4]))
          case (Some(r), Some(g), Some(b)) => Extended(i + 4, GetRgbColor(r, g, b))
          case _ => Extended(i, c)
        else
          Extended(i, c)
  }

  /** The token index the loop continues at, and the format after one iteration. */
  datatype Applied = Applied(next: nat, format: Format)

  /** One iteration of the token loop, starting at token `i`. */
  function ApplyToken(ts: seq<string>, i: nat, f: Format, amb: Ambient): (r: Applied)
    requires i < |ts|
    ensures i < r.next <= |ts|
    ensures forall k :: i < k < r.next ==> ParseInt32(ts[k]).Some?
    ensures ts[i] == [] ==> r == Applied(i + 1, Reset(amb))
    ensures ts[i] != [] && ParseInt32(ts[i]).None? ==> r == Applied(i + 1, f)
    ensures ParseInt32(ts[i]) == Some(38) ==>
      var e := ProcessExtendedColor(ts, i, f.fg); r == Applied(e.last + 1, f.(fg := e.color))
    ensures ParseInt32(ts[i]) == Some(48) ==>
      var e := ProcessExtendedColor(ts, i, f.bg); r == Applied(e.last + 1, f.(bg := e.color))
    ensures ParseInt32(ts[i]).Some? && ParseInt32(ts[i]).value !in {38, 48} ==>
      r == Applied(i + 1, ApplyCode(ParseInt32(ts[i]).value, f, amb))
  {
    if ts[i] == [] then Applied(i + 1, Reset(amb))
    else
      match ParseInt32(ts[i])
      case None => Applied(i + 1, f)
      case Some(v) =>
        if v == 38 then
          var e := ProcessExtendedColor(ts, i, f.fg);
          Applied(e.last + 1, f.(fg := e.color))
        else if v == 48 then
          var e := ProcessExtendedColor(ts, i, f.bg);
          Applied(e.last + 1, f.(bg := e.color))
        else
          Applied(i + 1, ApplyCode(v, f, amb))
  }

  /**
   * One iteration only adds SGR styles, and leaves each colour as it was, at its
   * default, or at a colour a code can select.
   */
  lemma ApplyTokenBounds(ts: seq<string>, i: nat, f: Format, amb: Ambient)
    requires i < |ts|
    ensures var r := ApplyToken(ts, i, f, amb).format;
      && r.style <= f.style + SgrFlags
      && (r.fg == f.fg || r.fg == amb.fg || IsSgrColor(r.fg))
      && (r.bg == f.bg || r.bg == amb.bg || IsSgrColor(r.bg))
  {
  }

  /** The token loop from token `i` to the end. */
  function ApplyTokens(ts: seq<string>, i: nat, f: Format, amb: Ambient): Format
    requires i <= |ts|
    decreases |ts| - i, 1
  {
    if i == |ts| then f else ApplyThenContinue(ts, i, f, amb)
  }

  /** One iteration of the token loop at token `i`, then the rest of the loop. */
  function ApplyThenContinue(ts: seq<string>, i: nat, f: Format, amb: Ambient): Format
    requires i < |ts|
    decreases |ts| - i, 0
  {
    var a := ApplyToken(ts, i, f, amb);
    ApplyTokens(ts, a.next, a.format, amb)
  }

  /**
   * The effect of a whole parameter string. An empty string resets; otherwise the
   * tokens between ';' are applied left to right.
   */
  function ProcessEscapeCode(code: string, f: Format, amb: Ambient): (r: Format)
    ensures code == [] ==> r == Reset(amb)
  {
    if code == [] then Reset(amb) else ApplyTokens(Split(code, ';'), 0, f, amb)
  }

  /** How the parameter string of one SGR sequence changes the current format. */
  type CodeEffect = (string, Format) -> Format

  /** The effect of SGR sequences on a box whose default colours are `amb`. */
  function EffectOf(amb: Ambient): CodeEffect {
    (code, f) => ProcessEscapeCode(code, f, amb)
  }

  /**
   * The token loop only adds SGR styles, and leaves each colour as it was, at its
   * default, or at a colour a code can select.
   */
  lemma {:induction false} ApplyTokensBounds(ts: seq<string>, i: nat, f: Format, amb: Ambient)
    requires i <= |ts|
    ensures var r := ApplyTokens(ts, i, f, amb);
      && r.style <= f.style + SgrFlags
      && (r.fg == f.fg || r.fg == amb.fg || IsSgrColor(r.fg))
      && (r.bg == f.bg || r.bg == amb.bg || IsSgrColor(r.bg))
    decreases |ts| - i
  {
    if i < |ts| {
      var a := ApplyToken(ts, i, f, amb);
      ApplyTokenBounds(ts, i, f, amb);
      ApplyTokensBounds(ts, a.next, a.format, amb);
    }
  }

  /**
   * A parameter string only adds SGR styles, and leaves each colour as it was, at its
   * default, or at a colour a code can select.
   */
  lemma EscapeCodeBounds(code: string, f: Format, amb: Ambient)
    ensures var r := ProcessEscapeCode(code, f, amb);
      && r.style <= f.style + SgrFlags
      && (r.fg == f.fg || r.fg == amb.fg || IsSgrColor(r.fg))
      && (r.bg == f.bg || r.bg == amb.bg || IsSgrColor(r.bg))
  {
    if code != [] {
      ApplyTokensBounds(Split(code, ';'), 0, f, amb);
    }
  }

  /** An empty last token is never taken as an argument, so the loop always ends in a reset. */
  lemma {:induction false} TrailingEmptyTokenResets(ts: seq<string>, i: nat, f: Format, amb: Ambient)
    requires i <= |ts|
    ensures ApplyTokens(ts + [[]], i, f, amb) == Reset(amb)
    decreases |ts| - i
  {
    var us := ts + [[]];
    var a := ApplyToken(us, i, f, amb);
    assert ApplyTokens(us, i, f, amb) == ApplyTokens(us, a.next, a.format, amb);
    if i < |ts| {
      assert a.next <= |ts|;
      TrailingEmptyTokenResets(ts, a.next, a.format, amb);
    }
  }

  /** A parameter string ending in ';' always resets, whatever comes before it. */
  lemma TrailingSemicolonResets(code: string, f: Format, amb: Ambient)
    ensures ProcessEscapeCode(code + ";", f, amb) == Reset(amb)
  {
    SplitTrailingSeparator(code, ';');
    TrailingEmptyTokenResets(Split(code, ';'), 0, f, amb);
  }

  /** A rendered number holds no ';', so it is a single token. */
  lemma RenderedIsOneToken(v: nat)
    ensures Split(ToDecimal(v), ';') == [ToDecimal(v)]
  {
    var s := ToDecimal(v);
    assert forall k :: 0 <= k < |s| ==> IsDigit(s[k]);
    SplitJoin([s], ';');
  }

  /**
   * A code written alone, other than the extended colours 38 and 48, has the effect the
   * `switch` gives it, read off through `Split` and `int.TryParse`.
   */
  lemma SingleCode(v: nat, f: Format, amb: Ambient)
    requires v <= Int32Max && v != 38 && v != 48
    ensures ProcessEscapeCode(ToDecimal(v), f, amb) == ApplyCode(v, f, amb)
  {
    var s := ToDecimal(v);
    ParseInt32Rendered(v);
    RenderedIsOneToken(v);
    assert ApplyToken([s], 0, f, amb) == Applied(1, ApplyCode(v, f, amb));
    assert ApplyThenContinue([s], 0, f, amb) == ApplyTokens([s], 1, ApplyCode(v, f, amb), amb);
    assert ProcessEscapeCode(s, f, amb) == ApplyTokens([s], 0, f, amb);
  }

  /**
   * The table of single codes as sequences carry them: 0 resets; 1, 3 and 4 set bold,
   * italic and underline; 2 and 22 clear bold, 23 italic and 24 underline; 30-37 and
   * 40-47 select the dim colours, 90-97 and 100-107 the bright ones; 39 and 49 restore
   * only their own default; every other number changes nothing.
   */
  lemma CodeTable(v: nat, f: Format, amb: Ambient)
    requires v <= Int32Max && v != 38 && v != 48
    ensures var r := ProcessEscapeCode(ToDecimal(v), f, amb);
      && (v == 0 ==> r == Format(amb.fg, amb.bg, {}))
      && (v == 1 ==> r == f.(style := f.style + {Bold}))
      && (v == 3 ==> r == f.(style := f.style + {Italic}))
      && (v == 4 ==> r == f.(style := f.style + {Underline}))
      && (v == 2 || v == 22 ==> r == f.(style := f.style - {Bold}))
      && (v == 23 ==> r == f.(style := f.style - {Italic}))
      && (v == 24 ==> r == f.(style := f.style - {Underline}))
      && (30 <= v <= 37 ==> r == f.(fg := Named(DimNames[v - 30])))
      && (40 <= v <= 47 ==> r == f.(bg := Named(DimNames[v - 40])))
      && (90 <= v <= 97 ==> r == f.(fg := Named(BrightNames[v - 90])))
      && (100 <= v <= 107 ==> r == f.(bg := Named(BrightNames[v - 100])))
      && (v == 39 ==> r == f.(fg := amb.fg))
      && (v == 49 ==> r == f.(bg := amb.bg))
      && (!IsBasicCode(v) ==> r == f)
  {
    SingleCode(v, f, amb);
  }

  /** The tokens of `38;2;1;2` and what `int.TryParse` makes of them. */
  lemma IncompleteExtendedTokens()
    ensures Split("38;2;1;2", ';') == ["38", "2", "1", "2"]
    ensures ParseInt32("38") == Some(38) && ParseInt32("2") == Some(2) && ParseInt32("1") == Some(1)
  {
    var ts := ["38", "2", "1", "2"];
    assert Join(ts, ';') == "38;2;1;2";
    SplitJoin(ts, ';');
    assert ToDecimal(38) == "38" && ToDecimal(2) == "2" && ToDecimal(1) == "1";
    ParseInt32Rendered(38);
    ParseInt32Rendered(2);
    ParseInt32Rendered(1);
  }

  /**
   * An incomplete extended colour consumes only its 38, and the tokens after it are read
   * as ordinary codes: in `38;2;1;2` the foreground is kept, and the last `2` clears the
   * bold the `1` set.
   */
  lemma IncompleteExtendedColor(f: Format, amb: Ambient)
    ensures ProcessEscapeCode("38;2;1;2", f, amb) == f.(style := f.style - {Bold})
  {
    var ts := ["38", "2", "1", "2"];
    IncompleteExtendedTokens();
    var g := f.(style := f.style - {Bold});
    var h := f.(style := f.style + {Bold});
    assert ApplyToken(ts, 0, f, amb) == Applied(1, f);
    assert ApplyToken(ts, 1, f, amb) == Applied(2, g);
    assert ApplyToken(ts, 2, g, amb) == Applied(3, h);
    assert ApplyToken(ts, 3, h, amb) == Applied(4, g);
    assert ApplyTokens(ts, 3, h, amb) == g;
    assert ApplyTokens(ts, 2, g, amb) == g;
    assert ApplyTokens(ts, 1, f, amb) == g;
    assert ApplyTokens(ts, 0, f, amb) == g;
  }

  /** Splitting at the first separator: a separator-free head becomes the first token. */
  lemma {:induction false} SplitCons(a: string, b: string, sep: char)
    requires sep !in a
    ensures Split(a + [sep] + b, sep) == [a] + Split(b, sep)
    decreases |a|
  {
    var s := a + [sep] + b;
    if a == [] {
      assert s == [sep] + b && s[1..] == b;
    } else {
      assert s[0] == a[0] && s[1..] == a[1..] + [sep] + b;
      SplitCons(a[1..], b, sep);
      assert a == [a[0]] + a[1..];
    }
  }

  /** A rendered number holds no ';'. */
  lemma RenderedNoSemicolon(n: nat)
    ensures ';' !in ToDecimal(n)
  {
    var s := ToDecimal(n);
    assert forall k :: 0 <= k < |s| ==> IsDigit(s[k]);
  }

  /** `c;2;r;g;b` regrouped as each part followed by the rest. */
  lemma RgbJoined(C: string, R: string, G: string, B: string)
    ensures C + ";2;" + R + ";" + G + ";" + B == C + [';'] + ("2" + [';'] + (R + [';'] + (G + [';'] + B)))
  {
  }

  /** `c;2;r;g;b` with separator-free parts splits into its five tokens. */
  lemma RgbSplit(C: string, R: string, G: string, B: string)
    requires ';' !in C && ';' !in R && ';' !in G && ';' !in B
    ensures Split(C + ";2;" + R + ";" + G + ";" + B, ';') == [C, "2", R, G, B]
  {
    var s3 := G + [';'] + B;
    SplitJoin([B], ';');
    SplitCons(G, B, ';');
    var s2 := R + [';'] + s3;
    SplitCons(R, s3, ';');
    var s1 := "2" + [';'] + s2;
    SplitCons("2", s2, ';');
    SplitCons(C, s1, ';');
    RgbJoined(C, R, G, B);
  }

  /** The token loop on `38;2;r;g;b` or `48;2;r;g;b`, once the tokens are parsed. */
  lemma RgbTokenLoop(ts: seq<string>, c: int, r: int, g: int, b: int, f: Format, amb: Ambient)
    requires |ts| == 5 && (c == 38 || c == 48)
    requires ParseInt32(ts[0]) == Some(c) && ParseInt32(ts[1]) == Some(2)
    requires ParseInt32(ts[2]) == Some(r) && ParseInt32(ts[3]) == Some(g) && ParseInt32(ts[4]) == Some(b)
    ensures c == 38 ==> ApplyTokens(ts, 0, f, amb) == f.(fg := GetRgbColor(r, g, b))
    ensures c == 48 ==> ApplyTokens(ts, 0, f, amb) == f.(bg := GetRgbColor(r, g, b))
  {
    assert ts[0] != [];
    var e := ProcessExtendedColor(ts, 0, if c == 38 then f.fg else f.bg);
    assert e == Extended(4, GetRgbColor(r, g, b));
    var a := ApplyToken(ts, 0, f, amb);
    assert a.next == 5;
    assert ApplyTokens(ts, 0, f, amb) == ApplyTokens(ts, 5, a.format, amb);
  }

  /** `c;5;n` with separator-free parts splits into its three tokens. */
  lemma PaletteSplit(C: string, N: string)
    requires ';' !in C && ';' !in N
    ensures Split(C + ";5;" + N, ';') == [C, "5", N]
  {
    SplitJoin([N], ';');
    SplitCons("5", N, ';');
    SplitCons(C, "5" + [';'] + N, ';');
    assert C + ";5;" + N == C + [';'] + ("5" + [';'] + N);
  }

  /** The token loop on `38;5;n` or `48;5;n`, once the tokens are parsed. */
  lemma PaletteTokenLoop(ts: seq<string>, c: int, n: int, f: Format, amb: Ambient)
    requires |ts| == 3 && (c == 38 || c == 48)
    requires ParseInt32(ts[0]) == Some(c) && ParseInt32(ts[1]) == Some(5) && ParseInt32(ts[2]) == Some(n)
    ensures c == 38 ==> ApplyTokens(ts, 0, f, amb) == f.(fg := Get256Color(n))
    ensures c == 48 ==> ApplyTokens(ts, 0, f, amb) == f.(bg := Get256Color(n))
  {
    assert ts[0] != [];
    var e := ProcessExtendedColor(ts, 0, if c == 38 then f.fg else f.bg);
    assert e == Extended(2, Get256Color(n));
    var a := ApplyToken(ts, 0, f, amb);
    assert a.next == 3;
    assert ApplyTokens(ts, 0, f, amb) == ApplyTokens(ts, 3, a.format, amb);
  }

  /** `int.TryParse` on the codes 38, 48, 5 and 2 as written. */
  lemma ExtendedCodesParse()
    ensures ParseInt32("38") == Some(38) && ParseInt32("48") == Some(48)
    ensures ParseInt32("5") == Some(5) && ParseInt32("2") == Some(2)
  {
    assert ToDecimal(38) == "38" && ToDecimal(48) == "48" && ToDecimal(5) == "5" && ToDecimal(2) == "2";
    ParseInt32Rendered(38);
    ParseInt32Rendered(48);
    ParseInt32Rendered(5);
    ParseInt32Rendered(2);
  }

  /** `C;5;n`, with C written 38 or 48, applies palette entry n to its side. */
  lemma PaletteColorCode(C: string, n: nat, f: Format, amb: Ambient)
    requires C == "38" || C == "48"
    requires n <= Int32Max
    ensures C == "38" ==> ProcessEscapeCode(C + ";5;" + ToDecimal(n), f, amb) == f.(fg := Get256Color(n))
    ensures C == "48" ==> ProcessEscapeCode(C + ";5;" + ToDecimal(n), f, amb) == f.(bg := Get256Color(n))
  {
    var N := ToDecimal(n);
    RenderedNoSemicolon(n);
    ParseInt32Rendered(n);
    ExtendedCodesParse();
    PaletteSplit(C, N);
    PaletteTokenLoop([C, "5", N], if C == "38" then 38 else 48, n, f, amb);
  }

  /**
   * `38;5;n` sets the foreground, and `48;5;n` the background, to palette entry n, and
   * change nothing else.
   */
  lemma PaletteColorCodes(n: nat, f: Format, amb: Ambient)
    requires n <= Int32Max
    ensures ProcessEscapeCode("38;5;" + ToDecimal(n), f, amb) == f.(fg := Get256Color(n))
    ensures ProcessEscapeCode("48;5;" + ToDecimal(n), f, amb) == f.(bg := Get256Color(n))
  {
    assert "38" + ";5;" == "38;5;" && "48" + ";5;" == "48;5;";
    PaletteColorCode("38", n, f, amb);
    PaletteColorCode("48", n, f, amb);
  }

  /** `C;2;r;g;b`, with C written 38 or 48, applies the clamped 24-bit colour to its side. */
  lemma RgbColorCode(C: string, r: nat, g: nat, b: nat, f: Format, amb: Ambient)
    requires C == "38" || C == "48"
    requires r <= Int32Max && g <= Int32Max && b <= Int32Max
    ensures var code := C + ";2;" + ToDecimal(r) + ";" + ToDecimal(g) + ";" + ToDecimal(b);
      && (C == "38" ==> ProcessEscapeCode(code, f, amb) == f.(fg := GetRgbColor(r, g, b)))
      && (C == "48" ==> ProcessEscapeCode(code, f, amb) == f.(bg := GetRgbColor(r, g, b)))
  {
    var R, G, B := ToDecimal(r), ToDecimal(g), ToDecimal(b);
    RenderedNoSemicolon(r);
    RenderedNoSemicolon(g);
    RenderedNoSemicolon(b);
    ParseInt32Rendered(r);
    ParseInt32Rendered(g);
    ParseInt32Rendered(b);
    ExtendedCodesParse();
    RgbSplit(C, R, G, B);
    RgbTokenLoop([C, "2", R, G, B], if C == "38" then 38 else 48, r, g, b, f, amb);
  }

  /**
   * `38;2;r;g;b` sets the foreground, and `48;2;r;g;b` the background, to the clamped
   * 24-bit colour, and change nothing else.
   */
  lemma RgbColorCodes(r: nat, g: nat, b: nat, f: Format, amb: Ambient)
    requires r <= Int32Max && g <= Int32Max && b <= Int32Max
    ensures ProcessEscapeCode("38;2;" + ToDecimal(r) + ";" + ToDecimal(g) + ";" + ToDecimal(b), f, amb)
      == f.(fg := GetRgbColor(r, g, b))
    ensures ProcessEscapeCode("48;2;" + ToDecimal(r) + ";" + ToDecimal(g) + ";" + ToDecimal(b), f, amb)
      == f.(bg := GetRgbColor(r, g, b))
  {
    assert "38" + ";2;" == "38;2;" && "48" + ";2;" == "48;2;";
    RgbColorCode("38", r, g, b, f, amb);
    RgbColorCode("48", r, g, b, f, amb);
  }
}
