/**
 * Two independent readings of what a stream of process output should look like in the
 * text box, both at the level of single displayed characters:
 *
 *  - `Interp` reads a whole string left to right: a complete SGR sequence changes the
 *    format, an ESC after which no other ESC follows starts text that is held back (it
 *    may still become a sequence), and every other character is shown in the current
 *    format.
 *  - `Run` is a machine fed one character at a time, with the held-back text as its only
 *    memory besides the format.
 *
 * The text box itself works chunk by chunk and emits runs of text; the theorems relating
 * it to these readings are in `AnsiProperties`.
 */
module AnsiSemantics {
  import opened Wrappers
  import opened SgrCodes
  import opened SgrScanner

  /** One displayed character with the format it is shown in. */
  datatype Cell = Cell(ch: char, format: Format)

  /** What reading some text yields: the cells shown, the format at the end, the text held back. */
  datatype Outcome = Outcome(cells: seq<Cell>, format: Format, held: string)

  /** `s` shown in format `f`, one cell per character. */
  function Cells(s: string, f: Format): (r: seq<Cell>)
    ensures |r| == |s|
  {
    if s == [] then [] else [Cell(s[0], f)] + Cells(s[1..], f)
  }

  /** Every cell of `Cells(s, f)` shows the matching character of `s` in format `f`. */
  lemma {:induction false} CellsAt(s: string, f: Format, i: nat)
    requires i < |s|
    ensures Cells(s, f)[i] == Cell(s[i], f)
    decreases i
  {
    if i > 0 {
      CellsAt(s[1..], f, i - 1);
    }
  }

  /** Showing two strings one after the other is showing their concatenation. */
  lemma {:induction false} CellsAppend(s: string, u: string, f: Format)
    ensures Cells(s + u, f) == Cells(s, f) + Cells(u, f)
    decreases |s|
  {
    if s == [] {
      assert s + u == u;
    } else {
      assert (s + u)[0] == s[0];
      assert (s + u)[1..] == s[1..] + u;
      CellsAppend(s[1..], u, f);
    }
  }

  /** Showing a first character, then the rest. */
  lemma CellsCons(c: char, s: string, f: Format)
    ensures Cells([c] + s, f) == [Cell(c, f)] + Cells(s, f)
  {
    assert ([c] + s)[1..] == s;
  }

  /** `c` prepended to what reading the rest yields. */
  function Shown(c: Cell, o: Outcome): Outcome {
    Outcome([c] + o.cells, o.format, o.held)
  }

  /**
   * The reference reading of `t` from position `i` on, starting in format `f`.
   */
  function Interp(t: string, i: nat, f: Format, sgr: CodeEffect): Outcome
    requires i <= |t|
    decreases |t| - i, 1
  {
    if i == |t| then Outcome([], f, []) else InterpAt(t, i, f, sgr)
  }

  /** The reference reading from a position that holds a character. */
  function InterpAt(t: string, i: nat, f: Format, sgr: CodeEffect): Outcome
    requires i < |t|
    decreases |t| - i, 0
  {
    match SgrAt(t, i)
    case Some(n) => Interp(t, i + n, sgr(ParamsAt(t, i), f), sgr)
    case None =>
      if t[i] == ESC && EscFreeFrom(t, i + 1) then Outcome([], f, t[i..])
      else Shown(Cell(t[i], f), Interp(t, i + 1, f, sgr))
  }

  /** What the reading holds back is the end of the text, and a well-shaped buffer. */
  lemma {:induction false} InterpHeld(t: string, i: nat, f: Format, sgr: CodeEffect)
    requires i <= |t|
    ensures var h := Interp(t, i, f, sgr).held;
      |h| <= |t| - i && h == t[|t| - |h|..] && ValidPending(h)
    decreases |t| - i
  {
    if i < |t| {
      match SgrAt(t, i)
      case Some(n) =>
        InterpHeld(t, i + n, sgr(ParamsAt(t, i), f), sgr);
      case None =>
        if t[i] == ESC && EscFreeFrom(t, i + 1) {
          HeldShape(t, i);
        } else {
          InterpHeld(t, i + 1, f, sgr);
        }
    }
  }

  /** The text from an ESC that no other ESC follows, where no sequence starts, is well shaped. */
  lemma HeldShape(t: string, i: nat)
    requires i < |t| && t[i] == ESC && EscFreeFrom(t, i + 1) && SgrAt(t, i).None?
    ensures ValidPending(t[i..])
  {
    SgrAtSuffix(t, i);
    forall j | 1 <= j < |t| - i ensures t[i..][j] != ESC {
      assert t[i..][j] == t[i + j];
    }
  }

  /**
   * One character fed to the machine in format `f` with buffer `buf`. With an empty
   * buffer an ESC starts a new buffer and anything else is shown. With a buffer, an ESC
   * shows the buffer as text and starts a new one; any other character extends it, and
   * a buffer that has become a complete sequence is applied and emptied.
   */
  function Step(c: char, f: Format, buf: string, sgr: CodeEffect): Outcome {
    if buf == [] then
      if c == ESC then Outcome([], f, [ESC]) else Outcome([Cell(c, f)], f, [])
    else if c == ESC then Outcome(Cells(buf, f), f, [ESC])
    else if IsSgr(buf + [c]) then Outcome([], sgr(Params(buf + [c]), f), [])
    else Outcome([], f, buf + [c])
  }

  /** A step keeps the buffer well shaped. */
  lemma StepKeepsPending(c: char, f: Format, buf: string, sgr: CodeEffect)
    requires ValidPending(buf)
    ensures ValidPending(Step(c, f, buf, sgr).held)
  {
    if buf != [] && c != ESC && !IsSgr(buf + [c]) {
      ExtendKeepsPending(buf, c);
    }
  }

  /** Appending a non-ESC character that does not complete a sequence keeps a buffer well shaped. */
  lemma ExtendKeepsPending(buf: string, c: char)
    requires buf != [] && c != ESC && !IsSgr(buf + [c])
    ensures ValidPending(buf) ==> ValidPending(buf + [c])
  {
    var p := buf + [c];
    if ValidPending(buf) && SgrAt(p, 0).Some? {
      var n := SgrAt(p, 0).value;
      SgrAtSound(p, 0);
      if n < |p| {
        assert p[..|buf|] == buf;
        SgrAtPrefix(p, 0, |buf|);
      }
    }
    if ValidPending(buf) {
      forall j | 1 <= j < |p| ensures p[j] != ESC {
        if j < |buf| { assert p[j] == buf[j]; }
      }
    }
  }

  /**
   * The machine fed the characters of `w` from position `k` on, from format `f` and
   * buffer `buf`.
   */
  function Run(w: string, k: nat, f: Format, buf: string, sgr: CodeEffect): Outcome
    requires k <= |w|
    decreases |w| - k
  {
    if k == |w| then Outcome([], f, buf)
    else
      var s := Step(w[k], f, buf, sgr);
      var o := Run(w, k + 1, s.format, s.held, sgr);
      Outcome(s.cells + o.cells, o.format, o.held)
  }

  /** The machine fed all of `chunk`. */
  function Feed(chunk: string, f: Format, buf: string, sgr: CodeEffect): Outcome {
    Run(chunk, 0, f, buf, sgr)
  }

  /** The machine keeps its buffer well shaped. */
  lemma {:induction false} RunKeepsPending(w: string, k: nat, f: Format, buf: string, sgr: CodeEffect)
    requires k <= |w| && ValidPending(buf)
    ensures ValidPending(Run(w, k, f, buf, sgr).held)
    decreases |w| - k
  {
    if k < |w| {
      var s := Step(w[k], f, buf, sgr);
      StepKeepsPending(w[k], f, buf, sgr);
      RunKeepsPending(w, k + 1, s.format, s.held, sgr);
    }
  }
}
