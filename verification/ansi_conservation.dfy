/**
 * No character of process output is lost or invented: what one `AppendAnsiText` call
 * appends, followed by what it buffers, is the buffered text plus the chunk with every
 * complete SGR sequence taken out.
 */
module AnsiConservation {
  import opened SgrCodes
  import opened SgrScanner
  import opened AnsiTextBox
  import opened AnsiSemantics
  import opened AnsiProperties

  /**
   * `t` from position `i` on with every complete SGR sequence removed, as
   * `Regex.Matches` finds them: left to right, resuming after each match.
   */
  function StripSgr(t: string, i: nat): string
    requires i <= |t|
    decreases |t| - i
  {
    if i == |t| then []
    else
      match SgrAt(t, i)
      case Some(n) => StripSgr(t, i + n)
      case None => [t[i]] + StripSgr(t, i + 1)
  }

  /** The characters that cells show, in order. */
  function Chars(cells: seq<Cell>): string {
    seq(|cells|, k requires 0 <= k < |cells| => cells[k].ch)
  }

  /** The characters of two cell sequences one after the other. */
  lemma CharsAppend(a: seq<Cell>, b: seq<Cell>)
    ensures Chars(a + b) == Chars(a) + Chars(b)
  {
  }

  /** Showing a string shows its characters. */
  lemma CharsCells(s: string, f: Format)
    ensures Chars(Cells(s, f)) == s
  {
    forall k | 0 <= k < |s| ensures Chars(Cells(s, f))[k] == s[k] {
      CellsAt(s, f, k);
    }
  }

  /** The characters runs show are their texts joined. */
  lemma {:induction false} CharsFlatten(segs: seq<Segment>)
    ensures Chars(Flatten(segs)) == Texts(segs)
    decreases |segs|
  {
    if segs != [] {
      CharsFlatten(segs[1..]);
      CharsAppend(Cells(segs[0].text, segs[0].format), Flatten(segs[1..]));
      CharsCells(segs[0].text, segs[0].format);
    }
  }

  /** Where no sequence starts, nothing is removed. */
  lemma {:induction false} StripLiteral(t: string, i: nat)
    requires i <= |t| && LiteralFor(t, i, |t| - i)
    ensures StripSgr(t, i) == t[i..]
    decreases |t| - i
  {
    if i < |t| {
      StripLiteral(t, i + 1);
      assert t[i..] == [t[i]] + t[i + 1..];
    }
  }

  /** Text held back from an ESC that no other ESC follows contains no sequence to remove. */
  lemma StripHeld(t: string, i: nat)
    requires i < |t| && t[i] == ESC && EscFreeFrom(t, i + 1) && SgrAt(t, i).None?
    ensures StripSgr(t, i) == t[i..]
  {
    LiteralForNoEsc(t, i + 1, |t| - (i + 1));
    StripLiteral(t, i);
  }

  /**
   * The reference reading loses nothing: the characters it shows, followed by the text it
   * holds back, are the text with its complete sequences removed.
   */
  lemma {:induction false} InterpConserves(t: string, i: nat, f: Format, sgr: CodeEffect)
    requires i <= |t|
    ensures var o := Interp(t, i, f, sgr); Chars(o.cells) + o.held == StripSgr(t, i)
    decreases |t| - i
  {
    if i < |t| {
      match SgrAt(t, i)
      case Some(n) =>
        InterpConserves(t, i + n, sgr(ParamsAt(t, i), f), sgr);
      case None =>
        if t[i] == ESC && EscFreeFrom(t, i + 1) {
          StripHeld(t, i);
        } else {
          var rest := Interp(t, i + 1, f, sgr);
          InterpConserves(t, i + 1, f, sgr);
          CharsAppend([Cell(t[i], f)], rest.cells);
        }
    }
  }

  /** A well-shaped buffer holds no complete sequence, so removing sequences leaves it as it is. */
  lemma StripPending(p: string)
    requires ValidPending(p)
    ensures StripSgr(p, 0) == p
  {
    if p != [] {
      StripHeld(p, 0);
    }
  }

  /**
   * Conservation for one `AppendAnsiText` call: the text of the runs it appends, followed
   * by the new buffer, is the old buffer followed by the chunk, with every complete SGR
   * sequence removed. (An empty chunk changes nothing, so for it the old buffer must
   * already be well shaped, as every reachable buffer is.)
   */
  lemma AppendConserves(st: State, chunk: string)
    requires chunk != [] || ValidPending(st.pending)
    ensures var r := AppendAnsiText(st, chunk);
      Texts(r.segments) + r.state.pending == StripSgr(st.pending + chunk, 0)
  {
    var full := st.pending + chunk;
    if chunk == [] {
      assert full == st.pending;
      StripPending(st.pending);
    } else {
      var s := ProcessText(full, 0, st.current, EffectOf(st.ambient));
      ProcessTextMatchesInterp(full, 0, st.current, EffectOf(st.ambient));
      InterpConserves(full, 0, st.current, EffectOf(st.ambient));
      CharsFlatten(s.segments);
    }
  }

  /** Where no ESC occurs, no sequence is found. */
  lemma {:induction false} NextSgrEscFree(t: string, pos: nat)
    requires pos <= |t| && EscFreeFrom(t, pos)
    ensures NextSgr(t, pos).None?
    decreases |t| - pos
  {
    if pos < |t| {
      NextSgrEscFree(t, pos + 1);
    }
  }

  /**
   * An escape sequence other than SGR is not consumed: it is kept with all the text
   * after it, which stays buffered and unshown until a later chunk brings another ESC.
   * (Erasing a line with ESC '[' 'K' and then printing "hello" shows nothing.)
   */
  lemma OtherEscapeHoldsText(st: State)
    requires st.pending == []
    ensures var chunk := [ESC] + "[Khello";
      AppendAnsiText(st, chunk) == Fed(st.(pending := chunk), [])
  {
    var t := [ESC] + "[Khello";
    assert st.pending + t == t;
    assert ParamRunFrom(t, 2) == 0;
    assert SgrAt(t, 0).None?;
    NextSgrEscFree(t, 1);
    assert t[1..] != [] && t[1] == '[';
    LastIndexOfSpec(t, ESC);
    var k := LastIndexOf(t, ESC);
    assert t[0] == ESC;
    assert k == 0;
    assert t[0..] == t;
    var f := st.current;
    assert NextSgr(t, 0).None?;
    assert ProcessRemainingText(t, 0, f) == Scan([], f, t);
    assert ProcessText(t, 0, f, EffectOf(st.ambient)) == Scan([], f, t);
  }
}
