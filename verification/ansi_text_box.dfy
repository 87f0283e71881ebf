/**
 * The streaming interpreter of the ANSI text box, apart from the WinForms control: the
 * carried state (current format, ambient defaults, buffered incomplete sequence) and the
 * operations that turn a chunk of process output into styled segments. The rich text
 * control the segments are appended to is modelled as the returned segment sequence.
 */
module AnsiTextBox {
  import opened Wrappers
  import opened AnsiColors
  import opened SgrCodes
  import opened SgrScanner

  /** The interpreter state of one text box. */
  datatype State = State(ambient: Ambient, current: Format, pending: string)

  /** A run of text appended with one format (`AppendFormattedText`). */
  datatype Segment = Segment(text: string, format: Format)

  /** Segments emitted while scanning, with the format and buffer left at the end. */
  datatype Scan = Scan(segments: seq<Segment>, format: Format, pending: string)

  /** The state after a call and the segments it appended, in order. */
  datatype Fed = Fed(state: State, segments: seq<Segment>)

  /** The text of a segment sequence, concatenated. */
  function Texts(segs: seq<Segment>): string {
    if segs == [] then [] else segs[0].text + Texts(segs[1..])
  }

  lemma {:induction false} TextsAppend(a: seq<Segment>, b: seq<Segment>)
    ensures Texts(a + b) == Texts(a) + Texts(b)
  {
    if a == [] {
      assert a + b == b;
    } else {
      assert (a + b)[0] == a[0];
      assert (a + b)[1..] == a[1..] + b;
      TextsAppend(a[1..], b);
    }
  }

  /** No run is empty: the box appends only text it has. */
  predicate NoEmptySegments(segs: seq<Segment>) {
    forall i :: 0 <= i < |segs| ==> segs[i].text != []
  }

  /** Every run is appended in format `f`. */
  predicate AllIn(segs: seq<Segment>, f: Format) {
    segs == [] || (segs[0].format == f && AllIn(segs[1..], f))
  }

  /**
   * A new text box: current colours are the control's colours and the current style is
   * the control font's style, which need not be `Regular`.
   */
  function NewTextBox(amb: Ambient, fontStyle: Style): (st: State)
    ensures st.ambient == amb && st.pending == []
    ensures st.current == Format(amb.fg, amb.bg, fontStyle)
  {
    State(amb, Format(amb.fg, amb.bg, fontStyle), [])
  }

  /**
   * The text after the last complete sequence. With no ESC in it, it is appended whole;
   * otherwise the part before the last ESC is appended and the rest, from that ESC on,
   * is buffered.
   */
  function ProcessRemainingText(t: string, pos: nat, f: Format): (r: Scan)
    requires pos <= |t|
    ensures r.format == f
  {
    if pos >= |t| then Scan([], f, [])
    else
      var k := LastIndexOf(t[pos..], ESC);
      if k >= 0 then
        var m := pos + k;
        Scan(if k > 0 then [Segment(t[pos..m], f)] else [], f, t[m..])
      else
        Scan([Segment(t[pos..], f)], f, [])
  }

  /**
   * What the remaining-text step appends and buffers: the text up to its last ESC,
   * appended in the current format, and the rest of the text from that ESC on; the
   * buffer is empty exactly when the text holds no ESC.
   */
  lemma RemainingTextSpec(t: string, pos: nat, f: Format)
    requires pos <= |t|
    ensures var r := ProcessRemainingText(t, pos, f);
      && AllIn(r.segments, f)
      && |r.pending| <= |t| - pos
      && Texts(r.segments) == t[pos..|t| - |r.pending|] && r.pending == t[|t| - |r.pending|..]
      && (EscFreeFrom(t, pos) <==> r.pending == [])
      && (r.pending != [] ==> t[|t| - |r.pending|] == ESC && EscFreeFrom(t, |t| - |r.pending| + 1))
  {
    if pos < |t| {
      var rest := t[pos..];
      var k := LastIndexOf(rest, ESC);
      LastEscOfSuffix(t, pos);
      if k >= 0 {
        var m := pos + k;
        var segs := if k > 0 then [Segment(t[pos..m], f)] else [];
        assert Texts(segs) == t[pos..m];
      } else {
        assert Texts([Segment(rest, f)]) == rest;
      }
    }
  }

  /**
   * The remaining-text step appends no empty run, and its buffer is well shaped when no
   * sequence starts in the text.
   */
  lemma RemainingTextShape(t: string, pos: nat, f: Format)
    requires pos <= |t|
    ensures NoEmptySegments(ProcessRemainingText(t, pos, f).segments)
    ensures LiteralFor(t, pos, |t| - pos) ==> ValidPending(ProcessRemainingText(t, pos, f).pending)
  {
    if pos < |t| {
      var k := LastIndexOf(t[pos..], ESC);
      LastEscOfSuffix(t, pos);
      if k >= 0 {
        var m := pos + k;
        LiteralSuffix(t, pos, m);
        PendingShape(t, m);
      }
    }
  }

  /** The last ESC of a suffix, read as a position of the whole text. */
  lemma LastEscOfSuffix(t: string, pos: nat)
    requires pos <= |t|
    ensures var k := LastIndexOf(t[pos..], ESC);
      && (k >= 0 ==> t[pos + k] == ESC && EscFreeFrom(t, pos + k + 1))
      && (k < 0 <==> EscFreeFrom(t, pos))
  {
    var rest := t[pos..];
    var k := LastIndexOf(rest, ESC);
    LastIndexOfSpec(rest, ESC);
    forall j | pos + k < j < |t| ensures t[j] != ESC {
      assert t[j] == rest[j - pos];
    }
    if k >= 0 {
      assert t[pos + k] == rest[k];
    }
  }

  /** Text from an ESC after which no ESC follows has the shape of the buffer. */
  lemma PendingShape(t: string, m: nat)
    requires m < |t| && t[m] == ESC && EscFreeFrom(t, m + 1)
    ensures t[m..][0] == ESC && EscFreeFrom(t[m..], 1)
  {
    forall j | 1 <= j < |t| - m ensures t[m..][j] != ESC {
      assert t[m..][j] == t[m + j];
    }
  }

  /** A sequence starts at none of the positions of a suffix of literal text. */
  lemma LiteralSuffix(t: string, pos: nat, m: nat)
    requires pos <= m < |t|
    ensures LiteralFor(t, pos, |t| - pos) ==> SgrAt(t[m..], 0).None?
  {
    SgrAtSuffix(t, m);
    if LiteralFor(t, pos, |t| - pos) {
      LiteralForGet(t, pos, |t| - pos, m);
    }
  }

  /**
   * The match loop: append the text before the next sequence with the current format,
   * apply the sequence's parameters (the text between ESC '[' and 'm'), continue after
   * it; finish with the remaining text.
   */
  function ProcessText(t: string, pos: nat, f: Format, sgr: CodeEffect): Scan
    requires pos <= |t|
    decreases |t| - pos, 1
  {
    ProcessFrom(t, pos, NextSgr(t, pos), f, sgr)
  }

  /**
   * The match loop from `pos` when `next` is the next match, if any: the text before the
   * match is appended, its parameters are applied, and the loop goes on after it; with no
   * match left, the remaining text is handled.
   */
  function ProcessFrom(t: string, pos: nat, next: Option<nat>, f: Format, sgr: CodeEffect): Scan
    requires pos <= |t| && (next.Some? ==> pos <= next.value < |t| && SgrAt(t, next.value).Some?)
    decreases |t| - pos, 0
  {
    match next
    case None => ProcessRemainingText(t, pos, f)
    case Some(p) =>
      var n := SgrAt(t, p).value;
      var lit := if p > pos then [Segment(t[pos..p], f)] else [];
      var rest := ProcessText(t, p + n, sgr(ParamsAt(t, p), f), sgr);
      Scan(lit + rest.segments, rest.format, rest.pending)
  }

  /** The match loop's step at the next sequence. */
  lemma ProcessTextAtMatch(t: string, pos: nat, p: nat, f: Format, sgr: CodeEffect)
    requires pos <= |t| && NextSgr(t, pos) == Some(p)
    ensures var n := SgrAt(t, p).value;
      var rest := ProcessText(t, p + n, sgr(ParamsAt(t, p), f), sgr);
      var lit := if p > pos then [Segment(t[pos..p], f)] else [];
      && ProcessText(t, pos, f, sgr).segments == lit + rest.segments
      && ProcessText(t, pos, f, sgr).format == rest.format
      && ProcessText(t, pos, f, sgr).pending == rest.pending
  {
  }

  /** After the last sequence the match loop is the remaining-text step. */
  lemma ProcessTextNoMatch(t: string, pos: nat, f: Format, sgr: CodeEffect)
    requires pos <= |t| && NextSgr(t, pos).None?
    ensures ProcessText(t, pos, f, sgr) == ProcessRemainingText(t, pos, f)
    ensures LiteralFor(t, pos, |t| - pos)
  {
    NextSgrLeftmost(t, pos);
  }

  /** The match loop leaves a well-shaped buffer. */
  lemma {:induction false} ProcessTextPending(t: string, pos: nat, f: Format, sgr: CodeEffect)
    requires pos <= |t|
    ensures ValidPending(ProcessText(t, pos, f, sgr).pending)
    decreases |t| - pos
  {
    match NextSgr(t, pos)
    case None =>
      ProcessTextNoMatch(t, pos, f, sgr);
      RemainingTextShape(t, pos, f);
    case Some(p) =>
      var n := SgrAt(t, p).value;
      ProcessTextAtMatch(t, pos, p, f, sgr);
      ProcessTextPending(t, p + n, sgr(ParamsAt(t, p), f), sgr);
  }

  /** The match loop appends no empty run. */
  lemma {:induction false} ProcessTextNoEmpty(t: string, pos: nat, f: Format, sgr: CodeEffect)
    requires pos <= |t|
    ensures NoEmptySegments(ProcessText(t, pos, f, sgr).segments)
    decreases |t| - pos
  {
    match NextSgr(t, pos)
    case None =>
      ProcessTextNoMatch(t, pos, f, sgr);
      RemainingTextShape(t, pos, f);
    case Some(p) =>
      var n := SgrAt(t, p).value;
      var g := sgr(ParamsAt(t, p), f);
      var lit := if p > pos then [Segment(t[pos..p], f)] else [];
      ProcessTextAtMatch(t, pos, p, f, sgr);
      ProcessTextNoEmpty(t, p + n, g, sgr);
      assert NoEmptySegments(lit);
  }

  /**
   * `AppendAnsiText`: an empty chunk does nothing; otherwise the buffer is prepended to
   * the chunk, the buffer is cleared, and the combined text is processed.
   */
  function AppendAnsiText(st: State, chunk: string): (r: Fed)
    ensures chunk == [] ==> r == Fed(st, [])
    ensures r.state.ambient == st.ambient
  {
    if chunk == [] then Fed(st, [])
    else
      var full := st.pending + chunk;
      var s := ProcessText(full, 0, st.current, EffectOf(st.ambient));
      Fed(State(st.ambient, s.format, s.pending), s.segments)
  }

  /** A call appends no empty run and keeps the buffer well shaped. */
  lemma AppendShape(st: State, chunk: string)
    ensures NoEmptySegments(AppendAnsiText(st, chunk).segments)
    ensures ValidPending(st.pending) ==> ValidPending(AppendAnsiText(st, chunk).state.pending)
  {
    if chunk != [] {
      ProcessTextNoEmpty(st.pending + chunk, 0, st.current, EffectOf(st.ambient));
      ProcessTextPending(st.pending + chunk, 0, st.current, EffectOf(st.ambient));
    }
  }

  /**
   * `FlushIncompleteBuffer`: append the buffered text literally with the current format
   * and empty the buffer. Nothing in the program calls it.
   */
  function FlushIncompleteBuffer(st: State): (r: Fed)
    ensures r.state == st.(pending := [])
    ensures Texts(r.segments) == st.pending
    ensures NoEmptySegments(r.segments)
    ensures AllIn(r.segments, st.current)
  {
    if st.pending != [] then Fed(st.(pending := []), [Segment(st.pending, st.current)])
    else Fed(st, [])
  }

  /** `OnForeColorChanged`: the new colour becomes both the default and the current foreground. */
  function OnForeColorChanged(st: State, c: Color): (r: State)
    ensures r.ambient == Ambient(c, st.ambient.bg)
    ensures r.current == st.current.(fg := c)
    ensures r.pending == st.pending
  {
    State(st.ambient.(fg := c), st.current.(fg := c), st.pending)
  }

  /** `OnBackColorChanged`: the new colour becomes both the default and the current background. */
  function OnBackColorChanged(st: State, c: Color): (r: State)
    ensures r.ambient == Ambient(st.ambient.fg, c)
    ensures r.current == st.current.(bg := c)
    ensures r.pending == st.pending
  {
    State(st.ambient.(bg := c), st.current.(bg := c), st.pending)
  }
}
