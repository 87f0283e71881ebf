/**
 * What the text box promises about a stream of process output, proved against the two
 * character-level readings of `AnsiSemantics`:
 *
 *  - the match loop shows exactly the cells `Interp` assigns to the text, and leaves
 *    `Interp`'s format and held-back text behind;
 *  - `Interp` from the start of a buffer is what the character machine produces when
 *    it resumes with that buffer, and the machine composes over concatenation;
 *  - hence how the output is cut into chunks changes neither what is shown, nor in which
 *    formats, nor the state left behind.
 */
module AnsiProperties {
  import opened Wrappers
  import opened SgrCodes
  import opened SgrScanner
  import opened AnsiTextBox
  import opened AnsiSemantics

  /** The cells a sequence of appended runs shows. */
  function Flatten(segs: seq<Segment>): seq<Cell> {
    if segs == [] then [] else Cells(segs[0].text, segs[0].format) + Flatten(segs[1..])
  }

  lemma {:induction false} FlattenAppend(a: seq<Segment>, b: seq<Segment>)
    ensures Flatten(a + b) == Flatten(a) + Flatten(b)
  {
    if a == [] {
      assert a + b == b;
    } else {
      assert (a + b)[0] == a[0];
      assert (a + b)[1..] == a[1..] + b;
      FlattenAppend(a[1..], b);
    }
  }

  /** Runs that all share one format show their joined text in that format. */
  lemma {:induction false} FlattenUniform(segs: seq<Segment>, f: Format)
    requires AllIn(segs, f)
    ensures Flatten(segs) == Cells(Texts(segs), f)
  {
    if segs != [] {
      FlattenUniform(segs[1..], f);
      CellsAppend(segs[0].text, Texts(segs[1..]), f);
    }
  }

  lemma ConsAssoc<T>(c: T, a: seq<T>, b: seq<T>)
    ensures [c] + (a + b) == ([c] + a) + b
  {
  }

  /** Where no sequence starts and the text is not held, the character at `i` is shown. */
  lemma InterpShowsFirst(t: string, i: nat, f: Format, sgr: CodeEffect)
    requires i < |t| && SgrAt(t, i).None? && !(t[i] == ESC && EscFreeFrom(t, i + 1))
    ensures Interp(t, i, f, sgr) == Shown(Cell(t[i], f), Interp(t, i + 1, f, sgr))
  {
  }

  /** The cells of `t[i..p]` are the cell of `t[i]` followed by those of `t[i + 1..p]`. */
  lemma CellsFrom(t: string, i: nat, p: nat, f: Format)
    requires i < p <= |t|
    ensures Cells(t[i..p], f) == [Cell(t[i], f)] + Cells(t[i + 1..p], f)
  {
    assert t[i..p] == [t[i]] + t[i + 1..p];
    CellsCons(t[i], t[i + 1..p], f);
  }

  /**
   * Text up to an ESC, with no sequence starting anywhere in it, is shown as it is in
   * the current format.
   */
  lemma {:induction false} LiteralRun(t: string, i: nat, p: nat, f: Format, sgr: CodeEffect)
    requires i <= p < |t| && t[p] == ESC && LiteralFor(t, i, p - i)
    ensures Interp(t, i, f, sgr)
         == Outcome(Cells(t[i..p], f) + Interp(t, p, f, sgr).cells,
                    Interp(t, p, f, sgr).format, Interp(t, p, f, sgr).held)
    decreases p - i
  {
    if i == p {
      assert t[i..p] == [];
    } else {
      assert !EscFreeFrom(t, i + 1) by { assert t[p] == ESC; }
      InterpShowsFirst(t, i, f, sgr);
      LiteralRun(t, i + 1, p, f, sgr);
      CellsFrom(t, i, p, f);
      ConsAssoc(Cell(t[i], f), Cells(t[i + 1..p], f), Interp(t, p, f, sgr).cells);
    }
  }

  /**
   * Text from `i` in which no sequence starts is shown up to its last ESC `m` (or to its
   * end when it holds no ESC), and the rest, from that ESC on, is held back.
   */
  lemma {:induction false} InterpTail(t: string, i: nat, m: nat, f: Format, sgr: CodeEffect)
    requires i <= m <= |t| && LiteralFor(t, i, |t| - i)
    requires (m == |t| && EscFreeFrom(t, i)) || (m < |t| && t[m] == ESC && EscFreeFrom(t, m + 1))
    ensures Interp(t, i, f, sgr) == Outcome(Cells(t[i..m], f), f, t[m..])
    decreases m - i
  {
    if i == m {
      assert t[i..m] == [];
      if m < |t| {
        LiteralForGet(t, i, |t| - i, m);
      }
    } else {
      assert !(t[i] == ESC && EscFreeFrom(t, i + 1)) by {
        if m < |t| { assert t[m] == ESC; }
      }
      InterpShowsFirst(t, i, f, sgr);
      InterpTail(t, i + 1, m, f, sgr);
      CellsFrom(t, i, m, f);
    }
  }

  /** After the last sequence the match loop agrees with the reference reading. */
  lemma RemainingTextMatchesInterp(t: string, pos: nat, f: Format, sgr: CodeEffect)
    requires pos <= |t| && NextSgr(t, pos).None?
    ensures Flatten(ProcessRemainingText(t, pos, f).segments) == Interp(t, pos, f, sgr).cells
    ensures f == Interp(t, pos, f, sgr).format
    ensures ProcessRemainingText(t, pos, f).pending == Interp(t, pos, f, sgr).held
  {
    var r := ProcessRemainingText(t, pos, f);
    RemainingTextSpec(t, pos, f);
    var m := |t| - |r.pending|;
    NextSgrLeftmost(t, pos);
    if r.pending == [] {
      assert m == |t| && EscFreeFrom(t, pos);
    } else {
      assert t[m] == ESC && EscFreeFrom(t, m + 1);
    }
    InterpTail(t, pos, m, f, sgr);
    FlattenUniform(r.segments, f);
    assert Texts(r.segments) == t[pos..m];
  }

  /** From `pos` on, the match loop shows what the reference reading shows, and ends the same way. */
  ghost predicate LoopAgrees(t: string, pos: nat, f: Format, sgr: CodeEffect)
    requires pos <= |t|
  {
    var s := ProcessText(t, pos, f, sgr);
    var o := Interp(t, pos, f, sgr);
    Flatten(s.segments) == o.cells && s.format == o.format && s.pending == o.held
  }

  /**
   * The match loop agrees with the reference reading: from `pos`, it shows the cells
   * `Interp` shows, and ends in the same format with the same text held.
   */
  lemma {:induction false} ProcessTextMatchesInterp(t: string, pos: nat, f: Format, sgr: CodeEffect)
    requires pos <= |t|
    ensures LoopAgrees(t, pos, f, sgr)
    decreases |t| - pos
  {
    match NextSgr(t, pos)
    case None =>
      ProcessTextNoMatch(t, pos, f, sgr);
      RemainingTextMatchesInterp(t, pos, f, sgr);
    case Some(p) =>
      var n := SgrAt(t, p).value;
      ProcessTextMatchesInterp(t, p + n, sgr(ParamsAt(t, p), f), sgr);
      MatchesInterpAtMatch(t, pos, p, f, sgr);
  }

  /** The match loop's step at the next sequence agrees with the reference reading, given that the rest does. */
  lemma MatchesInterpAtMatch(t: string, pos: nat, p: nat, f: Format, sgr: CodeEffect)
    requires pos <= |t| && NextSgr(t, pos) == Some(p)
    requires var n := SgrAt(t, p).value; LoopAgrees(t, p + n, sgr(ParamsAt(t, p), f), sgr)
    ensures LoopAgrees(t, pos, f, sgr)
  {
    var n := SgrAt(t, p).value;
    var g := sgr(ParamsAt(t, p), f);
    ProcessTextAtMatch(t, pos, p, f, sgr);
    NextSgrLeftmost(t, pos);
    InterpAtMatch(t, pos, p, f, sgr);
    var lit := if p > pos then [Segment(t[pos..p], f)] else [];
    assert Flatten(lit) == Cells(t[pos..p], f);
    Compose(ProcessText(t, pos, f, sgr), ProcessText(t, p + n, g, sgr), Interp(t, pos, f, sgr), Interp(t, p + n, g, sgr), lit, Cells(t[pos..p], f));
  }

  /** Literal runs in front of a scan that agrees with a reading, matching cells in front of the reading. */
  lemma Compose(s: Scan, r: Scan, o: Outcome, q: Outcome, lit: seq<Segment>, c: seq<Cell>)
    requires s.segments == lit + r.segments && s.format == r.format && s.pending == r.pending
    requires o == Outcome(c + q.cells, q.format, q.held)
    requires Flatten(lit) == c
    requires Flatten(r.segments) == q.cells && r.format == q.format && r.pending == q.held
    ensures Flatten(s.segments) == o.cells && s.format == o.format && s.pending == o.held
  {
    FlattenAppend(lit, r.segments);
  }

  /**
   * Text before the next sequence is shown in the current format, and reading goes on
   * after the sequence in the format it selects.
   */
  lemma InterpAtMatch(t: string, pos: nat, p: nat, f: Format, sgr: CodeEffect)
    requires pos <= p < |t| && SgrAt(t, p).Some? && LiteralFor(t, pos, p - pos)
    ensures var n := SgrAt(t, p).value;
      var o := Interp(t, p + n, sgr(ParamsAt(t, p), f), sgr);
      Interp(t, pos, f, sgr) == Outcome(Cells(t[pos..p], f) + o.cells, o.format, o.held)
  {
    LiteralRun(t, pos, p, f, sgr);
  }

  /** A well-shaped buffer at `j..k` followed by an ESC is text in which no sequence starts. */
  lemma BufferIsLiteral(w: string, j: nat, k: nat)
    requires j < k < |w| && ValidPending(w[j..k]) && w[k] == ESC
    ensures LiteralFor(w, j, k - j)
  {
    var buf := w[j..k];
    if SgrAt(w, j).Some? {
      var n := SgrAt(w, j).value;
      SgrEscOnlyFirst(w, j);
      assert w[..k][j..] == buf;
      assert j + n <= k;
      SgrAtPrefix(w, j, k);
      SgrAtSuffix(w[..k], j);
      assert false;
    }
    forall i | j + 1 <= i < k ensures w[i] != ESC {
      assert w[i] == buf[i - j];
    }
    LiteralForNoEsc(w, j + 1, k - j - 1);
  }

  /** A buffer at `j..k` completed by the character at `k` is a sequence starting at `j`. */
  lemma BufferCompletes(w: string, j: nat, k: nat)
    requires j < k < |w| && IsSgr(w[j..k + 1])
    ensures SgrAt(w, j) == Some(k + 1 - j)
    ensures Params(w[j..k + 1]) == w[j + 2..k]
  {
    var x := w[j..k + 1];
    SgrAtExact(x, 0, |x|);
    assert w[..k + 1][j..] == x;
    SgrAtSuffix(w[..k + 1], j);
    SgrAtExtend(w, j, k + 1);
  }

  /** A well-shaped buffer running to the end of the text is held back whole. */
  lemma HeldAtEnd(w: string, j: nat, f: Format, sgr: CodeEffect)
    requires j <= |w| && ValidPending(w[j..])
    ensures Interp(w, j, f, sgr) == Outcome([], f, w[j..])
  {
    if j < |w| {
      SgrAtSuffix(w, j);
      forall i | j + 1 <= i < |w| ensures w[i] != ESC {
        assert w[i] == w[j..][i - j];
      }
    }
  }

  /** The machine's first step at `k`, followed by the rest of the run. */
  lemma RunUnfold(w: string, k: nat, f: Format, buf: string, sgr: CodeEffect)
    requires k < |w|
    ensures var s := Step(w[k], f, buf, sgr);
      var o := Run(w, k + 1, s.format, s.held, sgr);
      Run(w, k, f, buf, sgr) == Outcome(s.cells + o.cells, o.format, o.held)
  {
  }

  /** With an empty buffer, an ESC is remembered and anything else is shown. */
  lemma RunFromEmpty(w: string, k: nat, f: Format, sgr: CodeEffect)
    requires k < |w|
    requires w[k] == ESC ==> Run(w, k + 1, f, w[k..k + 1], sgr) == Interp(w, k, f, sgr)
    requires w[k] != ESC ==> Run(w, k + 1, f, w[k + 1..k + 1], sgr) == Interp(w, k + 1, f, sgr)
    ensures Run(w, k, f, [], sgr) == Interp(w, k, f, sgr)
  {
    assert w[k..k + 1] == [w[k]] && w[k + 1..k + 1] == [];
    RunUnfold(w, k, f, [], sgr);
    if w[k] == ESC {
      assert [] + Interp(w, k, f, sgr).cells == Interp(w, k, f, sgr).cells;
    } else {
      InterpShowsFirst(w, k, f, sgr);
    }
  }

  /** An ESC after a buffer shows the buffer as text and starts a new buffer. */
  lemma RunBufferThenEsc(w: string, j: nat, k: nat, f: Format, sgr: CodeEffect)
    requires j < k < |w| && ValidPending(w[j..k]) && w[k] == ESC
    requires Run(w, k + 1, f, w[k..k + 1], sgr) == Interp(w, k, f, sgr)
    ensures Run(w, k, f, w[j..k], sgr) == Interp(w, j, f, sgr)
  {
    assert w[k..k + 1] == [ESC];
    RunUnfold(w, k, f, w[j..k], sgr);
    BufferIsLiteral(w, j, k);
    LiteralRun(w, j, k, f, sgr);
  }

  /** A character that completes the buffer into a sequence applies it. */
  lemma RunCompletes(w: string, j: nat, k: nat, f: Format, g: Format, sgr: CodeEffect)
    requires j < k < |w| && w[k] != ESC && IsSgr(w[j..k] + [w[k]])
    requires g == sgr(w[j + 2..k], f)
    requires Run(w, k + 1, g, w[k + 1..k + 1], sgr) == Interp(w, k + 1, g, sgr)
    ensures Run(w, k, f, w[j..k], sgr) == Interp(w, j, f, sgr)
  {
    var o := Interp(w, k + 1, g, sgr);
    assert w[k + 1..k + 1] == [];
    assert w[j..k] + [w[k]] == w[j..k + 1];
    BufferCompletes(w, j, k);
    assert Step(w[k], f, w[j..k], sgr) == Outcome([], g, []);
    assert Interp(w, j, f, sgr) == o;
    RunUnfold(w, k, f, w[j..k], sgr);
    assert [] + o.cells == o.cells;
  }

  /** Any other character extends the buffer. */
  lemma RunExtends(w: string, j: nat, k: nat, f: Format, sgr: CodeEffect)
    requires j < k < |w| && w[k] != ESC && !IsSgr(w[j..k] + [w[k]])
    requires Run(w, k + 1, f, w[j..k + 1], sgr) == Interp(w, j, f, sgr)
    ensures Run(w, k, f, w[j..k], sgr) == Interp(w, j, f, sgr)
  {
    assert w[j..k] + [w[k]] == w[j..k + 1];
    RunUnfold(w, k, f, w[j..k], sgr);
    assert [] + Interp(w, j, f, sgr).cells == Interp(w, j, f, sgr).cells;
  }

  /**
   * The character machine agrees with the reference reading: resumed at `k` with the
   * well-shaped buffer `w[j..k]`, it yields what `Interp` yields from `j`.
   */
  lemma {:induction false} RunMatchesInterp(w: string, j: nat, k: nat, f: Format, sgr: CodeEffect)
    requires j <= k <= |w| && ValidPending(w[j..k])
    ensures Run(w, k, f, w[j..k], sgr) == Interp(w, j, f, sgr)
    decreases |w| - k
  {
    if k == |w| {
      assert w[j..k] == w[j..];
      HeldAtEnd(w, j, f, sgr);
    } else if j == k {
      assert w[j..k] == [];
      if w[k] == ESC {
        assert w[k..k + 1] == [ESC];
        RunMatchesInterp(w, k, k + 1, f, sgr);
      } else {
        assert w[k + 1..k + 1] == [];
        RunMatchesInterp(w, k + 1, k + 1, f, sgr);
      }
      RunFromEmpty(w, k, f, sgr);
    } else if w[k] == ESC {
      assert w[k..k + 1] == [ESC];
      RunMatchesInterp(w, k, k + 1, f, sgr);
      RunBufferThenEsc(w, j, k, f, sgr);
    } else if IsSgr(w[j..k] + [w[k]]) {
      var g := sgr(w[j + 2..k], f);
      RunMatchesInterp(w, k + 1, k + 1, g, sgr);
      RunCompletes(w, j, k, f, g, sgr);
    } else {
      assert w[j..k] + [w[k]] == w[j..k + 1];
      assert ValidPending(w[j..k + 1]) by {
        ExtendKeepsPending(w[j..k], w[k]);
      }
      RunMatchesInterp(w, j, k + 1, f, sgr);
      RunExtends(w, j, k, f, sgr);
    }
  }

  /** The machine reads only the characters from its position on. */
  lemma {:induction false} RunShift(a: string, c: string, i: nat, f: Format, buf: string, sgr: CodeEffect)
    requires i <= |c|
    ensures Run(a + c, |a| + i, f, buf, sgr) == Run(c, i, f, buf, sgr)
    decreases |c| - i
  {
    if i < |c| {
      assert (a + c)[|a| + i] == c[i];
      var s := Step(c[i], f, buf, sgr);
      RunShift(a, c, i + 1, s.format, s.held, sgr);
    }
  }

  /** Feeding `o`'s state the text `b`, after the cells `o` has already shown. */
  function Then(o: Outcome, b: string, sgr: CodeEffect): Outcome {
    var o2 := Feed(b, o.format, o.held, sgr);
    Outcome(o.cells + o2.cells, o2.format, o2.held)
  }

  /** Feeding `a + b` from position `i` is feeding `a` from `i`, then `b`. */
  lemma {:induction false} RunAppend(a: string, b: string, i: nat, f: Format, buf: string, sgr: CodeEffect)
    requires i <= |a|
    ensures Run(a + b, i, f, buf, sgr) == Then(Run(a, i, f, buf, sgr), b, sgr)
    decreases |a| - i
  {
    if i == |a| {
      RunShift(a, b, 0, f, buf, sgr);
      assert [] + Feed(b, f, buf, sgr).cells == Feed(b, f, buf, sgr).cells;
    } else {
      assert (a + b)[i] == a[i];
      var s := Step(a[i], f, buf, sgr);
      RunAppend(a, b, i + 1, s.format, s.held, sgr);
      var o := Run(a, i + 1, s.format, s.held, sgr);
      var o2 := Feed(b, o.format, o.held, sgr);
      assert s.cells + (o.cells + o2.cells) == (s.cells + o.cells) + o2.cells;
    }
  }

  /** The machine composes over concatenation: feeding `a + b` is feeding `a`, then `b`. */
  lemma FeedAppend(a: string, b: string, f: Format, buf: string, sgr: CodeEffect)
    ensures Feed(a + b, f, buf, sgr) == Then(Feed(a, f, buf, sgr), b, sgr)
  {
    RunAppend(a, b, 0, f, buf, sgr);
  }

  /**
   * One `AppendAnsiText` call shows what the character machine shows when fed the chunk
   * from the box's format and buffer, and leaves the machine's format and buffer.
   */
  lemma AppendMatchesFeed(st: State, chunk: string)
    requires ValidPending(st.pending)
    ensures var r := AppendAnsiText(st, chunk);
      var o := Feed(chunk, st.current, st.pending, EffectOf(st.ambient));
      Flatten(r.segments) == o.cells && r.state == State(st.ambient, o.format, o.held)
  {
    if chunk != [] {
      var full := st.pending + chunk;
      ProcessTextMatchesInterp(full, 0, st.current, EffectOf(st.ambient));
      assert full[0..|st.pending|] == st.pending;
      RunMatchesInterp(full, 0, |st.pending|, st.current, EffectOf(st.ambient));
      RunShift(st.pending, chunk, 0, st.current, st.pending, EffectOf(st.ambient));
    }
  }

  /** The chunks joined into one string. */
  function Concat(chunks: seq<string>): string {
    if chunks == [] then [] else chunks[0] + Concat(chunks[1..])
  }

  /**
   * Successive `AppendAnsiText` calls, one per chunk, in order: the box's state after
   * the last and all segments appended.
   */
  function AppendAll(st: State, chunks: seq<string>): (r: Fed)
    ensures r.state.ambient == st.ambient
    decreases |chunks|
  {
    if chunks == [] then Fed(st, [])
    else
      var first := AppendAnsiText(st, chunks[0]);
      var rest := AppendAll(first.state, chunks[1..]);
      Fed(rest.state, first.segments + rest.segments)
  }

  /**
   * Appending the chunks one by one shows what the machine shows when fed their
   * concatenation, and leaves the machine's format and buffer.
   */
  lemma {:induction false} AppendAllMatchesFeed(st: State, chunks: seq<string>)
    requires ValidPending(st.pending)
    ensures var r := AppendAll(st, chunks);
      var o := Feed(Concat(chunks), st.current, st.pending, EffectOf(st.ambient));
      Flatten(r.segments) == o.cells && r.state == State(st.ambient, o.format, o.held)
    decreases |chunks|
  {
    if chunks != [] {
      var first := AppendAnsiText(st, chunks[0]);
      AppendMatchesFeed(st, chunks[0]);
      AppendShape(st, chunks[0]);
      AppendAllMatchesFeed(first.state, chunks[1..]);
      FeedAppend(chunks[0], Concat(chunks[1..]), st.current, st.pending, EffectOf(st.ambient));
      FlattenAppend(first.segments, AppendAll(first.state, chunks[1..]).segments);
    }
  }

  /**
   * How the output is cut into chunks does not matter: the same text, however split,
   * shows the same characters in the same formats and leaves the same state.
   */
  lemma SplitInvariance(st: State, c1: seq<string>, c2: seq<string>)
    requires ValidPending(st.pending) && Concat(c1) == Concat(c2)
    ensures Flatten(AppendAll(st, c1).segments) == Flatten(AppendAll(st, c2).segments)
    ensures AppendAll(st, c1).state == AppendAll(st, c2).state
  {
    AppendAllMatchesFeed(st, c1);
    AppendAllMatchesFeed(st, c2);
  }
}
