/**
 * The batch-update guard `AppendAnsiText` wraps around its work: `BeginUpdate` and
 * `EndUpdate` keep a nesting count, suspend layout and hide the vertical scrollbar on
 * the outermost `BeginUpdate`, and undo both and repaint on the matching `EndUpdate`.
 * The Win32 and Windows Forms calls are not modelled; each call returns the effects it
 * would have, in order, and the scrollbar's state is an input read at the outermost
 * `BeginUpdate`.
 */
module BatchUpdate {

  /** One call on the control that a guard operation makes. */
  datatype Effect =
    | SuspendLayout
    | HideScrollBar                    // clear WS_VSCROLL in the window style
    | ShowScrollBar                    // set WS_VSCROLL again
    | RestoreScrollPosition(pos: int)  // SetScrollPosition(saved position)
    | ResumeLayout
    | Repaint                          // Invalidate() and Update()

  /** The guard's fields: nesting count, whether a scrollbar was hidden, the position saved then. */
  datatype Guard = Guard(count: int, hadScrollBar: bool, savedScrollPos: int, scrollAfterUpdate: bool)

  /** The guard of a new control: all fields at their .NET defaults. */
  const Idle: Guard := Guard(0, false, 0, false)

  /** A guard operation's new state and the effects it had, in order. */
  datatype Step = Step(guard: Guard, effects: seq<Effect>)

  /**
   * `BeginUpdate`. `scrollBarShown` and `scrollPos` are what the window reports; they
   * are read only by the outermost call.
   */
  function BeginUpdate(g: Guard, scrollBarShown: bool, scrollPos: int): Step {
    var count := g.count + 1;
    if count == 1 then
      Step(Guard(count, scrollBarShown, if scrollBarShown then scrollPos else g.savedScrollPos, true),
           [SuspendLayout] + (if scrollBarShown then [HideScrollBar] else []))
    else
      Step(g.(count := count), [])
  }

  /** `EndUpdate`. */
  function EndUpdate(g: Guard): Step {
    if g.count <= 0 then Step(g, [])
    else
      var count := g.count - 1;
      if count == 0 then
        var scroll :=
          if g.hadScrollBar then
            [ShowScrollBar] + (if !g.scrollAfterUpdate then [RestoreScrollPosition(g.savedScrollPos)] else [])
          else [];
        Step(g.(count := count), scroll + [ResumeLayout, Repaint])
      else
        Step(g.(count := count), [])
  }

  /** A call of `BeginUpdate` (with what the window reports at that moment) or of `EndUpdate`. */
  datatype Call = Begin(scrollBarShown: bool, scrollPos: int) | End

  /** One call. */
  function Apply(g: Guard, c: Call): Step {
    match c
    case Begin(shown, pos) => BeginUpdate(g, shown, pos)
    case End => EndUpdate(g)
  }

  /** The calls `cs`, one after the other: the final guard and every effect in order. */
  function Calls(g: Guard, cs: seq<Call>): Step
    decreases |cs|
  {
    if cs == [] then Step(g, [])
    else
      var s := Apply(g, cs[0]);
      var t := Calls(s.guard, cs[1..]);
      Step(t.guard, s.effects + t.effects)
  }

  /** 1 when `b` holds, else 0. */
  function Indicator(b: bool): int {
    if b then 1 else 0
  }

  /** `EndUpdate` without a matching `BeginUpdate` changes nothing and does nothing. */
  lemma UnmatchedEndIsNoOp(g: Guard)
    requires g.count <= 0
    ensures EndUpdate(g) == Step(g, [])
  {
  }

  /** The nesting count never goes below zero. */
  lemma {:induction false} CountStaysNatural(g: Guard, cs: seq<Call>)
    requires g.count >= 0
    ensures Calls(g, cs).guard.count >= 0
    decreases |cs|
  {
    if cs != [] {
      CountStaysNatural(Apply(g, cs[0]).guard, cs[1..]);
    }
  }

  /**
   * The guard's invariant: the count is never negative, and while an update is open the
   * guard is set to scroll after it rather than restore the saved position.
   */
  predicate Valid(g: Guard) {
    g.count >= 0 && (g.count > 0 ==> g.scrollAfterUpdate)
  }

  /**
   * What one call owes: suspensions minus resumptions, and hidings minus showings,
   * change by what the open state changes, and every resumption comes with a repaint.
   */
  predicate Balanced(g: Guard, t: Guard, effects: seq<Effect>) {
    var m := multiset(effects);
    && m[SuspendLayout] as int - m[ResumeLayout] as int
       == Indicator(t.count > 0) - Indicator(g.count > 0)
    && m[HideScrollBar] as int - m[ShowScrollBar] as int
       == Indicator(t.count > 0 && t.hadScrollBar) - Indicator(g.count > 0 && g.hadScrollBar)
    && m[Repaint] == m[ResumeLayout]
  }

  /** One call keeps the guard valid and is balanced. */
  lemma ApplyBalance(g: Guard, c: Call)
    requires Valid(g)
    ensures Valid(Apply(g, c).guard) && Balanced(g, Apply(g, c).guard, Apply(g, c).effects)
  {
  }

  /** Balanced stretches of calls make a balanced whole. */
  lemma BalanceCompose(g: Guard, h: Guard, t: Guard, a: seq<Effect>, b: seq<Effect>)
    requires Balanced(g, h, a) && Balanced(h, t, b)
    ensures Balanced(g, t, a + b)
  {
    assert multiset(a + b) == multiset(a) + multiset(b);
  }

  /**
   * Layout is suspended exactly while an update is open, and the scrollbar is hidden
   * exactly while an update that found it shown is open: over any calls, suspensions
   * minus resumptions, and hidings minus showings, change by what the open state changes.
   */
  lemma {:induction false} CallsBalance(g: Guard, cs: seq<Call>)
    requires Valid(g)
    ensures Valid(Calls(g, cs).guard) && Balanced(g, Calls(g, cs).guard, Calls(g, cs).effects)
    decreases |cs|
  {
    if cs != [] {
      var s := Apply(g, cs[0]);
      ApplyBalance(g, cs[0]);
      CallsBalance(s.guard, cs[1..]);
      var t := Calls(s.guard, cs[1..]);
      BalanceCompose(g, s.guard, t.guard, s.effects, t.effects);
    } else {
      assert multiset(Calls(g, cs).effects) == multiset{};
    }
  }

  /**
   * The saved scroll position is never restored: every outermost `BeginUpdate` asks for
   * a scroll after the update, so the restoring branch of `EndUpdate` cannot run.
   */
  lemma {:induction false} NeverRestoresScroll(g: Guard, cs: seq<Call>, pos: int)
    requires Valid(g)
    ensures RestoreScrollPosition(pos) !in Calls(g, cs).effects
    decreases |cs|
  {
    if cs != [] {
      var s := Apply(g, cs[0]);
      ApplyBalance(g, cs[0]);
      NeverRestoresScroll(s.guard, cs[1..], pos);
    }
  }

  /**
   * One `AppendAnsiText` call on an idle guard: layout is suspended and resumed once,
   * the scrollbar is hidden and shown again exactly when it was showing, and the guard
   * is idle again apart from what it remembers.
   */
  lemma AppendBracket(g: Guard, shown: bool, pos: int)
    requires Valid(g) && g.count == 0
    ensures var t := Calls(g, [Begin(shown, pos), End]);
      && t.guard.count == 0
      && t.effects == (if shown then [SuspendLayout, HideScrollBar, ShowScrollBar] else [SuspendLayout])
                      + [ResumeLayout, Repaint]
  {
    var cs := [Begin(shown, pos), End];
    var s1 := BeginUpdate(g, shown, pos);
    var s2 := EndUpdate(s1.guard);
    assert cs[1..] == [End] && [End][1..] == [];
    assert Calls(s1.guard, [End]) == Step(s2.guard, s2.effects + []);
    assert Calls(g, cs) == Step(s2.guard, s1.effects + (s2.effects + []));
  }

  /**
   * Only the outermost calls act: `BeginUpdate` suspends layout exactly when no update
   * was open, and `EndUpdate` resumes it exactly when it closes the last open one.
   */
  lemma OutermostOnly(g: Guard, shown: bool, pos: int)
    ensures SuspendLayout in BeginUpdate(g, shown, pos).effects <==> g.count == 0
    ensures ResumeLayout in EndUpdate(g).effects <==> g.count == 1
    ensures BeginUpdate(g, shown, pos).effects != [] <==> g.count == 0
    ensures EndUpdate(g).effects != [] <==> g.count == 1
  {
  }
}
