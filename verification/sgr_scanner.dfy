/**
 * Recognition of SGR sequences `ESC '[' [0-9;]* 'm'` in a string. The source finds them
 * with a compiled regular expression; because a match holds exactly one ESC (its first
 * character), matches never overlap and a match exists at position p exactly when a
 * complete sequence starts at p. The scanner below states that directly, by position,
 * instead of modelling the regex engine.
 */
module SgrScanner {
  import opened Wrappers

  /** The escape-introducer character U+001B. */
  const ESC: char := 27 as char

  /** No ESC occurs in `s` at or after position `from`. */
  predicate EscFreeFrom(s: string, from: nat) {
    forall i :: from <= i < |s| ==> s[i] != ESC
  }

  /** A character the parameter part of an SGR sequence may hold: a digit or ';'. */
  predicate IsParamChar(c: char) {
    '0' <= c <= '9' || c == ';'
  }

  /** The `n` characters of `s` from position `i` form one whole SGR sequence. */
  predicate IsSgrAt(s: string, i: nat, n: nat) {
    && n >= 3
    && i + n <= |s|
    && s[i] == ESC
    && s[i + 1] == '['
    && s[i + n - 1] == 'm'
    && forall j :: i + 2 <= j < i + n - 1 ==> IsParamChar(s[j])
  }

  /** `x` is one whole SGR sequence: ESC, '[', parameter characters, 'm'. */
  predicate IsSgr(x: string) {
    IsSgrAt(x, 0, |x|)
  }

  /** The parameter string of a whole SGR sequence (the regex's capture group). */
  function Params(x: string): string
    requires |x| >= 3
  {
    x[2..|x| - 1]
  }

  /** Length of the longest run of parameter characters in `s` starting at index `i`. */
  function ParamRunFrom(s: string, i: nat): (n: nat)
    requires i <= |s|
    ensures i + n <= |s|
    decreases |s| - i
  {
    if i == |s| || !IsParamChar(s[i]) then 0 else 1 + ParamRunFrom(s, i + 1)
  }

  /** The run `ParamRunFrom` measures is made of parameter characters and cannot be extended. */
  lemma {:induction false} ParamRunSpec(s: string, i: nat)
    requires i <= |s|
    ensures forall j :: i <= j < i + ParamRunFrom(s, i) ==> IsParamChar(s[j])
    ensures i + ParamRunFrom(s, i) < |s| ==> !IsParamChar(s[i + ParamRunFrom(s, i)])
    decreases |s| - i
  {
    if i < |s| && IsParamChar(s[i]) {
      ParamRunSpec(s, i + 1);
    }
  }

  /** A run of parameter characters ended by another character is what `ParamRunFrom` measures. */
  lemma {:induction false} ParamRunExact(s: string, i: nat, m: nat)
    requires i <= m < |s| && !IsParamChar(s[m])
    requires forall j :: i <= j < m ==> IsParamChar(s[j])
    ensures ParamRunFrom(s, i) == m - i
    decreases m - i
  {
    if i < m {
      ParamRunExact(s, i + 1, m);
    }
  }

  /**
   * The length of the SGR sequence that starts at position `i` of `s`, if any: the
   * maximal run of parameter characters after ESC '[' must be followed by 'm'.
   */
  function SgrAt(s: string, i: nat): (r: Option<nat>)
    requires i <= |s|
    ensures r.Some? ==> 3 <= r.value && i + r.value <= |s|
    ensures r.Some? ==> s[i] == ESC
  {
    if i + 2 <= |s| && s[i] == ESC && s[i + 1] == '[' then
      var k := ParamRunFrom(s, i + 2);
      if i + 2 + k < |s| && s[i + 2 + k] == 'm' then Some(3 + k) else None
    else
      None
  }

  /** The parameter string of the sequence that starts at `p`: the regex's capture group. */
  function ParamsAt(t: string, p: nat): string
    requires p <= |t| && SgrAt(t, p).Some?
  {
    t[p + 2..p + SgrAt(t, p).value - 1]
  }

  /** What `SgrAt` reports is a whole SGR sequence. */
  lemma SgrAtSound(s: string, i: nat)
    requires i <= |s| && SgrAt(s, i).Some?
    ensures IsSgrAt(s, i, SgrAt(s, i).value)
  {
    ParamRunSpec(s, i + 2);
  }

  /** A whole SGR sequence starting at `i` is exactly what `SgrAt` reports. */
  lemma SgrAtExact(s: string, i: nat, n: nat)
    requires IsSgrAt(s, i, n)
    ensures SgrAt(s, i) == Some(n)
  {
    ParamRunExact(s, i + 2, i + n - 1);
  }

  /** A complete sequence holds no ESC after its first character. */
  lemma SgrEscOnlyFirst(s: string, i: nat)
    requires i <= |s| && SgrAt(s, i).Some?
    ensures forall j :: i < j < i + SgrAt(s, i).value ==> s[j] != ESC
  {
    SgrAtSound(s, i);
  }

  /** Whether a sequence starts at `i` depends only on the characters from `i` on. */
  lemma SgrAtSuffix(s: string, i: nat)
    requires i <= |s|
    ensures SgrAt(s[i..], 0) == SgrAt(s, i)
  {
    var u := s[i..];
    if SgrAt(s, i).Some? {
      var n := SgrAt(s, i).value;
      SgrAtSound(s, i);
      assert forall j :: 2 <= j < n - 1 ==> u[j] == s[i + j];
      SgrAtExact(u, 0, n);
    } else if SgrAt(u, 0).Some? {
      var n := SgrAt(u, 0).value;
      SgrAtSound(u, 0);
      assert forall j :: i + 2 <= j < i + n - 1 ==> s[j] == u[j - i];
      SgrAtExact(s, i, n);
    }
  }

  /** A sequence that ends by position `k` is found the same way in `s[..k]`. */
  lemma SgrAtPrefix(s: string, i: nat, k: nat)
    requires i <= k <= |s|
    requires SgrAt(s, i).Some? && i + SgrAt(s, i).value <= k
    ensures SgrAt(s[..k], i) == SgrAt(s, i)
  {
    var n := SgrAt(s, i).value;
    SgrAtSound(s, i);
    assert forall j :: i <= j < k ==> s[..k][j] == s[j];
    SgrAtExact(s[..k], i, n);
  }

  /** A sequence found in `s[..k]` is found the same way in `s`. */
  lemma SgrAtExtend(s: string, i: nat, k: nat)
    requires i <= k <= |s| && SgrAt(s[..k], i).Some?
    ensures SgrAt(s, i) == SgrAt(s[..k], i)
  {
    var n := SgrAt(s[..k], i).value;
    SgrAtSound(s[..k], i);
    assert forall j :: i <= j < k ==> s[..k][j] == s[j];
    SgrAtExact(s, i, n);
  }

  /**
   * The leftmost position at or after `pos` where an SGR sequence starts: the next
   * match `Regex.Matches` yields when scanning resumes at `pos`.
   */
  function NextSgr(t: string, pos: nat): (r: Option<nat>)
    requires pos <= |t|
    ensures r.Some? ==> pos <= r.value < |t| && SgrAt(t, r.value).Some?
    decreases |t| - pos
  {
    if pos == |t| then None
    else if SgrAt(t, pos).Some? then Some(pos)
    else NextSgr(t, pos + 1)
  }

  /** The sequence `NextSgr` finds is the leftmost: none starts before it, or anywhere if none is found. */
  lemma {:induction false} NextSgrLeftmost(t: string, pos: nat)
    requires pos <= |t|
    ensures var r := NextSgr(t, pos); LiteralFor(t, pos, (if r.Some? then r.value else |t|) - pos)
    decreases |t| - pos
  {
    if pos < |t| && SgrAt(t, pos).None? {
      NextSgrLeftmost(t, pos + 1);
    }
  }

  /** No SGR sequence starts at any of the `n` positions of `s` from `i` on. */
  predicate LiteralFor(s: string, i: nat, n: nat)
    requires i + n <= |s|
    decreases n
  {
    n == 0 || (SgrAt(s, i).None? && LiteralFor(s, i + 1, n - 1))
  }

  /** No sequence starts at a position `LiteralFor` covers. */
  lemma {:induction false} LiteralForGet(s: string, i: nat, n: nat, k: nat)
    requires i + n <= |s| && LiteralFor(s, i, n) && i <= k < i + n
    ensures SgrAt(s, k).None?
    decreases n
  {
    if k > i {
      LiteralForGet(s, i + 1, n - 1, k);
    }
  }

  /** Where no ESC occurs, no sequence starts either. */
  lemma {:induction false} LiteralForNoEsc(s: string, i: nat, n: nat)
    requires i + n <= |s|
    requires forall j :: i <= j < i + n ==> s[j] != ESC
    ensures LiteralFor(s, i, n)
    decreases n
  {
    if n > 0 {
      LiteralForNoEsc(s, i + 1, n - 1);
    }
  }

  /** `String.LastIndexOf(char)`: the last position of `c` in `s`, or -1. */
  function LastIndexOf(s: string, c: char): (k: int)
    ensures -1 <= k < |s|
  {
    LastIndexBefore(s, c, |s|)
  }

  /** The last position of `c` among the first `end` characters of `s`, or -1. */
  function LastIndexBefore(s: string, c: char, end: nat): (k: int)
    requires end <= |s|
    ensures -1 <= k < end
    decreases end
  {
    if end == 0 then -1
    else if s[end - 1] == c then end - 1
    else LastIndexBefore(s, c, end - 1)
  }

  /** `LastIndexBefore` finds `c`, and no `c` follows it before `end`; -1 means none occurs. */
  lemma {:induction false} LastIndexBeforeSpec(s: string, c: char, end: nat)
    requires end <= |s|
    ensures var k := LastIndexBefore(s, c, end);
      && (k >= 0 ==> s[k] == c)
      && forall j :: k < j < end ==> s[j] != c
    decreases end
  {
    if end > 0 && s[end - 1] != c {
      LastIndexBeforeSpec(s, c, end - 1);
    }
  }

  /** `LastIndexOf` finds `c`, and no `c` follows it; -1 means `c` does not occur. */
  lemma LastIndexOfSpec(s: string, c: char)
    ensures var k := LastIndexOf(s, c);
      && (k >= 0 ==> s[k] == c)
      && forall j :: k < j < |s| ==> s[j] != c
  {
    LastIndexBeforeSpec(s, c, |s|);
  }

  /**
   * The shape of the buffer that holds a possibly incomplete sequence between two
   * chunks: empty, or an ESC followed by no other ESC, with no complete SGR sequence
   * at its start.
   */
  predicate ValidPending(p: string) {
    p == [] || (p[0] == ESC && EscFreeFrom(p, 1) && SgrAt(p, 0).None?)
  }
}
