/** The editor's word lookup `getWordRangeAtPosition(position, /\S+/)`, reduced
    to what the wrap loop reads from it: the start column of the maximal run of
    non-white-space characters at a position of one line, if there is one.

    The functions here carry no postconditions of their own; what they compute
    is stated by the lemmas beside them, which callers invoke where they need
    it. */
module WordRange {
  import opened Strings

  datatype Option<T> = None | Some(value: T)

  /** Column `p` lies strictly inside a run: the characters on both sides of
      it are non-white-space, so cutting the line at `p` would split a word. */
  predicate InsideRun(line: string, p: nat) {
    0 < p < |line| && !IsSpace(line[p - 1]) && !IsSpace(line[p])
  }

  /** Column `s` begins a run (it is the line start or follows white space) and
      the run reaches at least to column `p`: every character from `s` up to,
      but not including, `p` is non-white-space, and so is the one at `s`. */
  predicate RunReaches(line: string, s: nat, p: nat) {
    s < |line| && !IsSpace(line[s]) && (s == 0 || IsSpace(line[s - 1]))
    && forall k :: s <= k < p && k < |line| ==> !IsSpace(line[k])
  }

  /** The first column of the run that contains the non-white-space character
      at `i`: walk left while the character before is non-white-space. */
  function RunStart(line: string, i: nat): nat
    requires i < |line| && !IsSpace(line[i])
    decreases i
  {
    if i > 0 && !IsSpace(line[i - 1]) then RunStart(line, i - 1) else i
  }

  /** `RunStart` finds the start of the run, and that run covers `i`. */
  lemma {:induction false} RunStartSpec(line: string, i: nat)
    requires i < |line| && !IsSpace(line[i])
    ensures RunStart(line, i) <= i && RunReaches(line, RunStart(line, i), i + 1)
    decreases i
  {
    if i > 0 && !IsSpace(line[i - 1]) {
      RunStartSpec(line, i - 1);
    }
  }

  /** The start of the run found at column `p`, or None. A run covers `p` when
      the character at `p` belongs to it; the editor's own rule for a run that
      ends exactly at `p` (its last character at `p - 1`) is not visible to the
      caller, so `endInclusive` says whether such a run counts as well. */
  function WordStartAt(line: string, p: nat, endInclusive: bool): Option<nat> {
    if p < |line| && !IsSpace(line[p]) then Some(RunStart(line, p))
    else if endInclusive && 0 < p <= |line| && !IsSpace(line[p - 1]) then Some(RunStart(line, p - 1))
    else None
  }

  /** A run is found exactly when the character at `p` is non-white-space or,
      with `endInclusive`, the one just before it is; the column found starts
      a run that reaches `p`. */
  lemma WordStartAtSpec(line: string, p: nat, endInclusive: bool)
    ensures WordStartAt(line, p, endInclusive).Some? <==>
      (p < |line| && !IsSpace(line[p])) || (endInclusive && 0 < p <= |line| && !IsSpace(line[p - 1]))
    ensures WordStartAt(line, p, endInclusive).Some? ==>
      var s := WordStartAt(line, p, endInclusive).value;
      s <= p && p <= |line| && RunReaches(line, s, p)
  {
    if p < |line| && !IsSpace(line[p]) {
      RunStartSpec(line, p);
    } else if endInclusive && 0 < p <= |line| && !IsSpace(line[p - 1]) {
      RunStartSpec(line, p - 1);
    }
  }
}
