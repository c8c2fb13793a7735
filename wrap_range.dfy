/** `wrapSelectedLines` over an inclusive range of document lines
    (src/extension.ts:48-85): each line is wrapped by `Reflow.WrapLine`, and a
    line from which anything was cut gets one replacement record. */
module Wrap {
  import opened Strings
  import opened WordRange
  import opened Reflow

  /** `line.range` of a document line: from column `startColumn` to column
      `endColumn` of line `line`. */
  datatype Span = Span(line: nat, startColumn: nat, endColumn: nat)

  /** One entry of `changedLines`: the range to replace and its new text. */
  datatype Change = Change(pos: Span, newContent: string)

  /** `outputLines.join('\n') + text` (src/extension.ts:82). */
  function NewContent(pieces: seq<string>, rest: string): string {
    Join(pieces, "\n") + rest
  }

  /** The record the loop body pushes for line `i`, if it pushes one. */
  function ChangeAt(lines: seq<string>, i: nat, width: nat, endInclusive: bool): Option<Change>
    requires i < |lines|
  {
    var pieces := Trimmed(Cuts(lines[i], width, endInclusive));
    if |pieces| > 0 then
      Some(Change(Span(i, 0, |lines[i]|), NewContent(pieces, Remainder(lines[i], width, endInclusive))))
    else None
  }

  /** What the loop body does for each line from `first` up to, but not
      including, `upto`: entry `k` is the outcome for line `first + k`. */
  function Outcomes(lines: seq<string>, first: nat, upto: nat, width: nat, endInclusive: bool): (os: seq<Option<Change>>)
    requires first < upto ==> upto <= |lines|
  {
    if upto <= first then []
    else seq(upto - first, OutcomeOf(lines, first, width, endInclusive))
  }

  /** The outcome for line `first + k`, as a function of `k`. */
  function OutcomeOf(lines: seq<string>, first: nat, width: nat, endInclusive: bool): int --> Option<Change> {
    k requires 0 <= k && first + k < |lines| => ChangeAt(lines, first + k, width, endInclusive)
  }

  /** A sequence built from `f` with one more element ends in `f(n)`. */
  lemma SeqSnoc<T>(n: nat, f: int --> T)
    requires forall k :: 0 <= k <= n ==> f.requires(k)
    ensures seq(n + 1, f) == seq(n, f) + [f(n)]
  {
  }

  /** The records among `os`, in order. */
  function Collect(os: seq<Option<Change>>): seq<Change> {
    if |os| == 0 then []
    else
      match os[|os| - 1]
      case Some(change) => Collect(os[..|os| - 1]) + [change]
      case None => Collect(os[..|os| - 1])
  }

  /** The records `changedLines` holds after the lines from `first` up to,
      but not including, `upto`. */
  function Changes(lines: seq<string>, first: nat, upto: nat, width: nat, endInclusive: bool): seq<Change>
    requires first < upto ==> upto <= |lines|
  {
    Collect(Outcomes(lines, first, upto, width, endInclusive))
  }

  /** The body of the loop of src/extension.ts:48-85 for line `i`: wrap the
      line and make its record when something was cut off it. */
  method WrapLineAt(lines: seq<string>, i: nat, width: nat, endInclusive: bool)
    returns (change: Option<Change>)
    requires i < |lines|
    ensures change == ChangeAt(lines, i, width, endInclusive)
  {
    var line := lines[i];
    var outputLines, text := WrapLine(line, width, endInclusive);
    if |outputLines| > 0 {
      change := Some(Change(Span(i, 0, |line|), Join(outputLines, "\n") + text));
    } else {
      change := None;
    }
  }

  /** Which lines get a record: exactly those longer than `width` whose
      first break column is not 0, so a line that fits is left alone. A
      record replaces its whole line with the pieces joined by line feeds and
      the remainder appended. */
  lemma ChangeAtSpec(lines: seq<string>, i: nat, width: nat, endInclusive: bool)
    requires i < |lines|
    ensures ChangeAt(lines, i, width, endInclusive).Some? <==>
      |lines[i]| > width && BreakColumn(lines[i], width, endInclusive, 0) > 0
    ensures ChangeAt(lines, i, width, endInclusive).Some? ==>
      ChangeAt(lines, i, width, endInclusive).value.pos == Span(i, 0, |lines[i]|)
      && ChangeAt(lines, i, width, endInclusive).value.newContent
         == Join(Trimmed(Cuts(lines[i], width, endInclusive)), "\n") + Remainder(lines[i], width, endInclusive)
  {
    var line := lines[i];
    if |line| > width && BreakColumn(line, width, endInclusive, 0) > 0 {
      BreakColumnSpec(line, width, endInclusive, 0);
      assert CutPoints(line, width, endInclusive, 0) != [];
    } else {
      assert CutPoints(line, width, endInclusive, 0) == [];
    }
  }

  /** Collecting one more outcome adds its record, if it has one, at the end. */
  lemma CollectSnoc(os: seq<Option<Change>>, o: Option<Change>)
    ensures Collect(os + [o]) == Collect(os) + (match o case Some(change) => [change] case None => [])
  {
    assert (os + [o])[..|os|] == os;
  }

  /** The records collected from `os` are exactly the present outcomes. */
  lemma {:induction false} CollectMembers(os: seq<Option<Change>>)
    ensures forall c :: c in Collect(os) <==> Some(c) in os
  {
    if |os| > 0 {
      var init, o := os[..|os| - 1], os[|os| - 1];
      CollectMembers(init);
      CollectSnoc(init, o);
      assert os == init + [o];
    }
  }

  /** A collected record comes from some position of `os`. */
  lemma CollectIndex(os: seq<Option<Change>>, c: Change) returns (k: nat)
    requires c in Collect(os)
    ensures k < |os| && os[k] == Some(c)
  {
    CollectMembers(os);
    assert Some(c) in os;
    k :| 0 <= k < |os| && os[k] == Some(c);
  }

  /** Records in strictly ascending line order. */
  predicate Ascending(cs: seq<Change>) {
    forall j, k :: 0 <= j < k < |cs| ==> cs[j].pos.line < cs[k].pos.line
  }

  /** The present outcomes of `os` are in strictly ascending line order. */
  predicate OutcomesAscending(os: seq<Option<Change>>) {
    forall j, k :: 0 <= j < k < |os| && os[j].Some? && os[k].Some? ==> os[j].value.pos.line < os[k].value.pos.line
  }

  /** Collecting keeps the order of the outcomes. */
  lemma {:induction false} CollectAscending(os: seq<Option<Change>>)
    requires OutcomesAscending(os)
    ensures Ascending(Collect(os))
  {
    if |os| > 0 {
      var init, o := os[..|os| - 1], os[|os| - 1];
      assert OutcomesAscending(init) by {
        forall j, k | 0 <= j < k < |init| && init[j].Some? && init[k].Some?
          ensures init[j].value.pos.line < init[k].value.pos.line
        {
          assert init[j] == os[j] && init[k] == os[k];
        }
      }
      CollectAscending(init);
      CollectSnoc(init, o);
      assert os == init + [o];
      if o.Some? {
        CollectMembers(init);
        var before := Collect(init);
        forall j | 0 <= j < |before| ensures before[j].pos.line < o.value.pos.line {
          assert before[j] in before;
          var k :| 0 <= k < |init| && init[k] == Some(before[j]);
          assert os[k] == init[k];
        }
      }
    }
  }

  /** The outcomes of one more line are those of the lines before it followed
      by its own. */
  lemma OutcomesSnoc(lines: seq<string>, first: nat, i: nat, width: nat, endInclusive: bool)
    requires first <= i < |lines|
    ensures Outcomes(lines, first, i + 1, width, endInclusive)
      == Outcomes(lines, first, i, width, endInclusive) + [ChangeAt(lines, i, width, endInclusive)]
  {
    SeqSnoc(i - first, OutcomeOf(lines, first, width, endInclusive));
  }

  /** One more line: its record, if its loop body makes one, comes after the
      records of the lines before it. */
  lemma ChangesStep(lines: seq<string>, first: nat, i: nat, width: nat, endInclusive: bool)
    requires first <= i < |lines|
    ensures Changes(lines, first, i + 1, width, endInclusive) ==
      Changes(lines, first, i, width, endInclusive)
      + (match ChangeAt(lines, i, width, endInclusive) case Some(change) => [change] case None => [])
  {
    OutcomesSnoc(lines, first, i, width, endInclusive);
    CollectSnoc(Outcomes(lines, first, i, width, endInclusive), ChangeAt(lines, i, width, endInclusive));
  }

  /** `wrapSelectedLines(firstLine, lastLine)` up to the final `editor.edit`:
      the list `changedLines` it builds. */
  method WrapRange(lines: seq<string>, first: nat, last: nat, width: nat, endInclusive: bool)
    returns (changedLines: seq<Change>)
    requires first <= last ==> last < |lines|
    ensures changedLines == Changes(lines, first, last + 1, width, endInclusive)
  {
    changedLines := [];
    var i := first;
    while i <= last
      invariant i == first || first < i <= last + 1
      invariant changedLines == Changes(lines, first, i, width, endInclusive)
      decreases last + 1 - i
    {
      var change := WrapLineAt(lines, i, width, endInclusive);
      ChangesStep(lines, first, i, width, endInclusive);
      if change.Some? {
        changedLines := changedLines + [change.value];
      }
      i := i + 1;
    }
  }

  /** Every record of a range belongs to a line of the range, and it is the
      record that line's loop body makes. */
  lemma ChangesSound(lines: seq<string>, first: nat, upto: nat, width: nat, endInclusive: bool, c: Change)
    requires first < upto ==> upto <= |lines|
    requires c in Changes(lines, first, upto, width, endInclusive)
    ensures first <= c.pos.line < upto && c.pos.line < |lines|
    ensures ChangeAt(lines, c.pos.line, width, endInclusive) == Some(c)
  {
    var os := Outcomes(lines, first, upto, width, endInclusive);
    var k := CollectIndex(os, c);
    assert os[k] == ChangeAt(lines, first + k, width, endInclusive);
    ChangeAtSpec(lines, first + k, width, endInclusive);
    assert c.pos.line == first + k;
  }

  /** Every line of the range whose loop body makes a record has that record
      in the list. */
  lemma ChangesComplete(lines: seq<string>, first: nat, upto: nat, width: nat, endInclusive: bool, l: nat)
    requires first <= l < upto <= |lines|
    requires ChangeAt(lines, l, width, endInclusive).Some?
    ensures ChangeAt(lines, l, width, endInclusive).value in Changes(lines, first, upto, width, endInclusive)
  {
    var os := Outcomes(lines, first, upto, width, endInclusive);
    CollectMembers(os);
    assert os[l - first] == ChangeAt(lines, l, width, endInclusive);
  }

  /** The records of a range are in strictly ascending line order, so no line
      has two. */
  lemma ChangesOrdered(lines: seq<string>, first: nat, upto: nat, width: nat, endInclusive: bool)
    requires first < upto ==> upto <= |lines|
    ensures Ascending(Changes(lines, first, upto, width, endInclusive))
  {
    var os := Outcomes(lines, first, upto, width, endInclusive);
    forall k | 0 <= k < |os| && os[k].Some? ensures os[k].value.pos.line == first + k {
      ChangeAtSpec(lines, first + k, width, endInclusive);
    }
    CollectAscending(os);
  }
}
