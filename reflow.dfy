/** The break loop that `wrapSelectedLines` runs on one line
    (src/extension.ts:51-76): it cuts the line before the word that reaches
    the wrap column, again and again, until the rest fits or begins with a
    word as wide as the whole width. */
module Reflow {
  import opened Strings
  import opened WordRange

  /** A column where the loop can be standing: the line start, or, for a
      positive width, a column that does not lie inside a run. */
  predicate Resumable(line: string, width: nat, offset: nat) {
    offset <= |line| && (offset == 0 || (0 < width && !InsideRun(line, offset)))
  }

  /** The run found at the probe column `offset + width` never starts before
      `offset`: the loop stands at a column that does not split a word, so a
      run reaching past it begins at or after it. */
  lemma WordStartNotBehind(line: string, width: nat, endInclusive: bool, offset: nat)
    requires Resumable(line, width, offset) && offset + width < |line|
    ensures WordStartAt(line, offset + width, endInclusive).Some? ==>
      offset <= WordStartAt(line, offset + width, endInclusive).value
  {
    WordStartAtSpec(line, offset + width, endInclusive);
  }

  /** `wordOverlapColumn` (src/extension.ts:58-63): the start of the run found
      at column `offset + width`, relative to `offset`; `width` itself when no
      run is found there. */
  function BreakColumn(line: string, width: nat, endInclusive: bool, offset: nat): nat
    requires Resumable(line, width, offset) && offset + width < |line|
  {
    match WordStartAt(line, offset + width, endInclusive)
    case Some(s) => WordStartNotBehind(line, width, endInclusive, offset); s - offset
    case None => width
  }

  /** The break column lies in `0..width`, so `translate(0, -columnOffset)`
      stays on the line; a positive one never splits a word; short of the
      width, it is the start of the word that reaches the probe column; at
      exactly the width, either no word was found or one starts at the probe
      column. */
  lemma BreakColumnSpec(line: string, width: nat, endInclusive: bool, offset: nat)
    requires Resumable(line, width, offset) && offset + width < |line|
    ensures var c := BreakColumn(line, width, endInclusive, offset);
      c <= width
      && (0 < c ==> !InsideRun(line, offset + c) && Resumable(line, width, offset + c))
      && (c < width ==> RunReaches(line, offset + c, offset + width))
      && (c == width ==> WordStartAt(line, offset + width, endInclusive) in {None, Some(offset + width)})
  {
    WordStartAtSpec(line, offset + width, endInclusive);
    WordStartNotBehind(line, width, endInclusive, offset);
  }

  /** The column the loop stood at before the `k`-th cut (`from` before the first). */
  function Prev(from: nat, cs: seq<nat>, k: nat): nat
    requires k <= |cs|
  {
    if k == 0 then from else cs[k - 1]
  }

  /** The column after the last cut of `cs` (`from` when there is none). */
  function End(from: nat, cs: seq<nat>): nat {
    if |cs| == 0 then from else cs[|cs| - 1]
  }

  /** The last of cuts that start with `x` is the last of the others, from `x`. */
  lemma EndCons(from: nat, x: nat, tail: seq<nat>)
    ensures End(from, [x] + tail) == End(x, tail)
  {
  }

  /** Each cut of `cs` moves forward by at least one and at most `width` columns. */
  predicate Advances(from: nat, cs: seq<nat>, width: nat) {
    forall k {:trigger Prev(from, cs, k)} :: 0 <= k < |cs| ==> Prev(from, cs, k) < cs[k] <= Prev(from, cs, k) + width
  }

  /** The cuts of `cs` never move backwards and stay within `bound`. */
  predicate Ordered(from: nat, cs: seq<nat>, bound: nat) {
    forall k {:trigger Prev(from, cs, k)} :: 0 <= k < |cs| ==> Prev(from, cs, k) <= cs[k] <= bound
  }

  /** Every cut of `cs` lies on the line and none of them splits a word. */
  predicate CutsInside(line: string, cs: seq<nat>) {
    forall k :: 0 <= k < |cs| ==> cs[k] < |line| && !InsideRun(line, cs[k])
  }

  /** Cuts that advance and lie on the line never move backwards and stay
      within the line. */
  lemma AdvancesOrdered(line: string, from: nat, cs: seq<nat>, width: nat)
    requires Advances(from, cs, width) && CutsInside(line, cs)
    ensures Ordered(from, cs, |line|)
  {
    forall k | 0 <= k < |cs| ensures Prev(from, cs, k) <= cs[k] <= |line| {
      assert Prev(from, cs, k) < cs[k] <= Prev(from, cs, k) + width;
    }
  }

  /** A first cut that advances, followed by cuts that advance from it. */
  lemma AdvancesCons(from: nat, x: nat, tail: seq<nat>, width: nat)
    requires from < x <= from + width && Advances(x, tail, width)
    ensures Advances(from, [x] + tail, width) && End(from, [x] + tail) == End(x, tail)
  {
    var cs := [x] + tail;
    forall k | 0 <= k < |cs|
      ensures Prev(from, cs, k) < cs[k] <= Prev(from, cs, k) + width
    {
      if k > 0 {
        assert cs[k] == tail[k - 1] && Prev(from, cs, k) == Prev(x, tail, k - 1);
        assert Prev(x, tail, k - 1) < tail[k - 1] <= Prev(x, tail, k - 1) + width;
      }
    }
  }

  /** The columns at which the loop of src/extension.ts:56-76 cuts `line` when it
      starts at column `offset`. */
  function CutPoints(line: string, width: nat, endInclusive: bool, offset: nat): (cs: seq<nat>)
    requires Resumable(line, width, offset)
    decreases |line| - offset
  {
    if |line| - offset <= width then []
    else
      var c := BreakColumn(line, width, endInclusive, offset);
      if c == 0 then []
      else
        BreakColumnSpec(line, width, endInclusive, offset);
        [offset + c] + CutPoints(line, width, endInclusive, offset + c)
  }

  /** A first cut that does not split a word, followed by cuts that do not. */
  lemma CutsInsideCons(line: string, x: nat, tail: seq<nat>)
    requires x < |line| && !InsideRun(line, x) && CutsInside(line, tail)
    ensures CutsInside(line, [x] + tail)
  {
    var cs := [x] + tail;
    forall k | 0 <= k < |cs| ensures cs[k] < |line| && !InsideRun(line, cs[k]) {
      if k > 0 {
        assert cs[k] == tail[k - 1];
        assert tail[k - 1] < |line| && !InsideRun(line, tail[k - 1]);
      }
    }
  }

  /** Each cut advances by at least one and at most `width` columns, lies on
      the line and does not split a word. */
  lemma {:induction false} CutPointsAdvance(line: string, width: nat, endInclusive: bool, offset: nat)
    requires Resumable(line, width, offset)
    ensures Advances(offset, CutPoints(line, width, endInclusive, offset), width)
    ensures CutsInside(line, CutPoints(line, width, endInclusive, offset))
    decreases |line| - offset
  {
    if |line| - offset > width {
      var c := BreakColumn(line, width, endInclusive, offset);
      BreakColumnSpec(line, width, endInclusive, offset);
      if c > 0 {
        var tail := CutPoints(line, width, endInclusive, offset + c);
        CutPointsAdvance(line, width, endInclusive, offset + c);
        AdvancesCons(offset, offset + c, tail, width);
        CutsInsideCons(line, offset + c, tail);
        assert [offset + c] + tail == CutPoints(line, width, endInclusive, offset);
      }
    }
  }

  /** The loop of src/extension.ts:56-76, standing at column `e`, does not cut
      again: the rest fits in `width` or the break column is 0. */
  predicate Stops(line: string, width: nat, endInclusive: bool, e: nat) {
    Resumable(line, width, e)
    && (|line| - e <= width || BreakColumn(line, width, endInclusive, e) == 0)
  }

  /** The loop stops at a column it can stand at, where the rest fits in
      `width` or begins with a word that leaves a break column of 0. */
  lemma {:induction false} CutPointsStop(line: string, width: nat, endInclusive: bool, offset: nat)
    requires Resumable(line, width, offset)
    ensures Stops(line, width, endInclusive, End(offset, CutPoints(line, width, endInclusive, offset)))
    decreases |line| - offset
  {
    if |line| - offset > width {
      var c := BreakColumn(line, width, endInclusive, offset);
      BreakColumnSpec(line, width, endInclusive, offset);
      if c > 0 {
        var tail := CutPoints(line, width, endInclusive, offset + c);
        assert CutPoints(line, width, endInclusive, offset) == [offset + c] + tail;
        CutPointsStop(line, width, endInclusive, offset + c);
        assert End(offset, [offset + c] + tail) == End(offset + c, tail);
      }
    }
  }

  /** Both facts about the cuts, for one starting column. */
  lemma CutPointsSound(line: string, width: nat, endInclusive: bool, offset: nat)
    requires Resumable(line, width, offset)
    ensures var cs := CutPoints(line, width, endInclusive, offset);
      Advances(offset, cs, width) && CutsInside(line, cs) && Stops(line, width, endInclusive, End(offset, cs))
  {
    CutPointsAdvance(line, width, endInclusive, offset);
    CutPointsStop(line, width, endInclusive, offset);
  }

  /** The cuts never move backwards and stay on the line. */
  lemma CutPointsOrdered(line: string, width: nat, endInclusive: bool, offset: nat)
    requires Resumable(line, width, offset)
    ensures Ordered(offset, CutPoints(line, width, endInclusive, offset), |line|)
    ensures End(offset, CutPoints(line, width, endInclusive, offset)) <= |line|
  {
    var cs := CutPoints(line, width, endInclusive, offset);
    CutPointsAdvance(line, width, endInclusive, offset);
    AdvancesOrdered(line, offset, cs, width);
    if |cs| > 0 {
      assert Prev(offset, cs, |cs| - 1) <= cs[|cs| - 1] <= |line|;
    }
  }

  /** The pieces of `line` between consecutive cuts of `cs`, starting at `from`:
      the untrimmed `text.substring(0, wordOverlapColumn)` of each iteration. */
  function Segments(line: string, from: nat, cs: seq<nat>): (segs: seq<string>)
    requires Ordered(from, cs, |line|)
    ensures |segs| == |cs|
  {
    if |cs| == 0 then []
    else
      var init := cs[..|cs| - 1];
      OrderedPrefix(line, from, cs);
      Segments(line, from, init) + [line[End(from, init)..cs[|cs| - 1]]]
  }

  /** Dropping the last cut keeps the cuts ordered, and the last one starts
      where the others end. */
  lemma OrderedPrefix(line: string, from: nat, cs: seq<nat>)
    requires Ordered(from, cs, |line|) && |cs| > 0
    ensures Ordered(from, cs[..|cs| - 1], |line|)
    ensures Prev(from, cs, |cs| - 1) == End(from, cs[..|cs| - 1])
    ensures End(from, cs[..|cs| - 1]) <= End(from, cs) <= |line|
  {
    var init := cs[..|cs| - 1];
    forall k | 0 <= k < |init| ensures Prev(from, init, k) <= init[k] <= |line| {
      assert Prev(from, init, k) == Prev(from, cs, k);
      assert Prev(from, cs, k) <= cs[k] <= |line|;
    }
    assert Prev(from, cs, |cs| - 1) <= cs[|cs| - 1] <= |line|;
  }

  /** The `k`-th segment runs from the column before the `k`-th cut to that cut. */
  lemma {:induction false} SegmentAt(line: string, from: nat, cs: seq<nat>, k: nat)
    requires Ordered(from, cs, |line|) && k < |cs|
    ensures Prev(from, cs, k) <= cs[k] <= |line|
    ensures Segments(line, from, cs)[k] == line[Prev(from, cs, k)..cs[k]]
  {
    assert Prev(from, cs, k) <= cs[k] <= |line|;
    OrderedPrefix(line, from, cs);
    var init := cs[..|cs| - 1];
    if k < |init| {
      SegmentAt(line, from, init, k);
      assert Prev(from, init, k) == Prev(from, cs, k);
    }
  }

  /** The cut pieces, written one after the other, are the line from `from` up
      to the last cut. */
  lemma {:induction false} SegmentsConcat(line: string, from: nat, cs: seq<nat>)
    requires from <= |line| && Ordered(from, cs, |line|)
    ensures from <= End(from, cs) <= |line|
    ensures Concat(Segments(line, from, cs)) == line[from..End(from, cs)]
  {
    if |cs| > 0 {
      var init := cs[..|cs| - 1];
      OrderedPrefix(line, from, cs);
      SegmentsConcat(line, from, init);
      var prefix := Segments(line, from, init);
      var last := line[End(from, init)..End(from, cs)];
      assert Segments(line, from, cs) == prefix + [last];
      assert (prefix + [last])[..|prefix|] == prefix;
      assert line[from..End(from, init)] + last == line[from..End(from, cs)];
    }
  }

  /** The untrimmed pieces that the loop cuts off `line`, in order. */
  function Cuts(line: string, width: nat, endInclusive: bool): seq<string> {
    var cs := CutPoints(line, width, endInclusive, 0);
    CutPointsSound(line, width, endInclusive, 0);
    AdvancesOrdered(line, 0, cs, width);
    Segments(line, 0, cs)
  }

  /** What is left of `line` after the last cut: the final `text`. */
  function Remainder(line: string, width: nat, endInclusive: bool): string {
    var cs := CutPoints(line, width, endInclusive, 0);
    CutPointsSound(line, width, endInclusive, 0);
    line[End(0, cs)..]
  }

  /** The untrimmed pieces of a wrapped line followed by its remainder are the
      line itself, and every piece is between 1 and `width` characters long. */
  lemma Reconstruct(line: string, width: nat, endInclusive: bool)
    ensures Concat(Cuts(line, width, endInclusive)) + Remainder(line, width, endInclusive) == line
    ensures forall k :: 0 <= k < |Cuts(line, width, endInclusive)| ==>
      0 < |Cuts(line, width, endInclusive)[k]| <= width
  {
    var cs := CutPoints(line, width, endInclusive, 0);
    CutPointsSound(line, width, endInclusive, 0);
    AdvancesOrdered(line, 0, cs, width);
    SegmentsConcat(line, 0, cs);
    assert line[..End(0, cs)] + line[End(0, cs)..] == line;
    var segs := Segments(line, 0, cs);
    forall k | 0 <= k < |segs| ensures 0 < |segs[k]| <= width {
      SegmentAt(line, 0, cs, k);
      assert Prev(0, cs, k) < cs[k] <= Prev(0, cs, k) + width;
    }
  }

  /** Each piece pushed by the loop is at most `width` long and does not end in
      white space. */
  lemma PiecesFit(line: string, width: nat, endInclusive: bool)
    ensures var pieces := Trimmed(Cuts(line, width, endInclusive));
      forall k :: 0 <= k < |pieces| ==>
        |pieces[k]| <= width && (pieces[k] == [] || !IsSpace(pieces[k][|pieces[k]| - 1]))
  {
    Reconstruct(line, width, endInclusive);
    var cuts := Cuts(line, width, endInclusive);
    TrimmedAt(cuts);
    forall k | 0 <= k < |cuts|
      ensures |TrimEnd(cuts[k])| <= width
      ensures TrimEnd(cuts[k]) == [] || !IsSpace(TrimEnd(cuts[k])[|TrimEnd(cuts[k])| - 1])
    {
      TrimEndSpec(cuts[k]);
    }
  }

  /** A line that already fits is not cut at all. */
  lemma ShortLineUncut(line: string, width: nat, endInclusive: bool)
    requires |line| <= width
    ensures Cuts(line, width, endInclusive) == [] && Remainder(line, width, endInclusive) == line
  {
    assert CutPoints(line, width, endInclusive, 0) == [];
  }

  /** When the loop gives up without the rest fitting, the rest begins with a
      word of at least `width` characters: it is left whole. */
  lemma GiantWordLeftWhole(line: string, width: nat, endInclusive: bool)
    ensures var rest := Remainder(line, width, endInclusive);
      |rest| <= width || forall j :: 0 <= j < width ==> !IsSpace(rest[j])
  {
    var cs := CutPoints(line, width, endInclusive, 0);
    CutPointsSound(line, width, endInclusive, 0);
    var e := End(0, cs);
    var rest := line[e..];
    if |rest| > width && width > 0 {
      var c := BreakColumn(line, width, endInclusive, e);
      BreakColumnSpec(line, width, endInclusive, e);
      assert c == 0 && RunReaches(line, e, e + width);
      forall j | 0 <= j < width ensures !IsSpace(rest[j]) {
        assert rest[j] == line[e + j];
      }
    }
  }

  /** The first cut of ordered cuts splits off the first segment; the others
      are the segments of the remaining cuts, from the first cut on. */
  lemma {:induction false} SegmentsCons(line: string, from: nat, x: nat, tail: seq<nat>)
    requires Ordered(from, [x] + tail, |line|)
    ensures Ordered(x, tail, |line|) && from <= x <= |line|
    ensures Segments(line, from, [x] + tail) == [line[from..x]] + Segments(line, x, tail)
    decreases |tail|
  {
    var cs := [x] + tail;
    assert Prev(from, cs, 0) <= cs[0];
    forall k | 0 <= k < |tail| ensures Prev(x, tail, k) <= tail[k] <= |line| {
      assert Prev(from, cs, k + 1) <= cs[k + 1] <= |line|;
      assert Prev(x, tail, k) == Prev(from, cs, k + 1);
    }
    if |tail| == 0 {
      assert cs[..|cs| - 1] == [];
    } else {
      var init := tail[..|tail| - 1];
      assert cs[..|cs| - 1] == [x] + init;
      OrderedPrefix(line, from, cs);
      SegmentsCons(line, from, x, init);
      OrderedPrefix(line, x, tail);
      assert End(from, [x] + init) == End(x, init);
    }
  }

  /** Cutting `c` characters off the text that starts at column `offset`. */
  lemma SliceShift(line: string, text: string, offset: nat, c: nat)
    requires offset + c <= |line| && text == line[offset..]
    ensures text[..c] == line[offset..offset + c]
    ensures text[c..] == line[offset + c..]
  {
  }

  /** The outcome of the loop of src/extension.ts:56-76 on one line. */
  datatype Wrapped = Wrapped(pieces: seq<string>, rest: string)

  /** The loop run from column `offset`, having pushed `pieces` so far: it
      either stops, leaving the rest of the line as the final `text`, or
      pushes the next piece trimmed and goes on after it. */
  function WrapFrom(line: string, width: nat, endInclusive: bool, offset: nat, pieces: seq<string>): Wrapped
    requires Resumable(line, width, offset)
    decreases |line| - offset
  {
    if |line| - offset <= width then Wrapped(pieces, line[offset..])
    else
      var c := BreakColumn(line, width, endInclusive, offset);
      if c == 0 then Wrapped(pieces, line[offset..])
      else
        BreakColumnSpec(line, width, endInclusive, offset);
        WrapFrom(line, width, endInclusive, offset + c, pieces + [TrimEnd(line[offset..offset + c])])
  }

  /** One turn of the loop at `offset` with a positive break column `c`:
      the piece cut off is pushed trimmed and the loop goes on at `offset + c`,
      so both reach the same outcome `goal`. */
  lemma WrapFromStep(line: string, width: nat, endInclusive: bool, offset: nat, pieces: seq<string>, c: nat, goal: Wrapped)
    requires Resumable(line, width, offset) && |line| - offset > width
    requires c == BreakColumn(line, width, endInclusive, offset) > 0
    ensures c <= width && Resumable(line, width, offset + c)
    ensures WrapFrom(line, width, endInclusive, offset, pieces) == goal
      <==> WrapFrom(line, width, endInclusive, offset + c, pieces + [TrimEnd(line[offset..offset + c])]) == goal
  {
    BreakColumnSpec(line, width, endInclusive, offset);
  }

  /** The same turn seen from the cuts: `offset + c` is the next cut. */
  lemma CutPointsStep(line: string, width: nat, endInclusive: bool, offset: nat, c: nat)
    requires Resumable(line, width, offset) && |line| - offset > width
    requires c == BreakColumn(line, width, endInclusive, offset) > 0
    ensures c <= width && Resumable(line, width, offset + c)
    ensures CutPoints(line, width, endInclusive, offset)
      == [offset + c] + CutPoints(line, width, endInclusive, offset + c)
  {
    BreakColumnSpec(line, width, endInclusive, offset);
  }

  /** The outcome of the loop after its first cut `next`, read from the
      cuts: the trimmed first segment goes before the others. */
  lemma WrappedCons(line: string, from: nat, cs: seq<nat>, next: nat, tail: seq<nat>, pieces: seq<string>, w: Wrapped)
    requires cs == [next] + tail && Ordered(from, cs, |line|)
    requires Ordered(next, tail, |line|) && from <= next <= |line| && End(next, tail) <= |line|
    requires w == Wrapped(pieces + [TrimEnd(line[from..next])] + Trimmed(Segments(line, next, tail)),
                          line[End(next, tail)..])
    ensures End(from, cs) <= |line|
    ensures w == Wrapped(pieces + Trimmed(Segments(line, from, cs)), line[End(from, cs)..])
  {
    var cut := line[from..next];
    var segs := Segments(line, next, tail);
    SegmentsCons(line, from, next, tail);
    TrimmedCons(cut, segs);
    EndCons(from, next, tail);
    assert pieces + [TrimEnd(cut)] + Trimmed(segs) == pieces + ([TrimEnd(cut)] + Trimmed(segs));
  }

  /** Where the loop stops it makes no more cuts and leaves the rest of the
      line as it is. */
  lemma WrapFromStops(line: string, width: nat, endInclusive: bool, offset: nat, pieces: seq<string>)
    requires Resumable(line, width, offset)
    requires |line| - offset <= width || BreakColumn(line, width, endInclusive, offset) == 0
    ensures CutPoints(line, width, endInclusive, offset) == []
    ensures WrapFrom(line, width, endInclusive, offset, pieces) == Wrapped(pieces, line[offset..])
    ensures Ordered(offset, CutPoints(line, width, endInclusive, offset), |line|)
    ensures WrapFrom(line, width, endInclusive, offset, pieces)
      == Wrapped(pieces + Trimmed(Segments(line, offset, CutPoints(line, width, endInclusive, offset))),
                 line[End(offset, CutPoints(line, width, endInclusive, offset))..])
  {
    assert Trimmed(Segments(line, offset, [])) == [];
    assert pieces + [] == pieces;
  }

  /** Run from `offset`, the loop pushes the trimmed segments of the cuts it
      makes from there and leaves the line after the last of them. */
  lemma {:induction false} WrapFromCuts(line: string, width: nat, endInclusive: bool, offset: nat, pieces: seq<string>)
    requires Resumable(line, width, offset)
    ensures Ordered(offset, CutPoints(line, width, endInclusive, offset), |line|)
    ensures End(offset, CutPoints(line, width, endInclusive, offset)) <= |line|
    ensures WrapFrom(line, width, endInclusive, offset, pieces)
      == Wrapped(pieces + Trimmed(Segments(line, offset, CutPoints(line, width, endInclusive, offset))),
                 line[End(offset, CutPoints(line, width, endInclusive, offset))..])
    decreases |line| - offset
  {
    CutPointsOrdered(line, width, endInclusive, offset);
    if |line| - offset <= width || BreakColumn(line, width, endInclusive, offset) == 0 {
      WrapFromStops(line, width, endInclusive, offset, pieces);
    } else {
      var c := BreakColumn(line, width, endInclusive, offset);
      CutPointsStep(line, width, endInclusive, offset, c);
      var next := offset + c;
      var cut := line[offset..next];
      WrapFromCuts(line, width, endInclusive, next, pieces + [TrimEnd(cut)]);
      var tail := CutPoints(line, width, endInclusive, next);
      var after := Wrapped(pieces + [TrimEnd(cut)] + Trimmed(Segments(line, next, tail)), line[End(next, tail)..]);
      WrapFromStep(line, width, endInclusive, offset, pieces, c, after);
      WrappedCons(line, offset, CutPoints(line, width, endInclusive, offset), next, tail, pieces,
                  WrapFrom(line, width, endInclusive, offset, pieces));
    }
  }

  /** The loop run on a whole line pushes its trimmed cuts and leaves its
      remainder. */
  lemma WrappedCuts(line: string, width: nat, endInclusive: bool)
    ensures WrapFrom(line, width, endInclusive, 0, [])
      == Wrapped(Trimmed(Cuts(line, width, endInclusive)), Remainder(line, width, endInclusive))
  {
    WrapFromCuts(line, width, endInclusive, 0, []);
    assert [] + Trimmed(Cuts(line, width, endInclusive)) == Trimmed(Cuts(line, width, endInclusive));
  }

  /** The same turn seen from `text`, the line from `offset` on: the piece is
      its first `c` characters, the new `text` is the line from `offset + c`,
      and the outcome `goal` is still ahead. */
  lemma TextStep(line: string, width: nat, endInclusive: bool, offset: nat, pieces: seq<string>, c: nat,
                 text: string, goal: Wrapped)
    requires Resumable(line, width, offset) && |line| - offset > width
    requires c == BreakColumn(line, width, endInclusive, offset) > 0 && text == line[offset..]
    requires WrapFrom(line, width, endInclusive, offset, pieces) == goal
    ensures c <= |text| && Resumable(line, width, offset + c) && text[c..] == line[offset + c..]
    ensures WrapFrom(line, width, endInclusive, offset + c, pieces + [TrimEnd(text[..c])]) == goal
  {
    WrapFromStep(line, width, endInclusive, offset, pieces, c, goal);
    SliceShift(line, text, offset, c);
  }

  /** The loop body of src/extension.ts:56-76 on one line: `pieces` is
      `outputLines`, `rest` is the final `text`. */
  method WrapLine(line: string, width: nat, endInclusive: bool) returns (pieces: seq<string>, rest: string)
    ensures Wrapped(pieces, rest) == WrapFrom(line, width, endInclusive, 0, [])
    ensures pieces == Trimmed(Cuts(line, width, endInclusive)) && rest == Remainder(line, width, endInclusive)
  {
    var columnOffset: nat := 0;
    var text := line;
    pieces := [];
    while |line| - columnOffset > width
      invariant Resumable(line, width, columnOffset) && text == line[columnOffset..]
      invariant WrapFrom(line, width, endInclusive, columnOffset, pieces) == WrapFrom(line, width, endInclusive, 0, [])
      decreases |line| - columnOffset
    {
      var wordOverlapColumn := BreakColumn(line, width, endInclusive, columnOffset);
      if wordOverlapColumn == 0 {
        // the rest begins with one word as wide as the whole width
        break;
      }
      TextStep(line, width, endInclusive, columnOffset, pieces, wordOverlapColumn, text,
               WrapFrom(line, width, endInclusive, 0, []));
      var piece := text[..wordOverlapColumn];
      pieces := pieces + [TrimEnd(piece)];
      text := text[wordOverlapColumn..];
      columnOffset := columnOffset + wordOverlapColumn;
    }
    rest := text;
    WrapFromStops(line, width, endInclusive, columnOffset, pieces);
    WrappedCuts(line, width, endInclusive);
  }

}
