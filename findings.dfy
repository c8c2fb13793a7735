/** The replacement text of src/extension.ts:82 as written, a line on which
    it merges two words, and the replacement evidently intended. */
module Findings {
  import opened Strings
  import opened WordRange
  import opened Reflow
  import opened Wrap

  /** As written, `outputLines.join('\n') + text` puts no line feed between the
      last piece and the remainder: split into document lines, the new
      content is the pieces with the remainder glued to the last one. */
  lemma {:induction false} NewContentLines(pieces: seq<string>, rest: string)
    requires |pieces| > 0 && forall k :: 0 <= k < |pieces| ==> NoNewline(pieces[k])
    requires NoNewline(rest)
    ensures Lines(NewContent(pieces, rest)) == pieces[..|pieces| - 1] + [pieces[|pieces| - 1] + rest]
  {
    var glued := pieces[..|pieces| - 1] + [pieces[|pieces| - 1] + rest];
    JoinThenAppend(pieces, "\n", rest);
    forall k | 0 <= k < |glued| ensures NoNewline(glued[k]) {
      if k < |pieces| - 1 {
        assert glued[k] == pieces[k];
      } else {
        assert glued[k] == pieces[|pieces| - 1] + rest;
        assert NoNewline(pieces[|pieces| - 1]);
      }
    }
    LinesOfJoin(glued);
  }

  /** A line of three words wrapped at column 10 is cut once, at column 10,
      where the word "cccc" starts. */
  lemma ThreeWordsCut(endInclusive: bool)
    ensures CutPoints("aaaa bbbb cccc", 10, endInclusive, 0) == [10]
  {
    var line := "aaaa bbbb cccc";
    LetterNotSpace(line[10]);
    assert RunStart(line, 10) == 10;
    assert BreakColumn(line, 10, endInclusive, 0) == 10;
    assert CutPoints(line, 10, endInclusive, 10) == [];
  }

  /** The loop cuts "aaaa bbbb " off that line, pushes it trimmed, and leaves
      "cccc". */
  lemma ThreeWordsWrapped(endInclusive: bool)
    ensures Trimmed(Cuts("aaaa bbbb cccc", 10, endInclusive)) == ["aaaa bbbb"]
    ensures Remainder("aaaa bbbb cccc", 10, endInclusive) == "cccc"
  {
    var line := "aaaa bbbb cccc";
    var piece := "aaaa bbbb ";
    ThreeWordsCut(endInclusive);
    assert line[0..10] == piece;
    assert Cuts(line, 10, endInclusive) == [piece];
    LetterNotSpace(piece[8]);
    assert piece[..9] == "aaaa bbbb";
    assert TrimEnd(piece) == "aaaa bbbb";
    assert Trimmed([piece]) == [TrimEnd(piece)];
    assert line[10..] == "cccc";
  }

  /** Its record fuses the last two words into "bbbbcccc". */
  lemma GluedWords(endInclusive: bool)
    ensures ChangeAt(["aaaa bbbb cccc"], 0, 10, endInclusive)
      == Some(Change(Span(0, 0, 14), "aaaa bbbbcccc"))
  {
    ThreeWordsWrapped(endInclusive);
    assert NewContent(["aaaa bbbb"], "cccc") == "aaaa bbbb" + "cccc" == "aaaa bbbbcccc";
  }

  /** The evidently intended replacement: the remainder on a line of its own. */
  function CorrectedContent(pieces: seq<string>, rest: string): string {
    Join(pieces + [rest], "\n")
  }

  /** Split into document lines, the corrected content is the pieces followed
      by the remainder, each on its own line. */
  lemma CorrectedContentLines(pieces: seq<string>, rest: string)
    requires forall k :: 0 <= k < |pieces| ==> NoNewline(pieces[k])
    requires NoNewline(rest)
    ensures Lines(CorrectedContent(pieces, rest)) == pieces + [rest]
  {
    var all := pieces + [rest];
    forall k | 0 <= k < |all| ensures NoNewline(all[k]) {
      if k < |pieces| {
        assert all[k] == pieces[k];
      }
    }
    LinesOfJoin(all);
  }

  /** The record of line `i` with the evidently intended replacement text. */
  function CorrectedChangeAt(lines: seq<string>, i: nat, width: nat, endInclusive: bool): Option<Change>
    requires i < |lines|
  {
    var pieces := Trimmed(Cuts(lines[i], width, endInclusive));
    if |pieces| > 0 then
      Some(Change(Span(i, 0, |lines[i]|), CorrectedContent(pieces, Remainder(lines[i], width, endInclusive))))
    else None
  }

  /** No pushed piece and no remainder of a document line holds a line feed:
      each is a part of the line. */
  lemma CutsNoNewline(line: string, width: nat, endInclusive: bool)
    requires NoNewline(line)
    ensures forall k :: 0 <= k < |Trimmed(Cuts(line, width, endInclusive))| ==>
      NoNewline(Trimmed(Cuts(line, width, endInclusive))[k])
    ensures NoNewline(Remainder(line, width, endInclusive))
  {
    var cs := CutPoints(line, width, endInclusive, 0);
    CutPointsSound(line, width, endInclusive, 0);
    AdvancesOrdered(line, 0, cs, width);
    var cuts := Segments(line, 0, cs);
    TrimmedAt(cuts);
    forall k | 0 <= k < |cuts| ensures NoNewline(TrimEnd(cuts[k])) {
      SegmentAt(line, 0, cs, k);
      SliceNoNewline(line, Prev(0, cs, k), cs[k]);
      TrimEndNoNewline(cuts[k]);
    }
    SliceNoNewline(line, End(0, cs), |line|);
    assert line[End(0, cs)..] == line[End(0, cs)..|line|];
  }

  /** Split into document lines, a corrected record is the pushed pieces
      followed by the remainder, each on a line of its own. */
  lemma CorrectedChangeLines(lines: seq<string>, i: nat, width: nat, endInclusive: bool)
    requires i < |lines| && NoNewline(lines[i])
    ensures CorrectedChangeAt(lines, i, width, endInclusive).Some? ==>
      Lines(CorrectedChangeAt(lines, i, width, endInclusive).value.newContent)
      == Trimmed(Cuts(lines[i], width, endInclusive)) + [Remainder(lines[i], width, endInclusive)]
  {
    CutsNoNewline(lines[i], width, endInclusive);
    CorrectedContentLines(Trimmed(Cuts(lines[i], width, endInclusive)), Remainder(lines[i], width, endInclusive));
  }

  /** The corrected record of the three-word line keeps "cccc" on a line of
      its own. */
  lemma WordsKept(endInclusive: bool)
    ensures CorrectedChangeAt(["aaaa bbbb cccc"], 0, 10, endInclusive)
      == Some(Change(Span(0, 0, 14), "aaaa bbbb\ncccc"))
  {
    ThreeWordsWrapped(endInclusive);
    var all := ["aaaa bbbb"] + ["cccc"];
    assert all[..1] == ["aaaa bbbb"];
    assert CorrectedContent(["aaaa bbbb"], "cccc") == Join(all[..1], "\n") + "\n" + "cccc"
      == "aaaa bbbb\ncccc";
  }
}
