/** String helpers with JavaScript's meaning: the white space that `\s` and
    `trimEnd` agree on, `trimEnd` itself, `Array.prototype.join`, and the
    split of a replacement text into document lines at '\n'. */
module Strings {

  /** JavaScript white space and line terminators: exactly the characters that
      the regular-expression class `\s` matches and that `trimEnd` removes. */
  predicate IsSpace(c: char) {
    SpaceFrom(c, 0)
  }

  /** `c` is one of the white-space characters numbered `i` and above. */
  predicate SpaceFrom(c: char, i: nat)
    decreases 25 - i, c
  {
    i < 25 && (c == SpaceChar(i) || SpaceFrom(c, i + 1))
  }

  /** The 25 white-space characters, numbered from 0. */
  function SpaceChar(i: nat): char
    requires i < 25
  {
    if i == 0 then ' ' else if i == 1 then '\t' else if i == 2 then '\n'
    else if i == 3 then '\U{000B}' else if i == 4 then '\U{000C}' else if i == 5 then '\r'
    else if i == 6 then '\U{00A0}' else if i == 7 then '\U{1680}'
    else if i <= 18 then (0x2000 + (i - 8)) as char
    else if i == 19 then '\U{2028}' else if i == 20 then '\U{2029}' else if i == 21 then '\U{202F}'
    else if i == 22 then '\U{205F}' else if i == 23 then '\U{3000}' else '\U{FEFF}'
  }

  /** No lower-case ASCII letter is white space. */
  lemma LetterNotSpace(c: char)
    requires 'a' <= c <= 'z'
    ensures !IsSpace(c)
  {
    LetterNotSpaceFrom(c, 0);
  }

  lemma {:induction false} LetterNotSpaceFrom(c: char, i: nat)
    requires 'a' <= c <= 'z'
    ensures !SpaceFrom(c, i)
    decreases 25 - i, c
  {
    if i < 25 {
      LetterNotSpaceFrom(c, i + 1);
    }
  }

  /** `s.trimEnd()`: drop white space from the end, one character at a time. */
  function TrimEnd(s: string): string {
    if |s| > 0 && IsSpace(s[|s| - 1]) then TrimEnd(s[..|s| - 1]) else s
  }

  /** `TrimEnd` keeps the longest prefix of `s` that does not end in white
      space: it is never longer than `s`, and everything it drops is white
      space. */
  lemma {:induction false} TrimEndSpec(s: string)
    ensures var r := TrimEnd(s);
      |r| <= |s| && r == s[..|r|]
      && (r == [] || !IsSpace(r[|r| - 1]))
      && forall k :: |r| <= k < |s| ==> IsSpace(s[k])
  {
    if |s| > 0 && IsSpace(s[|s| - 1]) {
      TrimEndSpec(s[..|s| - 1]);
    }
  }

  /** Every element of `ss` trimmed with `TrimEnd`, in order. */
  function Trimmed(ss: seq<string>): (ts: seq<string>)
    ensures |ts| == |ss|
  {
    if |ss| == 0 then [] else Trimmed(ss[..|ss| - 1]) + [TrimEnd(ss[|ss| - 1])]
  }

  /** The `k`-th trimmed element is the `k`-th element trimmed. */
  lemma {:induction false} TrimmedAt(ss: seq<string>)
    ensures forall k :: 0 <= k < |ss| ==> Trimmed(ss)[k] == TrimEnd(ss[k])
  {
    if |ss| > 0 {
      var init := ss[..|ss| - 1];
      TrimmedAt(init);
      assert forall k :: 0 <= k < |init| ==> ss[k] == init[k];
    }
  }

  /** Trimming a sequence that starts with `x` starts with `x` trimmed. */
  lemma TrimmedCons(x: string, ss: seq<string>)
    ensures Trimmed([x] + ss) == [TrimEnd(x)] + Trimmed(ss)
  {
    var l, r := Trimmed([x] + ss), [TrimEnd(x)] + Trimmed(ss);
    TrimmedAt([x] + ss);
    TrimmedAt(ss);
    forall k | 0 <= k < |l| ensures l[k] == r[k] {
      if k > 0 {
        assert ([x] + ss)[k] == ss[k - 1];
      }
    }
  }

  /** The elements of `ss` written one after the other. */
  function Concat(ss: seq<string>): string
  {
    if |ss| == 0 then "" else Concat(ss[..|ss| - 1]) + ss[|ss| - 1]
  }

  /** `ss.join(sep)`: the elements with `sep` between neighbours ("" for none). */
  function Join(ss: seq<string>, sep: string): string
  {
    if |ss| == 0 then ""
    else if |ss| == 1 then ss[0]
    else Join(ss[..|ss| - 1], sep) + sep + ss[|ss| - 1]
  }

  /** No line-feed character anywhere in `s`; true of every document line. */
  predicate NoNewline(s: string) {
    '\n' !in s
  }

  /** A part of a newline-free text is newline-free. */
  lemma SliceNoNewline(s: string, a: nat, b: nat)
    requires NoNewline(s) && a <= b <= |s|
    ensures NoNewline(s[a..b])
  {
    forall j | 0 <= j < b - a ensures s[a..b][j] != '\n' {
      assert s[a..b][j] == s[a + j];
    }
  }

  /** Trimming a newline-free text leaves it newline-free. */
  lemma TrimEndNoNewline(s: string)
    requires NoNewline(s)
    ensures NoNewline(TrimEnd(s))
  {
    TrimEndSpec(s);
    SliceNoNewline(s, 0, |TrimEnd(s)|);
  }

  /** The index of the last occurrence of `c` in `s`. */
  function LastIndexOf(s: string, c: char): (j: nat)
    requires c in s
    ensures j < |s| && s[j] == c
    ensures c !in s[j + 1..]
  {
    if s[|s| - 1] == c then |s| - 1 else LastIndexOf(s[..|s| - 1], c)
  }

  /** The document lines a text becomes when the editor stores it: the pieces
      between line feeds (a text without one is a single line). */
  function Lines(s: string): (ls: seq<string>)
    ensures |ls| > 0
    ensures forall k :: 0 <= k < |ls| ==> NoNewline(ls[k])
    decreases |s|
  {
    if '\n' !in s then [s]
    else
      var j := LastIndexOf(s, '\n');
      Lines(s[..j]) + [s[j + 1..]]
  }

  /** Joining newline-free texts with "\n" and splitting the result into lines
      gives the texts back. */
  lemma {:induction false} LinesOfJoin(xs: seq<string>)
    requires |xs| > 0
    requires forall k :: 0 <= k < |xs| ==> NoNewline(xs[k])
    ensures Lines(Join(xs, "\n")) == xs
  {
    if |xs| > 1 {
      var init, last := xs[..|xs| - 1], xs[|xs| - 1];
      var head := Join(init, "\n");
      var s := Join(xs, "\n");
      assert s == head + "\n" + last;
      assert s[|head|] == '\n';
      var j := LastIndexOf(s, '\n');
      assert j == |head|;
      assert s[..j] == head;
      assert s[j + 1..] == last;
      LinesOfJoin(init);
      assert xs == init + [last];
    }
  }

  /** Appending `r` right after `ss.join(sep)` extends the last element: no
      separator comes between the last element and `r`. */
  lemma {:induction false} JoinThenAppend(ss: seq<string>, sep: string, r: string)
    requires |ss| > 0
    ensures Join(ss, sep) + r == Join(ss[..|ss| - 1] + [ss[|ss| - 1] + r], sep)
  {
    var glued := ss[..|ss| - 1] + [ss[|ss| - 1] + r];
    if |ss| > 1 {
      assert glued[..|glued| - 1] == ss[..|ss| - 1];
    }
  }
}
