/**
 The text of a source line, as line iteration cuts it, against the line starts of module Lines.
 */
module Texts {
  import opened Graph
  import opened Lines

  const CARRIAGE_RETURN: byte := 13

  /** The length of the first line with its newline, if it has one. */
  function LineLength(src: Source): (n: nat)
    requires src != []
    ensures 1 <= n <= |src|
    ensures forall i :: 0 <= i < n - 1 ==> src[i] != NEWLINE
    ensures src[n - 1] == NEWLINE || n == |src|
  {
    if src[0] == NEWLINE || |src| == 1 then 1 else 1 + LineLength(src[1..])
  }

  /** Without the newline, and without the carriage return that may stand before it. */
  function StripEnd(line: Source): Source {
    if line == [] || line[|line| - 1] != NEWLINE then line else
      var text := line[..|line| - 1];
      if text != [] && text[|text| - 1] == CARRIAGE_RETURN then text[..|text| - 1] else text
  }

  /** What is stripped: one newline, and one carriage return only if a newline follows it. */
  lemma StripEndMeans(text: Source)
    ensures StripEnd(text + [13, 10]) == text
    ensures (text == [] || text[|text| - 1] != 13) ==> StripEnd(text + [10]) == text
    ensures (text == [] || text[|text| - 1] != 10) ==> StripEnd(text) == text
  {
    assert (text + [13, 10])[..|text| + 1] == text + [13];
    assert (text + [13])[..|text|] == text && (text + [10])[..|text|] == text;
  }

  /** The k-th line, counted from 0; nothing follows a final newline. */
  function NthLine(src: Source, k: nat): Option<Source>
    decreases |src|
  {
    if src == [] then None else
      var n := LineLength(src);
      if k == 0 then Some(StripEnd(src[..n])) else NthLine(src[n..], k - 1)
  }

  /** The trimmed text of a 1-based line, or nothing; line 0 reads as line 1. */
  function SourceLine(sources: map<string, Source>, file: string, line: nat, trim: Source -> Source): Source {
    if file !in sources then [] else
      var text := NthLine(sources[file], if line == 0 then 0 else line - 1);
      if text.None? then [] else trim(text.value)
  }

  /** The 1-based `line` takes the bytes from `s` to `e`, its newline included. */
  ghost predicate IsLine(src: Source, line: nat, s: nat, e: nat) {
    && s < e <= |src| && StartsLine(src, line, s)
    && (forall i :: s <= i < e - 1 ==> src[i] != NEWLINE)
    && (src[e - 1] == NEWLINE || e == |src|)
  }

  lemma LineUnique(src: Source, line: nat, s: nat, e: nat, t: nat, f: nat)
    requires IsLine(src, line, s, e) && IsLine(src, line, t, f)
    ensures s == t && e == f
  {
    LineStartUnique(src, line, s, t);
  }

  /** Behind the last byte no line starts that has any bytes. */
  lemma NoLineBeyond(src: Source, from: nat, line: nat, s: nat, e: nat)
    requires from <= |src| && StartsLine(src, LineOf(src, from), from)
    requires forall i :: from <= i < |src| ==> src[i] != NEWLINE
    requires if from == |src| then line >= LineOf(src, from) else line > LineOf(src, from)
    ensures !IsLine(src, line, s, e)
  {
    NewlinesMonotone(src, from, |src|);
    var same := line == LineOf(src, from);
    if IsLine(src, line, s, e) {
      if same {
        LineStartUnique(src, line, s, from);
      } else {
        NewlinesMonotone(src, s, |src|);
      }
    }
  }

  ghost predicate HasLine(src: Source, line: nat) {
    exists s: nat, e: nat :: IsLine(src, line, s, e)
  }

  lemma SlicesShift(src: Source, from: nat, n: nat)
    requires from + n <= |src|
    ensures src[from..][n..] == src[from + n..] && src[from..][..n] == src[from..from + n]
  {
  }

  /** The line that starts at `from` ends where the text up to its newline does. */
  lemma FirstLine(src: Source, from: nat, n: nat)
    requires from < |src| && StartsLine(src, LineOf(src, from), from) && n == LineLength(src[from..])
    ensures IsLine(src, LineOf(src, from), from, from + n)
    ensures src[from..][n..] == src[from + n..] && src[from..][..n] == src[from..from + n]
    ensures src[from + n - 1] == NEWLINE ==>
              StartsLine(src, LineOf(src, from + n), from + n) && LineOf(src, from + n) == LineOf(src, from) + 1
  {
    var next := from + n;
    assert forall i :: from <= i < next ==> src[i] == src[from..][i - from];
    NewlinesMonotone(src, from, next - 1);
    SlicesShift(src, from, n);
  }

  lemma IsSome(src: Source, line: nat, s: nat, e: nat)
    requires IsLine(src, line, s, e)
    ensures HasLine(src, line)
  {
  }

  lemma LastLine(src: Source, line: nat, s: nat, e: nat)
    requires IsLine(src, line, s, e) && src[e - 1] != NEWLINE
    ensures e == |src| && forall i :: s <= i < |src| ==> src[i] != NEWLINE
  {
  }

  lemma {:induction false} NthLineFrom(src: Source, from: nat, k: nat, s: nat, e: nat)
    requires from <= |src| && StartsLine(src, LineOf(src, from), from)
    ensures IsLine(src, LineOf(src, from) + k, s, e) ==> NthLine(src[from..], k) == Some(StripEnd(src[s..e]))
    ensures NthLine(src[from..], k).Some? ==> HasLine(src, LineOf(src, from) + k)
    decreases k
  {
    hide StripEnd, IsLine, HasLine, StartsLine, LineOf, LineLength;
    var line := LineOf(src, from) + k;
    if from == |src| {
      NoLineBeyond(src, from, line, s, e);
    } else {
      var n := LineLength(src[from..]);
      var next := from + n;
      FirstLine(src, from, n);
      if k == 0 {
        IsSome(src, line, from, next);
        if IsLine(src, line, s, e) {
          LineUnique(src, line, s, e, from, next);
        }
      } else if src[next - 1] == NEWLINE {
        NthLineFrom(src, next, k - 1, s, e);
      } else {
        LastLine(src, line - k, from, next);
        assert NthLine(src[from..], k) == NthLine(src[next..], k - 1) == None;
        NoLineBeyond(src, from, line, s, e);
      }
    }
  }

  /** A sample shows exactly the bytes of its line, and nothing for a line that has none. */
  lemma SourceLineShows(sources: map<string, Source>, file: string, line: nat, trim: Source -> Source, s: nat, e: nat)
    requires file in sources
    ensures var shown := if line == 0 then 1 else line;
            && (IsLine(sources[file], shown, s, e) ==>
                  SourceLine(sources, file, line, trim) == trim(StripEnd(sources[file][s..e])))
            && (!HasLine(sources[file], shown) ==> SourceLine(sources, file, line, trim) == [])
  {
    hide StripEnd, IsLine, HasLine;
    var src := sources[file];
    assert src[0..] == src;
    NthLineFrom(src, 0, if line == 0 then 0 else line - 1, s, e);
  }
}
