/**
 Bytes to lines and lines to bytes: two separately written maps that form an adjunction, and the
 parser that recovers a line from the display string of a synthesized local.
 */
module Lines {
  import opened Graph

  newtype byte = x: int | 0 <= x < 256

  const NEWLINE: byte := 10
  const USIZE_MAX: nat := 0xFFFF_FFFF_FFFF_FFFF

  type Source = seq<byte>

  /** Newlines among the first `n` bytes. */
  function Newlines(src: Source, n: nat): nat
    requires n <= |src|
  {
    if n == 0 then 0 else Newlines(src, n - 1) + if src[n - 1] == NEWLINE then 1 else 0
  }

  /** The 1-based line of a byte offset. */
  function LineOf(src: Source, b: nat): nat
    requires b <= |src|
  {
    1 + Newlines(src, b)
  }

  lemma {:induction false} NewlinesMonotone(src: Source, a: nat, b: nat)
    requires a <= b <= |src|
    ensures Newlines(src, a) <= Newlines(src, b)
    ensures Newlines(src, a) == Newlines(src, b) <==> forall i :: a <= i < b ==> src[i] != NEWLINE
    decreases b
  {
    if a == b {
    } else {
      NewlinesMonotone(src, a, b - 1);
    }
  }

  /** `s` is where `line` starts: the file start or just behind a newline. */
  ghost predicate StartsLine(src: Source, line: nat, s: nat) {
    s <= |src| && LineOf(src, s) == line && (s == 0 || src[s - 1] == NEWLINE)
  }

  /** The line start as a loop over the bytes. */
  method LineStartByte(src: Source, line: nat) returns (start: Option<nat>)
    ensures start.Some? <==> 1 <= line <= Newlines(src, |src|) + 1
    ensures start.Some? ==> StartsLine(src, line, start.value)
  {
    if line == 0 {
      return None;
    }
    if line == 1 {
      return Some(0);
    }
    var newlines: nat := 0;
    for index := 0 to |src|
      invariant newlines == Newlines(src, index) && newlines < line - 1
    {
      if src[index] == NEWLINE {
        newlines := newlines + 1;
        if newlines == line - 1 {
          NewlinesMonotone(src, index + 1, |src|);
          return Some(index + 1);
        }
      }
    }
    start := None;
  }

  lemma {:induction false} LineStartExists(src: Source, line: nat, n: nat)
    requires n <= |src| && 1 <= line <= Newlines(src, n) + 1
    ensures exists s: nat :: s <= n && StartsLine(src, line, s)
    decreases n
  {
    if n == 0 {
      assert StartsLine(src, line, 0);
    } else if line <= Newlines(src, n - 1) + 1 {
      LineStartExists(src, line, n - 1);
    } else {
      assert StartsLine(src, line, n);
    }
  }

  lemma LineStartUnique(src: Source, line: nat, s: nat, t: nat)
    requires StartsLine(src, line, s) && StartsLine(src, line, t)
    ensures s == t
  {
    if s < t {
      NewlinesMonotone(src, s, t);
    } else if t < s {
      NewlinesMonotone(src, t, s);
    }
  }

  /** The start of a line, if the source has that line. */
  ghost function LineStart(src: Source, line: nat): (start: Option<nat>)
    ensures start.Some? <==> 1 <= line <= Newlines(src, |src|) + 1
    ensures start.Some? ==> StartsLine(src, line, start.value)
  {
    if 1 <= line <= Newlines(src, |src|) + 1 then
      LineStartExists(src, line, |src|);
      var s: nat :| StartsLine(src, line, s);
      Some(s)
    else None
  }

  /**
   The two maps are adjoint: a line starts at or before a byte exactly when it is not a later
   line than the byte's.
   */
  lemma LineMapsAdjoint(src: Source, line: nat, b: nat)
    requires LineStart(src, line).Some? && b <= |src|
    ensures LineStart(src, line).value <= b <==> line <= LineOf(src, b)
    ensures LineOf(src, LineStart(src, line).value) == line
  {
    var s := LineStart(src, line).value;
    if s <= b {
      NewlinesMonotone(src, s, b);
    } else {
      NewlinesMonotone(src, b, s);
    }
  }

  /** The line of a byte starts at or before it, with no newline in between. */
  lemma LineOfByteStarts(src: Source, b: nat)
    requires b <= |src|
    ensures LineStart(src, LineOf(src, b)).Some?
    ensures var s := LineStart(src, LineOf(src, b)).value;
            s <= b && forall i :: s <= i < b ==> src[i] != NEWLINE
  {
    NewlinesMonotone(src, b, |src|);
    LineMapsAdjoint(src, LineOf(src, b), b);
    NewlinesMonotone(src, LineStart(src, LineOf(src, b)).value, b);
  }

  // ----- The display string of a synthesized local

  function SplitOnce(s: string, c: char): (r: Option<(string, string)>)
    ensures r.Some? ==> s == r.value.0 + [c] + r.value.1 && c !in r.value.0
    ensures r.None? ==> c !in s
  {
    if s == "" then None
    else if s[0] == c then Some(("", s[1..]))
    else
      var rest := SplitOnce(s[1..], c);
      if rest.None? then None else Some(([s[0]] + rest.value.0, rest.value.1))
  }

  function RSplitOnce(s: string, c: char): (r: Option<(string, string)>)
    ensures r.Some? ==> s == r.value.0 + [c] + r.value.1 && c !in r.value.1
    ensures r.None? ==> c !in s
  {
    if s == "" then None
    else
      var last := |s| - 1;
      if s[last] == c then Some((s[..last], ""))
      else
        var rest := RSplitOnce(s[..last], c);
        if rest.None? then None else Some((rest.value.0, rest.value.1 + [s[last]]))
  }

  predicate IsDigit(c: char) { '0' <= c <= '9' }

  function DigitValue(c: char): nat
    requires IsDigit(c)
  {
    c as int - '0' as int
  }

  function DigitsValue(s: string): nat
    requires forall c :: c in s ==> IsDigit(c)
  {
    if s == "" then 0 else
      assert s[|s| - 1] in s;
      DigitsValue(s[..|s| - 1]) * 10 + DigitValue(s[|s| - 1])
  }

  /** An unsigned 64-bit integer in decimal, with an optional plus sign. */
  function ParseUsize(s: string): Option<nat> {
    var digits := if s != "" && s[0] == '+' then s[1..] else s;
    if digits == "" || !(forall c :: c in digits ==> IsDigit(c)) then None
    else if DigitsValue(digits) > USIZE_MAX then None
    else Some(DigitsValue(digits))
  }

  /** Decimal digits whose value fits into 64 bits. */
  ghost predicate Spells(digits: string, n: nat) {
    && digits != "" && (forall c :: c in digits ==> '0' <= c <= '9')
    && DigitsValue(digits) == n <= 0xFFFF_FFFF_FFFF_FFFF
  }

  /** A number is a plus sign at most and then decimal digits. */
  lemma ParsedNumbers(s: string, n: nat)
    ensures ParseUsize(s) == Some(n) <==> exists digits :: (s == digits || s == "+" + digits) && Spells(digits, n)
  {
    hide DigitsValue;
    var digits := if s != "" && s[0] == '+' then s[1..] else s;
    assert s != "" && s[0] == '+' ==> s == "+" + digits && '+' in s;
    forall other | s == "+" + other ensures other == digits {
      assert s[0] == '+' && s[1..] == other;
    }
    assert (forall c :: c in digits ==> IsDigit(c)) <==> (forall c :: c in digits ==> '0' <= c <= '9');
    if ParseUsize(s) == Some(n) {
      assert Spells(digits, n);
    }
    if Spells(digits, n) {
      assert ParseUsize(s) == Some(n);
    }
    assert Spells(s, n) ==> s == digits;
  }

  /** One more digit behind multiplies by ten and adds the digit. */
  lemma DigitsArePositional(s: string, c: char)
    requires (forall d :: d in s ==> '0' <= d <= '9') && '0' <= c <= '9'
    ensures DigitsValue("") == 0 && DigitsValue(s + [c]) == 10 * DigitsValue(s) + (c as int - '0' as int)
  {
    assert (s + [c])[..|s|] == s;
  }

  /** The file and line of a local, from `local <file>@<scope>:<name>@<intro>`. */
  function LocalDefLoc(scip: string, sources: map<string, Source>): (r: Option<(string, nat)>)
    ensures r.Some? ==> r.value.0 in sources && 1 <= r.value.1 <= Newlines(sources[r.value.0], |sources[r.value.0]|) + 1
  {
    if !("local " <= scip) then None else
      var file := SplitOnce(scip[6..], '@');
      if file.None? then None else
        var tail := RSplitOnce(file.value.1, '@');
        if tail.None? then None else
          var intro := ParseUsize(tail.value.1);
          if intro.None? || file.value.0 !in sources then None else
            var src := sources[file.value.0];
            if intro.value > |src| then None else
              NewlinesMonotone(src, intro.value, |src|);
              Some((file.value.0, LineOf(src, intro.value)))
  }

  function Decimal(n: nat): (s: string)
    ensures s != "" && (forall c :: c in s ==> IsDigit(c)) && DigitsValue(s) == n
  {
    var digit := [('0' as int + n % 10) as char];
    if n < 10 then
      assert digit[..0] == "";
      digit
    else
      var s := Decimal(n / 10) + digit;
      assert s[..|s| - 1] == Decimal(n / 10);
      s
  }

  lemma {:induction false} SplitOnceAt(a: string, c: char, b: string)
    requires c !in a
    ensures SplitOnce(a + [c] + b, c) == Some((a, b))
  {
    var s := a + [c] + b;
    if a == "" {
      assert s[1..] == b;
    } else {
      assert s[0] == a[0] && a[0] in a;
      assert s[1..] == a[1..] + [c] + b;
      SplitOnceAt(a[1..], c, b);
      assert [a[0]] + a[1..] == a;
    }
  }

  lemma {:induction false} RSplitOnceAt(a: string, c: char, b: string)
    requires c !in b
    ensures RSplitOnce(a + [c] + b, c) == Some((a, b))
    decreases |b|
  {
    var s := a + [c] + b;
    if b == "" {
      assert s[..|s| - 1] == a;
    } else {
      var last := |b| - 1;
      assert s[|s| - 1] == b[last] && b[last] in b;
      assert s[..|s| - 1] == a + [c] + b[..last];
      RSplitOnceAt(a, c, b[..last]);
      assert b[..last] + [b[last]] == b;
    }
  }

  lemma ParseDecimal(n: nat)
    ensures ParseUsize(Decimal(n)) == if n <= USIZE_MAX then Some(n) else None
  {
    hide Decimal, DigitsValue;
    assert Decimal(n)[0] in Decimal(n);
  }

  /** The display string of a synthesized local; `middle` is its scope and name. */
  function LocalDisplay(file: string, middle: string, intro: nat): string {
    "local " + file + "@" + middle + "@" + Decimal(intro)
  }

  /** What the parser takes for the file name: the part before the first `@`. */
  function FileRead(file: string): (read: string)
    ensures read <= file && '@' !in read && (read == file <==> '@' !in file)
  {
    var cut := SplitOnce(file, '@');
    if cut.Some? then cut.value.0 else file
  }

  /** What is read back of any local: the line of its byte in the file whose name was read, if there is one. */
  lemma LocalDefLocExactly(file: string, middle: string, intro: nat, sources: map<string, Source>)
    ensures var read := FileRead(file);
            LocalDefLoc(LocalDisplay(file, middle, intro), sources) ==
            if read in sources && intro <= |sources[read]| && intro <= USIZE_MAX
            then Some((read, LineOf(sources[read], intro))) else None
  {
    hide SplitOnce, RSplitOnce, ParseUsize, Decimal, LineOf;
    var digits := Decimal(intro);
    var scip := LocalDisplay(file, middle, intro);
    var read, cut := FileRead(file), SplitOnce(file, '@');
    // What stands between the file name that is read and the digits.
    var between := if cut.Some? then cut.value.1 + ['@'] + middle else middle;
    var after := between + ['@'] + digits;
    assert scip[6..] == file + "@" + middle + "@" + digits == read + ['@'] + after by {
      assert file + "@" + middle + "@" + digits == file + ['@'] + middle + ['@'] + digits;
    }
    SplitOnceAt(read, '@', after);
    assert '@' !in digits;
    RSplitOnceAt(between, '@', digits);
    ParseDecimal(intro);
  }

  /** For a known file and a byte within it, the display leads back to file and line exactly without an `@`. */
  lemma LocalDefLocRoundTrip(file: string, middle: string, intro: nat, sources: map<string, Source>)
    requires file in sources && intro <= |sources[file]| && intro <= USIZE_MAX
    ensures LocalDefLoc(LocalDisplay(file, middle, intro), sources) == Some((file, LineOf(sources[file], intro)))
            <==> '@' !in file
  {
    hide LocalDefLoc, LocalDisplay, LineOf;
    LocalDefLocExactly(file, middle, intro, sources);
  }

  /** `digits` spell a byte of a known file, which lies on `line`; neither part holds an `@`. */
  ghost predicate LocatesByte(file: string, digits: string, sources: map<string, Source>, line: nat) {
    && '@' !in file && '@' !in digits && file in sources
    && ParseUsize(digits).Some? && ParseUsize(digits).value <= |sources[file]|
    && line == LineOf(sources[file], ParseUsize(digits).value)
  }

  /** Exactly which strings locate a local, and where: the parts stand between the first and the last `@`. */
  lemma LocalDefLocMeans(scip: string, sources: map<string, Source>, file: string, line: nat)
    ensures LocalDefLoc(scip, sources) == Some((file, line)) <==>
            exists middle, digits :: scip == "local " + file + "@" + middle + "@" + digits
              && LocatesByte(file, digits, sources, line)
  {
    hide SplitOnce, RSplitOnce, ParseUsize, LineOf;
    if middle, digits :| scip == "local " + file + "@" + middle + "@" + digits
                         && LocatesByte(file, digits, sources, line) {
      var after := middle + ['@'] + digits;
      assert scip[6..] == file + ['@'] + after;
      SplitOnceAt(file, '@', after);
      RSplitOnceAt(middle, '@', digits);
    }
    if LocalDefLoc(scip, sources) == Some((file, line)) {
      var cut := SplitOnce(scip[6..], '@').value;
      var tail := RSplitOnce(cut.1, '@').value;
      assert scip == "local " + scip[6..] && scip[6..] == file + ['@'] + (tail.0 + ['@'] + tail.1);
      assert scip == "local " + file + "@" + tail.0 + "@" + tail.1;
      assert LocatesByte(file, tail.1, sources, line);
    }
  }

  /** A line number is one more than the number of bytes 10 before the byte. */
  lemma {:induction false} LineCountsNewlines(src: Source, b: nat)
    requires b <= |src|
    ensures LineOf(src, b) == 1 + |set i: nat | i < b && src[i] == 10|
  {
    var now := set i: nat | i < b && src[i] == 10;
    if b == 0 {
      assert now == {};
    } else {
      LineCountsNewlines(src, b - 1);
      var before := set i: nat | i < b - 1 && src[i] == 10;
      assert now == before + if src[b - 1] == 10 then {b - 1} else {};
    }
  }
}
