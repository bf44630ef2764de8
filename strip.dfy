/** The quote-aware `#` comment stripper as pure functions.

    A line is scanned rune by rune with two flags: `ooc` ("out of context",
    i.e. inside a quoted string), which is carried from line to line, and
    `esc`, which marks the next rune as escaped and starts false on every
    line.  The first `#` met outside quotes and not escaped cuts the line. */
module Strip {

  /** The comment marker that the reader looks for. */
  const Marker: char := '#'

  /** Either quote rune; the two kinds are not told apart. */
  predicate IsQuote(c: char) {
    c == '"' || c == '\''
  }

  /** The scanner's flags just before a rune is looked at. */
  datatype ScanState = ScanState(ooc: bool, esc: bool)

  /** The rune `c` stops the scan when looking for `ru`: not escaped, not
      inside quotes, not a quote itself, and equal to `ru`. */
  predicate IsMarker(st: ScanState, c: char, ru: char) {
    !st.esc && !st.ooc && !IsQuote(c) && c == ru
  }

  /** How the flags change on a rune that did not stop the scan. */
  function Step(st: ScanState, c: char): (r: ScanState)
    // the quote state flips exactly on a quote that is not escaped
    ensures r.ooc != st.ooc <==> !st.esc && IsQuote(c)
    // only a backslash inside quotes escapes, and never an escaped one
    ensures r.esc <==> !st.esc && st.ooc && c == '\\'
  {
    if st.esc then ScanState(st.ooc, false)
    else if c == '\\' && st.ooc then ScanState(st.ooc, true)
    else if IsQuote(c) then ScanState(!st.ooc, false)
    else ScanState(st.ooc, false)
  }

  /** Outcome of a scan: the stop position (-1 when there is none) and the
      quote state left behind. */
  datatype Found = Found(pos: int, ooc: bool)

  /** Scans `s` from position `i` in state `st` for an unquoted, unescaped `ru`. */
  function FindFrom(s: seq<char>, ru: char, i: nat, st: ScanState): (r: Found)
    requires i <= |s|
    ensures r.pos == -1 || (i <= r.pos < |s| && s[r.pos] == ru && !r.ooc)
    decreases |s| - i
  {
    if i == |s| then Found(-1, st.ooc)
    else if IsMarker(st, s[i], ru) then Found(i, st.ooc)
    else FindFrom(s, ru, i + 1, Step(st, s[i]))
  }

  /** The flags before position `k` of `s` when the line is entered with
      quote state `ooc0`, as a left fold of `Step`. */
  function StateAt(s: seq<char>, ooc0: bool, k: nat): ScanState
    requires k <= |s|
  {
    if k == 0 then ScanState(ooc0, false)
    else Step(StateAt(s, ooc0, k - 1), s[k - 1])
  }

  /** Position `k` holds a comment marker in the sense of the scanner. */
  predicate MarkerAt(s: seq<char>, ru: char, ooc0: bool, k: nat)
    requires k < |s|
  {
    IsMarker(StateAt(s, ooc0, k), s[k], ru)
  }

  lemma {:induction false} FindFromFirstMarker(s: seq<char>, ru: char, ooc0: bool, i: nat)
    requires i <= |s|
    ensures var r := FindFrom(s, ru, i, StateAt(s, ooc0, i));
      && (r.pos == -1 <==> forall k :: i <= k < |s| ==> !MarkerAt(s, ru, ooc0, k))
      && (r.pos >= 0 ==> i <= r.pos < |s| && MarkerAt(s, ru, ooc0, r.pos))
      && (forall k :: i <= k < |s| && (r.pos == -1 || k < r.pos) ==> !MarkerAt(s, ru, ooc0, k))
      && r.ooc == StateAt(s, ooc0, if r.pos == -1 then |s| else r.pos).ooc
    decreases |s| - i
  {
    if i < |s| && !MarkerAt(s, ru, ooc0, i) {
      assert StateAt(s, ooc0, i + 1) == Step(StateAt(s, ooc0, i), s[i]);
      FindFromFirstMarker(s, ru, ooc0, i + 1);
    }
  }

  /** A scan of a whole line stops at the FIRST marker position, or returns
      -1 exactly when the line has none; the quote state it leaves is the one
      reached just before the stop (or at the end of the line). */
  lemma FindFirstMarker(s: seq<char>, ru: char, ooc0: bool)
    ensures var r := FindFrom(s, ru, 0, ScanState(ooc0, false));
      && (r.pos == -1 <==> forall k :: 0 <= k < |s| ==> !MarkerAt(s, ru, ooc0, k))
      && (r.pos >= 0 ==> r.pos < |s| && s[r.pos] == ru && MarkerAt(s, ru, ooc0, r.pos))
      && (forall k :: 0 <= k < |s| && (r.pos == -1 || k < r.pos) ==> !MarkerAt(s, ru, ooc0, k))
      && r.ooc == StateAt(s, ooc0, if r.pos == -1 then |s| else r.pos).ooc
  {
    FindFromFirstMarker(s, ru, ooc0, 0);
  }

  /** Number of quote runes among the first `k` runes of `s` that were not escaped. */
  function UnescapedQuotes(s: seq<char>, ooc0: bool, k: nat): nat
    requires k <= |s|
  {
    if k == 0 then 0
    else UnescapedQuotes(s, ooc0, k - 1)
         + (if IsQuote(s[k - 1]) && !StateAt(s, ooc0, k - 1).esc then 1 else 0)
  }

  /** The quote state after `k` runes is the entry state flipped once per
      unescaped quote rune seen so far. */
  lemma {:induction false} QuoteStateIsParity(s: seq<char>, ooc0: bool, k: nat)
    requires k <= |s|
    ensures StateAt(s, ooc0, k).ooc == (ooc0 != (UnescapedQuotes(s, ooc0, k) % 2 == 1))
  {
    if k > 0 {
      QuoteStateIsParity(s, ooc0, k - 1);
    }
  }

  /** The quote state a whole-line scan leaves behind is the entry state XOR
      the parity of the unescaped quotes before the stop point. */
  lemma FindRuneParity(s: seq<char>, ru: char, ooc0: bool)
    ensures var r := FindFrom(s, ru, 0, ScanState(ooc0, false));
      var stop := if r.pos == -1 then |s| else r.pos;
      0 <= stop <= |s| && r.ooc == (ooc0 != (UnescapedQuotes(s, ooc0, stop) % 2 == 1))
  {
    var r := FindFrom(s, ru, 0, ScanState(ooc0, false));
    FindFirstMarker(s, ru, ooc0);
    QuoteStateIsParity(s, ooc0, if r.pos == -1 then |s| else r.pos);
  }

  /** `a` and `b` agree from position `i` on, except that a quote may stand
      where the other has a quote of the other kind. */
  predicate SameUpToQuoteKind(a: seq<char>, b: seq<char>, i: nat) {
    |a| == |b| && forall k :: i <= k < |a| ==> a[k] == b[k] || (IsQuote(a[k]) && IsQuote(b[k]))
  }

  lemma {:induction false} QuoteKindsInterchangeableFrom(a: seq<char>, b: seq<char>, ru: char, i: nat, st: ScanState)
    requires i <= |a| && SameUpToQuoteKind(a, b, i)
    ensures FindFrom(a, ru, i, st) == FindFrom(b, ru, i, st)
    decreases |a| - i
  {
    if i < |a| {
      assert SameUpToQuoteKind(a, b, i + 1);
      QuoteKindsInterchangeableFrom(a, b, ru, i + 1, Step(st, a[i]));
    }
  }

  /** `"` and `'` play the same role: swapping one quote kind for the other
      anywhere in a line changes neither where the scan stops nor the quote
      state it leaves, so a `"` can close a string that a `'` opened. */
  lemma QuoteKindsInterchangeable(s: seq<char>, i: nat, ru: char, ooc: bool)
    requires i < |s| && IsQuote(s[i])
    ensures FindFrom(s[i := '"'], ru, 0, ScanState(ooc, false))
         == FindFrom(s[i := '\''], ru, 0, ScanState(ooc, false))
  {
    QuoteKindsInterchangeableFrom(s[i := '"'], s[i := '\''], ru, 0, ScanState(ooc, false));
  }

  /** An unescaped quote flips the quote state and is passed over. */
  lemma QuoteFlips(s: seq<char>, ru: char, i: nat, ooc: bool)
    requires i < |s| && IsQuote(s[i])
    ensures FindFrom(s, ru, i, ScanState(ooc, false)) == FindFrom(s, ru, i + 1, ScanState(!ooc, false))
  {
  }

  /** An unquoted, unescaped `ru` that is not a quote stops the scan there. */
  lemma StopsAt(s: seq<char>, ru: char, i: nat)
    requires i < |s| && s[i] == ru && !IsQuote(ru)
    ensures FindFrom(s, ru, i, ScanState(false, false)) == Found(i, false)
  {
  }

  /** Inside quotes, a run of runes with no quote and no backslash is passed
      over whole: a `#` in it is never taken for a marker. */
  lemma {:induction false} InsideQuotes(s: seq<char>, ru: char, i: nat, j: nat)
    requires i <= j <= |s|
    requires forall k :: i <= k < j ==> !IsQuote(s[k]) && s[k] != '\\'
    ensures FindFrom(s, ru, i, ScanState(true, false)) == FindFrom(s, ru, j, ScanState(true, false))
    decreases j - i
  {
    if i < j {
      InsideQuotes(s, ru, i + 1, j);
    }
  }

  /** Inside quotes, a backslash and the rune after it, even a quote or a
      `#`, are passed over and the scan is still inside quotes. */
  lemma EscapeInsideQuotes(s: seq<char>, ru: char, i: nat)
    requires i + 2 <= |s| && s[i] == '\\'
    ensures FindFrom(s, ru, i, ScanState(true, false)) == FindFrom(s, ru, i + 2, ScanState(true, false))
  {
    assert FindFrom(s, ru, i, ScanState(true, false)) == FindFrom(s, ru, i + 1, ScanState(true, true));
  }

  /** Outside quotes, a run with no quote and no `ru` is passed over whole;
      a backslash there is an ordinary rune. */
  lemma {:induction false} OutsideQuotes(s: seq<char>, ru: char, i: nat, j: nat)
    requires i <= j <= |s|
    requires forall k :: i <= k < j ==> !IsQuote(s[k]) && s[k] != ru
    ensures FindFrom(s, ru, i, ScanState(false, false)) == FindFrom(s, ru, j, ScanState(false, false))
    decreases j - i
  {
    if i < j {
      OutsideQuotes(s, ru, i + 1, j);
    }
  }

  /** The kept text of a line (without newline) and the quote state after it,
      or the whole stripped text of several lines. */
  datatype Stripped = Stripped(text: seq<char>, ooc: bool)

  /** One line with its comment removed: cut before the first marker. */
  function StripLine(ooc: bool, line: seq<char>): (r: Stripped)
    ensures r.text <= line
    ensures |r.text| < |line| ==> line[|r.text|] == Marker && !r.ooc
  {
    var f := FindFrom(line, Marker, 0, ScanState(ooc, false));
    Stripped(if f.pos >= 0 then line[..f.pos] else line, f.ooc)
  }

  /** A line is cut exactly at its first marker position and is kept whole
      when it has none. */
  lemma StripLineCutsAtFirstMarker(ooc: bool, line: seq<char>)
    ensures var r := StripLine(ooc, line);
      && (|r.text| < |line| ==> MarkerAt(line, Marker, ooc, |r.text|))
      && (forall k :: 0 <= k < |r.text| ==> !MarkerAt(line, Marker, ooc, k))
      && (r.text == line <==> forall k :: 0 <= k < |line| ==> !MarkerAt(line, Marker, ooc, k))
  {
    FindFirstMarker(line, Marker, ooc);
  }

  /** The stripped lines, each followed by one newline, threading the quote
      state from each line to the next. */
  function StripAll(ooc: bool, lines: seq<seq<char>>): (r: Stripped)
    decreases lines
  {
    if lines == [] then Stripped([], ooc)
    else
      var first := StripLine(ooc, lines[0]);
      var rest := StripAll(first.ooc, lines[1..]);
      Stripped(first.text + "\n" + rest.text, rest.ooc)
  }

  /** Stripping `a + b` is stripping `a`, then stripping `b` from the quote
      state `a` left behind. */
  lemma {:induction false} StripAllAppend(ooc: bool, a: seq<seq<char>>, b: seq<seq<char>>)
    ensures var x := StripAll(ooc, a);
      var y := StripAll(x.ooc, b);
      StripAll(ooc, a + b) == Stripped(x.text + y.text, y.ooc)
    decreases a
  {
    if a == [] {
      assert a + b == b;
    } else {
      var first := StripLine(ooc, a[0]);
      var x' := StripAll(first.ooc, a[1..]);
      var y := StripAll(x'.ooc, b);
      assert (a + b)[0] == a[0];
      assert (a + b)[1..] == a[1..] + b;
      StripAllAppend(first.ooc, a[1..], b);
      AppendAssoc(first.text + "\n", x'.text, y.text);
    }
  }

  lemma AppendAssoc<T>(a: seq<T>, b: seq<T>, c: seq<T>)
    ensures a + (b + c) == (a + b) + c
  {
  }

  /** The lines, each followed by one newline. */
  function Join(lines: seq<seq<char>>): seq<char> {
    if lines == [] then [] else lines[0] + "\n" + Join(lines[1..])
  }

  /** When every line, entered outside quotes, keeps `kept[i]` and ends
      outside quotes, the output is the kept lines, each newline-terminated. */
  lemma {:induction false} StripAllBalanced(lines: seq<seq<char>>, kept: seq<seq<char>>)
    requires |lines| == |kept|
    requires forall i :: 0 <= i < |lines| ==> StripLine(false, lines[i]) == Stripped(kept[i], false)
    ensures StripAll(false, lines) == Stripped(Join(kept), false)
    decreases lines
  {
    if lines != [] {
      assert StripLine(false, lines[0]) == Stripped(kept[0], false);
      StripAllBalanced(lines[1..], kept[1..]);
    }
  }

  /** Input without any `#` comes out as its lines, each newline-terminated,
      whatever the quote state. */
  lemma {:induction false} StripAllCommentFree(ooc: bool, lines: seq<seq<char>>)
    requires forall i :: 0 <= i < |lines| ==> Marker !in lines[i]
    ensures StripAll(ooc, lines).text == Join(lines)
    decreases lines
  {
    if lines != [] {
      var first := StripLine(ooc, lines[0]);
      assert first.text == lines[0];
      StripAllCommentFree(first.ooc, lines[1..]);
    }
  }
}
