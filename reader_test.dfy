/** The behaviour the package's tests rely on: draining a reader with
    repeated reads yields the stripped text of the whole input, however the
    reads are sized, and the canonical example strips as expected. */
module ReaderTest {
  import opened Strip
  import opened Reader

  /** Calls `Read` until it reports end of data, collecting every chunk, as a
      caller of the reader's `io.Reader` interface does; the i-th call asks
      for `sizes[i % |sizes|]` characters.  The result is the stripped text
      of all lines, so it does not depend on how the reads are sized. */
  method ReadAll(r: SkipCommentsReader, sizes: seq<nat>) returns (out: seq<char>)
    requires r.Valid() && !r.eof && r.delivered == []
    requires |sizes| > 0 && forall i :: 0 <= i < |sizes| ==> sizes[i] > 0
    modifies r
    ensures r.source == old(r.source)
    ensures out == StripAll(false, r.source).text
  {
    out := [];
    var calls := 0;
    while true
      invariant r.Valid() && !r.eof && r.delivered == out
      invariant r.source == old(r.source)
      decreases |r.source| - r.next, |r.buf|
    {
      var chunk, atEnd := r.Read(sizes[calls % |sizes|]);
      calls := calls + 1;
      out := out + chunk;
      if atEnd {
        break;
      }
    }
    assert r.source[..r.next] == r.source;
  }

  /** The lines of the canonical example input (it starts with an empty line). */
  function CanonicalInput(): seq<seq<char>> {
    ["", "{ # Some JSON", "\t\"key\": \"value#\",", "\t# A comment",
     "\t\"#another\": \"#val\\\"#\"", "}"]
  }

  /** A line that opens with runes other than a quote or `#` and then has an
      unquoted `#` at `p` is cut there, whatever follows. */
  lemma CutAtPlainMarker(s: seq<char>, p: nat)
    requires p < |s| && s[p] == Marker
    requires forall k :: 0 <= k < p ==> !IsQuote(s[k]) && s[k] != Marker
    ensures StripLine(false, s) == Stripped(s[..p], false)
  {
    OutsideQuotes(s, Marker, 0, p);
    StopsAt(s, Marker, p);
  }

  /** Lines shaped like `\t"key": "value#",`: two quoted strings, the second
      holding a `#`, are kept whole and leave the quote state off. */
  lemma KeepsKeyValueLine(s: seq<char>)
    requires |s| == 17 && IsQuote(s[1]) && IsQuote(s[5]) && IsQuote(s[8]) && IsQuote(s[15])
    requires forall k :: 0 <= k < 1 || 6 <= k < 8 || 16 <= k < 17 ==> !IsQuote(s[k]) && s[k] != Marker
    requires forall k :: 2 <= k < 5 || 9 <= k < 15 ==> !IsQuote(s[k]) && s[k] != '\\'
    ensures StripLine(false, s) == Stripped(s, false)
  {
    OutsideQuotes(s, Marker, 0, 1);
    QuoteFlips(s, Marker, 1, false);
    InsideQuotes(s, Marker, 2, 5);
    QuoteFlips(s, Marker, 5, true);
    OutsideQuotes(s, Marker, 6, 8);
    QuoteFlips(s, Marker, 8, false);
    InsideQuotes(s, Marker, 9, 15);
    QuoteFlips(s, Marker, 15, true);
    OutsideQuotes(s, Marker, 16, 17);
  }

  /** Lines shaped like `\t"#another": "#val\"#"`: every `#` is quoted, the
      last one after an escaped quote that does not close the string. */
  lemma KeepsEscapedQuoteLine(s: seq<char>)
    requires |s| == 22 && IsQuote(s[1]) && IsQuote(s[10]) && IsQuote(s[13]) && s[18] == '\\' && IsQuote(s[21])
    requires forall k :: 0 <= k < 1 || 11 <= k < 13 ==> !IsQuote(s[k]) && s[k] != Marker
    requires forall k :: 2 <= k < 10 || 14 <= k < 18 || 20 <= k < 21 ==> !IsQuote(s[k]) && s[k] != '\\'
    ensures StripLine(false, s) == Stripped(s, false)
  {
    OutsideQuotes(s, Marker, 0, 1);
    QuoteFlips(s, Marker, 1, false);
    InsideQuotes(s, Marker, 2, 10);
    QuoteFlips(s, Marker, 10, true);
    OutsideQuotes(s, Marker, 11, 13);
    QuoteFlips(s, Marker, 13, false);
    InsideQuotes(s, Marker, 14, 18);
    EscapeInsideQuotes(s, Marker, 18);
    InsideQuotes(s, Marker, 20, 21);
    QuoteFlips(s, Marker, 21, true);
  }

  /** The kept text of each line of the canonical example. */
  function CanonicalKept(): seq<seq<char>> {
    ["", "{ ", "\t\"key\": \"value#\",", "\t", "\t\"#another\": \"#val\\\"#\"", "}"]
  }

  /** Each line of the canonical example keeps its expected text and ends
      outside quotes. */
  lemma CanonicalLine(i: nat)
    requires i < 6
    ensures StripLine(false, CanonicalInput()[i]) == Stripped(CanonicalKept()[i], false)
  {
    if i == 0 || i == 5 {
      StripAllCommentFree(false, [CanonicalInput()[i]]);
    } else if i == 1 {
      CutAtPlainMarker(CanonicalInput()[1], 2);
    } else if i == 2 {
      KeepsKeyValueLine(CanonicalInput()[2]);
    } else if i == 3 {
      CutAtPlainMarker(CanonicalInput()[3], 1);
    } else {
      KeepsEscapedQuoteLine(CanonicalInput()[4]);
    }
  }

  /** The canonical example: the unquoted comments are cut, the `#` inside
      `"value#"` and inside `"#val\"#"` are kept, and each kept line is
      followed by a newline. */
  lemma CanonicalStrip()
    ensures StripAll(false, CanonicalInput()) == Stripped(Join(CanonicalKept()), false)
  {
    forall i | 0 <= i < 6
      ensures StripLine(false, CanonicalInput()[i]) == Stripped(CanonicalKept()[i], false)
    {
      CanonicalLine(i);
    }
    StripAllBalanced(CanonicalInput(), CanonicalKept());
  }

  /** `TestSmallReader`: draining the canonical example four characters at a
      time gives the expected output. */
  method SmallReader() returns (out: seq<char>)
    ensures out == Join(CanonicalKept())
  {
    var r := new SkipCommentsReader(CanonicalInput());
    out := ReadAll(r, [4]);
    CanonicalStrip();
  }

  /** `TestStripComments`: draining it with reads of 512 characters, the
      smallest read `bytes.Buffer.ReadFrom` makes, gives the same output. */
  method StripComments() returns (out: seq<char>)
    ensures out == Join(CanonicalKept())
  {
    var r := new SkipCommentsReader(CanonicalInput());
    out := ReadAll(r, [512]);
    CanonicalStrip();
  }

  /** Quote kinds are not matched: in `"it's#fine"` the apostrophe closes the
      string the double quote opened, so the `#` after it starts a comment. */
  lemma ApostropheClosesString()
    ensures StripLine(false, "\"it's#fine\"") == Stripped("\"it's", false)
  {
    var s := "\"it's#fine\"";
    QuoteFlips(s, Marker, 0, false);
    InsideQuotes(s, Marker, 1, 3);
    QuoteFlips(s, Marker, 3, true);
    OutsideQuotes(s, Marker, 4, 5);
    StopsAt(s, Marker, 5);
  }
}
