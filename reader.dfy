/** The streaming reader: `SkipCommentsReader` pulls lines from a line
    source, strips each one and queues the result, plus a newline, in a FIFO
    buffer from which reads are served. */
module Reader {
  import opened Strip

  function Min(a: int, b: int): int {
    if a <= b then a else b
  }

  /** Cutting a line at the position a scan for `#` reports is `StripLine`. */
  lemma CutIsStripLine(line: seq<char>, p: int, ooc0: bool, ooc1: bool)
    requires Found(p, ooc1) == FindFrom(line, Marker, 0, ScanState(ooc0, false))
    ensures p < |line|
    ensures StripLine(ooc0, line) == Stripped(if p >= 0 then line[..p] else line, ooc1)
  {
  }

  /** Buffer, quote state and position of the next unread line after `load`. */
  datatype Filled = Filled(buf: seq<char>, ooc: bool, next: nat)

  /** What `load(n)` does to the reader's state when the lines not yet
      scanned are `lines[i..]`: take one line at a time, append it stripped
      and newline-terminated, and stop as soon as the WHOLE buffer is longer
      than `n` or the lines run out.  At least one line is taken whenever
      there is one. */
  function Fill(buf: seq<char>, ooc: bool, lines: seq<seq<char>>, i: nat, n: int): (r: Filled)
    requires i <= |lines|
    ensures i <= r.next <= |lines|
    ensures i < |lines| ==> i < r.next && |r.buf| > |buf|
    ensures i == |lines| ==> r == Filled(buf, ooc, i)
    ensures |r.buf| > n || r.next == |lines|
    decreases |lines| - i
  {
    if i == |lines| then Filled(buf, ooc, i)
    else
      var line := StripLine(ooc, lines[i]);
      var grown := buf + (line.text + "\n");
      if |grown| > n then Filled(grown, line.ooc, i + 1)
      else Fill(grown, line.ooc, lines, i + 1, n)
  }

  /** The state `Read(k)` serves from: the buffer topped up by `load` when it
      holds fewer than `k` characters and `eof` is unset, else unchanged. */
  function TopUp(buf: seq<char>, ooc: bool, lines: seq<seq<char>>, next: nat, k: nat, eof: bool): (r: Filled)
    requires next <= |lines|
    ensures next <= r.next <= |lines|
    // nothing is served for k > 0 only once every line is scanned and nothing is queued
    ensures !eof && k > 0 && r.buf == [] ==> next == |lines| && buf == []
    // progress: a line was scanned, or the queue is untouched
    ensures r.next > next || r == Filled(buf, ooc, next)
    // the top-up takes lines until the buffer outgrows the deficit `k - |buf|`
    ensures !eof && |buf| < k ==> |r.buf| > k - |buf| || r.next == |lines|
  {
    if !eof && |buf| < k then Fill(buf, ooc, lines, next, k - |buf|)
    else Filled(buf, ooc, next)
  }

  /** Stripping `lines[i..j]` is stripping `lines[i]`, then `lines[i+1..j]`
      from the quote state it leaves behind. */
  lemma StripAllFirst(ooc: bool, lines: seq<seq<char>>, i: nat, j: nat)
    requires i < j <= |lines|
    ensures var first := StripLine(ooc, lines[i]);
      var rest := StripAll(first.ooc, lines[i + 1..j]);
      StripAll(ooc, lines[i..j]) == Stripped(first.text + "\n" + rest.text, rest.ooc)
  {
    assert lines[i..j][0] == lines[i];
    assert lines[i..j][1..] == lines[i + 1..j];
  }

  /** `Fill` only appends: the new buffer is the old one followed by the
      stripped text of exactly the lines it consumed, and the quote state is
      the one those lines leave behind. */
  lemma {:induction false} FillStrips(buf: seq<char>, ooc: bool, lines: seq<seq<char>>, i: nat, n: int)
    requires i <= |lines|
    ensures var r := Fill(buf, ooc, lines, i, n);
      var used := StripAll(ooc, lines[i..r.next]);
      r.buf == buf + used.text && r.ooc == used.ooc
    decreases |lines| - i
  {
    var r := Fill(buf, ooc, lines, i, n);
    if i == |lines| {
      assert lines[i..i] == [];
    } else {
      var line := StripLine(ooc, lines[i]);
      var grown := buf + (line.text + "\n");
      StripAllFirst(ooc, lines, i, r.next);
      var x := StripAll(line.ooc, lines[i + 1..r.next]);
      if |grown| > n {
        assert lines[i + 1..i + 1] == [];
        assert line.text + "\n" + x.text == line.text + "\n";
      } else {
        FillStrips(grown, line.ooc, lines, i + 1, n);
        AppendAssoc(buf, line.text + "\n", x.text);
      }
    }
  }

  /** `Fill` stops at the first line that makes the buffer longer than `n`:
      no shorter run of consumed lines (of one line or more) had done so. */
  lemma {:induction false} FillStopsFirst(buf: seq<char>, ooc: bool, lines: seq<seq<char>>, i: nat, n: int)
    requires i <= |lines|
    ensures var r := Fill(buf, ooc, lines, i, n);
      forall j :: i < j < r.next ==> |buf| + |StripAll(ooc, lines[i..j]).text| <= n
    decreases |lines| - i
  {
    var r := Fill(buf, ooc, lines, i, n);
    if i < |lines| {
      var line := StripLine(ooc, lines[i]);
      var grown := buf + (line.text + "\n");
      if |grown| <= n {
        FillStopsFirst(grown, line.ooc, lines, i + 1, n);
        forall j | i < j < r.next
          ensures |buf| + |StripAll(ooc, lines[i..j]).text| <= n
        {
          StripAllFirst(ooc, lines, i, j);
          if j == i + 1 {
            assert lines[i + 1..j] == [];
          }
        }
      }
    }
  }

  /** `shown` is exactly the stripped text of the first `next` lines of
      `source`, and `ooc` the quote state they leave behind. */
  ghost predicate Consistent(source: seq<seq<char>>, next: nat, shown: seq<char>, ooc: bool) {
    next <= |source| && StripAll(false, source[..next]) == Stripped(shown, ooc)
  }

  /** `Fill` keeps the reader consistent: whatever it appends is the
      stripped text of the lines it consumes. */
  lemma FillKeepsConsistent(source: seq<seq<char>>, next: nat, delivered: seq<char>,
                            buf: seq<char>, ooc: bool, n: int)
    requires Consistent(source, next, delivered + buf, ooc)
    ensures var r := Fill(buf, ooc, source, next, n);
      Consistent(source, r.next, delivered + r.buf, r.ooc)
  {
    var r := Fill(buf, ooc, source, next, n);
    var y := StripAll(ooc, source[next..r.next]);
    FillStrips(buf, ooc, source, next, n);
    assert source[..r.next] == source[..next] + source[next..r.next];
    StripAllAppend(false, source[..next], source[next..r.next]);
    AppendAssoc(delivered, buf, y.text);
  }

  /** A `SkipCommentsReader`.  The scanner is modelled by `source`, the
      input already split into lines, and `next`, the index of the line it
      yields next.  `buf` is the stripped text not yet read and `ooc` the
      quote state carried across lines.  `eof` is never set by the reader. */
  class SkipCommentsReader {
    var source: seq<seq<char>>
    var next: nat
    var buf: seq<char>
    var eof: bool
    var ooc: bool

    // Everything handed to callers of Read so far.
    ghost var delivered: seq<char>

    /** What has been read so far, followed by what is queued, is exactly
        the stripped text of the lines scanned so far, and `ooc` is the
        quote state those lines leave behind. */
    ghost predicate Valid()
      reads this
    {
      Consistent(source, next, delivered + buf, ooc)
    }

    /** `NewSkipCommentsReader`: an empty buffer over a fresh line source. */
    constructor (source: seq<seq<char>>)
      ensures Valid()
      ensures this.source == source && next == 0 && delivered == []
      ensures buf == [] && !eof && !ooc
    {
      this.source := source;
      next := 0;
      buf := [];
      eof := false;
      ooc := false;
      delivered := [];
      assert source[..0] == [];
    }

    /** `findRune`: the position of the first `ru` outside quotes and not
        escaped, or -1; updates the quote state as it scans. */
    method FindRune(s: seq<char>, ru: char) returns (p: int)
      modifies this`ooc
      ensures Found(p, ooc) == FindFrom(s, ru, 0, ScanState(old(ooc), false))
    {
      var esc := false;
      p := -1;
      var i := 0;
      while i < |s|
        invariant 0 <= i <= |s| && p == -1
        invariant FindFrom(s, ru, i, ScanState(ooc, esc)) == FindFrom(s, ru, 0, ScanState(old(ooc), false))
      {
        var b := s[i];
        if esc {
          esc := false;
        } else if b == '\\' && ooc {
          esc := true;
        } else if IsQuote(b) {
          ooc := !ooc;
        } else if b == ru && !ooc {
          p := i;
          break;
        }
        i := i + 1;
      }
    }

    /** One round of `load`: scan the next line, cut it at its first
        comment marker and queue the rest with a newline. */
    method LoadLine()
      requires next < |source|
      modifies this`buf, this`next, this`ooc
      ensures var line := StripLine(old(ooc), source[old(next)]);
        buf == old(buf) + (line.text + "\n") && ooc == line.ooc && next == old(next) + 1
    {
      ghost var oocBefore := ooc;
      var line := source[next];
      next := next + 1;
      var p := FindRune(line, Marker);
      CutIsStripLine(line, p, oocBefore, ooc);
      if p >= 0 {
        line := line[..p];
      }
      buf := buf + (line + "\n");
    }

    /** `load`: pulls lines into the buffer as `Fill` describes. */
    method Load(n: int)
      requires Valid()
      modifies this`buf, this`next, this`ooc
      ensures Valid()
      ensures Filled(buf, ooc, next) == Fill(old(buf), old(ooc), source, old(next), n)
    {
      ghost var buf0, ooc0, next0 := buf, ooc, next;
      while true
        invariant next <= |source|
        invariant Fill(buf, ooc, source, next, n) == Fill(buf0, ooc0, source, next0, n)
        decreases |source| - next
      {
        if next == |source| {
          break;
        }
        LoadLine();
        if |buf| > n {
          break;
        }
      }
      FillKeepsConsistent(source, next0, delivered, buf0, ooc0, n);
    }

    /** `bytes.Buffer.Read`: hands out up to `k` queued characters from the
        front; reports end of data when nothing is queued and `k > 0`. */
    method BufRead(k: nat) returns (chunk: seq<char>, atEnd: bool)
      requires Valid()
      modifies this`buf, this`delivered
      ensures Valid()
      ensures chunk == old(buf)[..Min(k, |old(buf)|)] && buf == old(buf)[|chunk|..]
      ensures |chunk| == Min(k, |old(buf)|) && chunk + buf == old(buf)
      ensures atEnd <==> old(buf) == [] && k > 0
      ensures delivered == old(delivered) + chunk
    {
      if buf == [] {
        assert [] + buf == buf;
        return [], k > 0;
      }
      var m := Min(k, |buf|);
      chunk, atEnd := buf[..m], false;
      AppendAssoc(delivered, chunk, buf[m..]);
      assert chunk + buf[m..] == buf;
      buf := buf[m..];
      delivered := delivered + chunk;
    }

    /** `Read`: tops the buffer up when it holds fewer than `k` characters,
        then dequeues up to `k` of them in FIFO order. */
    method Read(k: nat) returns (chunk: seq<char>, atEnd: bool)
      requires Valid()
      modifies this`buf, this`next, this`ooc, this`delivered
      ensures Valid()
      ensures var f := TopUp(old(buf), old(ooc), source, old(next), k, eof);
        && |chunk| == Min(k, |f.buf|) && chunk + buf == f.buf
        && next == f.next && ooc == f.ooc
      ensures delivered == old(delivered) + chunk
      ensures atEnd <==> if eof then old(buf) == [] else k > 0 && chunk == []
    {
      if eof {
        if |buf| > 0 {
          chunk, atEnd := BufRead(k);
          return;
        }
        return [], true;
      }
      if |buf| < k {
        Load(k - |buf|);
      }
      chunk, atEnd := BufRead(k);
    }
  }
}
