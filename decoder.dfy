/**
 * The streaming `Decoder` of elblog.go: a line scanner over the input, and
 * `More`/`Decode`, which share a one-line look-ahead buffer.
 *
 * The line scanner stands for bufio.Scanner split by bufio.ScanLines: the
 * input is cut at each newline, a carriage return before the newline is
 * dropped, and a last line without a newline still counts when it is not
 * empty.
 */
module ElbDecoder {
  import opened Wrappers
  import opened ByteStrings
  import opened ElbLog
  import opened ElbParse

  const NEWLINE: char := '\n'
  const CR: char := '\r'

  /** bufio.ScanLines drops one carriage return at the end of a line. */
  function DropCR(line: Bytes): (r: Bytes)
    ensures r == line || r + [CR] == line
  {
    if |line| > 0 && line[|line| - 1] == CR then line[..|line| - 1] else line
  }

  /** The lines bufio.ScanLines cuts `input` into. */
  function Lines(input: Bytes): seq<Bytes>
  {
    var parts := Split(input, NEWLINE);
    DropCRs(if parts[|parts| - 1] == [] then parts[..|parts| - 1] else parts)
  }

  /** Every line followed by a newline. */
  function Terminated(lines: seq<Bytes>): Bytes
  {
    if |lines| == 0 then [] else lines[0] + [NEWLINE] + Terminated(lines[1..])
  }

  lemma {:induction false} TerminatedIsJoin(lines: seq<Bytes>, last: Bytes)
    ensures Terminated(lines) + last == Join(lines + [last], NEWLINE)
  {
    if |lines| > 0 {
      TerminatedIsJoin(lines[1..], last);
      assert (lines + [last])[1..] == lines[1..] + [last];
    }
  }

  /** The lines each with its carriage return dropped. */
  function DropCRs(lines: seq<Bytes>): (r: seq<Bytes>)
    ensures |r| == |lines|
  {
    seq(|lines|, k requires 0 <= k < |lines| => DropCR(lines[k]))
  }

  /** The lines of an input whose split at newlines is `lines` and then `last`. */
  lemma LinesFromSplit(input: Bytes, lines: seq<Bytes>, last: Bytes)
    requires Split(input, NEWLINE) == lines + [last]
    ensures Lines(input) == DropCRs(lines) + (if last == [] then [] else [DropCR(last)])
  {
    var parts := lines + [last];
    if last == [] {
      assert parts[..|parts| - 1] == lines;
    } else {
      assert DropCRs(parts) == DropCRs(lines) + [DropCR(last)];
    }
  }

  lemma SplitTerminated(lines: seq<Bytes>, last: Bytes)
    requires forall k :: 0 <= k < |lines| ==> NEWLINE !in lines[k]
    requires NEWLINE !in last
    ensures Split(Terminated(lines) + last, NEWLINE) == lines + [last]
  {
    var parts := lines + [last];
    assert SeparatorFree(parts, NEWLINE) by {
      forall k | 0 <= k < |parts|
        ensures NEWLINE !in parts[k]
      {
        if k < |lines| {
          assert parts[k] == lines[k];
        }
      }
    }
    TerminatedIsJoin(lines, last);
    SplitJoin(parts, NEWLINE);
  }

  /**
   * Writing lines out, each with its newline, and then possibly an
   * unterminated last line, gives those lines back (less a carriage return
   * at their ends); an empty last piece is no line.
   */
  lemma LinesOfTerminated(lines: seq<Bytes>, last: Bytes)
    requires forall k :: 0 <= k < |lines| ==> NEWLINE !in lines[k]
    requires NEWLINE !in last
    ensures Lines(Terminated(lines) + last) == DropCRs(lines) + (if last == [] then [] else [DropCR(last)])
  {
    SplitTerminated(lines, last);
    LinesFromSplit(Terminated(lines) + last, lines, last);
  }

  /**
   * bufio.Scanner over the input's lines: `cursor` lines have been handed
   * out, and `current` is what Bytes() returns.
   */
  class LineScanner {
    const lines: seq<Bytes>
    var cursor: nat
    var current: Bytes

    ghost predicate Valid()
      reads this
    {
      cursor <= |lines|
    }

    constructor (input: Bytes)
      ensures Valid()
      ensures lines == Lines(input) && cursor == 0 && current == []
    {
      lines := Lines(input);
      cursor := 0;
      current := [];
    }

    /** Advance to the next line; false once every line was handed out. */
    method Scan() returns (ok: bool)
      requires Valid()
      modifies this
      ensures Valid()
      ensures ok == (old(cursor) < |lines|)
      ensures ok ==> cursor == old(cursor) + 1 && current == lines[old(cursor)]
      ensures !ok ==> cursor == old(cursor) && current == []
    {
      if cursor < |lines| {
        current := lines[cursor];
        cursor := cursor + 1;
        ok := true;
      } else {
        current := [];
        ok := false;
      }
    }
  }

  /** What Decode reports besides a record: io.EOF, or Parse's error. */
  datatype DecodeError = EndOfInput | Invalid(error: ParseError)

  /** Parse's result as Decode returns it. */
  function AsDecoded(r: Result<Log, ParseError>): (d: Result<Log, DecodeError>)
    ensures d.Success? <==> r.Success?
    ensures d.Success? ==> d.value == r.value
    ensures d.Failure? ==> d.error == Invalid(r.error)
  {
    match r
    case Success(log) => Success(log)
    case Failure(e) => Failure(Invalid(e))
  }

  class Decoder {
    const s: LineScanner
    /** The line More read ahead and Decode has not parsed yet; nil is None. */
    var token: Option<Bytes>

    ghost predicate Valid()
      reads this, s
    {
      s.Valid()
    }

    /** The lines still to be decoded: the buffered one, then the unread ones. */
    ghost function Pending(): seq<Bytes>
      requires Valid()
      reads this, s
    {
      (if token.Some? then [token.value] else []) + s.lines[s.cursor..]
    }

    constructor NewDecoder(input: Bytes)
      ensures Valid() && fresh(s)
      ensures token == None && Pending() == Lines(input)
    {
      s := new LineScanner(input);
      token := None;
    }

    /**
     * Whether a line is left to decode.  It reads at most one line ahead,
     * keeps it in `token`, and reads nothing while one is buffered, so the
     * pending lines do not change.
     */
    method More() returns (ok: bool)
      requires Valid()
      modifies this, s
      ensures Valid()
      ensures Pending() == old(Pending())
      ensures ok == (Pending() != [])
      ensures ok ==> token.Some?
      ensures old(token).Some? ==> token == old(token) && s.cursor == old(s.cursor)
    {
      if token.Some? {
        return true;
      }
      ok := s.Scan();
      if ok {
        token := Some(s.current);
      }
    }

    /**
     * Parse the next pending line: the buffered one if More read it,
     * otherwise the next line of the input; EndOfInput when none is left.
     * The buffer is empty afterwards, even when Parse fails.
     */
    method Decode(conv: Conversions) returns (r: Result<Log, DecodeError>)
      requires Valid()
      modifies this, s
      ensures Valid() && token.None?
      ensures old(Pending()) == [] ==> r == Failure(EndOfInput) && Pending() == []
      ensures old(Pending()) != [] ==>
        r == AsDecoded(ParseLine(conv, old(Pending())[0])) && Pending() == old(Pending())[1..]
    {
      if token.Some? {
        var parsed := Parse(conv, token.value);
        token := None;
        return AsDecoded(parsed);
      }
      var ok := s.Scan();
      if !ok {
        return Failure(EndOfInput);
      }
      var parsed := Parse(conv, s.current);
      return AsDecoded(parsed);
    }
  }

  /** What decoding each of `lines` in turn gives. */
  function DecodedLines(conv: Conversions, lines: seq<Bytes>): (r: seq<Result<Log, DecodeError>>)
    ensures |r| == |lines|
  {
    if |lines| == 0 then []
    else DecodedLines(conv, lines[..|lines| - 1]) + [AsDecoded(ParseLine(conv, lines[|lines| - 1]))]
  }

  lemma DecodedLinesSnoc(conv: Conversions, lines: seq<Bytes>, n: nat)
    requires n < |lines|
    ensures DecodedLines(conv, lines[..n + 1]) == DecodedLines(conv, lines[..n]) + [AsDecoded(ParseLine(conv, lines[n]))]
  {
    assert lines[..n + 1][..n] == lines[..n];
  }

  lemma {:induction false} DecodedLinesAt(conv: Conversions, lines: seq<Bytes>, k: nat)
    requires k < |lines|
    ensures DecodedLines(conv, lines)[k] == AsDecoded(ParseLine(conv, lines[k]))
  {
    if k < |lines| - 1 {
      DecodedLinesAt(conv, lines[..|lines| - 1], k);
    }
  }

  /** Each decoded line is what the field-table reading of Parse gives. */
  lemma DecodedLinesAreSpec(conv: Conversions, lines: seq<Bytes>)
    ensures forall k :: 0 <= k < |lines| ==> DecodedLines(conv, lines)[k] == AsDecoded(ParseSpec(conv, lines[k]))
  {
    forall k | 0 <= k < |lines|
      ensures DecodedLines(conv, lines)[k] == AsDecoded(ParseSpec(conv, lines[k]))
    {
      DecodedLinesAt(conv, lines, k);
      ParseLineIsSpec(conv, lines[k]);
    }
  }

  /**
   * The loop `for dec.More() { dec.Decode() }` over an input: one result per
   * line, each what Parse makes of that line, in order.
   */
  method DecodeAll(conv: Conversions, input: Bytes) returns (results: seq<Result<Log, DecodeError>>)
    ensures |results| == |Lines(input)|
    ensures forall k :: 0 <= k < |results| ==> results[k] == AsDecoded(ParseSpec(conv, Lines(input)[k]))
  {
    ghost var lines := Lines(input);
    var d := new Decoder.NewDecoder(input);
    results := [];
    while true
      invariant fresh(d) && fresh(d.s) && d.Valid()
      invariant |results| <= |lines| && d.Pending() == lines[|results|..]
      invariant results == DecodedLines(conv, lines[..|results|])
      decreases |d.Pending()|
    {
      var more := d.More();
      if !more {
        break;
      }
      var r := d.Decode(conv);
      DecodedLinesSnoc(conv, lines, |results|);
      results := results + [r];
    }
    assert lines[..|results|] == lines;
    DecodedLinesAreSpec(conv, lines);
  }
}
