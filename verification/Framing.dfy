/** The bounded line reader of the socket server: which requests a byte stream dispatches, whatever the chunks it
    arrives in. */
module Framing {
  import opened Common
  import opened Streams
  import opened Text

  const MAX_REQUEST_LEN: nat := 1048576

  /** How the stream ends: properly, or in an error or an idle timeout. */
  datatype Ending = Eof | Lost

  /** Decodes UTF-8, or refuses. */
  type Decoder = seq<Byte> -> Option<string>

  // ----- the simple splitter

  /** The stream split on newlines; what follows the last one counts only if the stream ended properly. */
  function Lines(s: seq<Byte>, ending: Ending): seq<seq<Byte>> {
    match FindNewline(s)
    case Some(i) => [s[..i]] + Lines(s[i + 1..], ending)
    case None => if s == [] || ending == Lost then [] else [s]
  }

  /** The lines before the first one that is too long. */
  function Short(lines: seq<seq<Byte>>): seq<seq<Byte>> {
    if lines == [] || |lines[0]| > MAX_REQUEST_LEN then [] else [lines[0]] + Short(lines[1..])
  }

  /** A line as a request: trimmed text, empty if the line is not text. */
  function RequestIn(line: seq<Byte>, utf8: Decoder): string {
    match utf8(line)
    case None => ""
    case Some(text) => Trim(text)
  }

  function Requests(lines: seq<seq<Byte>>, utf8: Decoder): seq<string> {
    if lines == [] then []
    else
      var first := RequestIn(lines[0], utf8);
      (if first == "" then [] else [first]) + Requests(lines[1..], utf8)
  }

  function Dispatched(s: seq<Byte>, ending: Ending, utf8: Decoder): seq<string> {
    Requests(Short(Lines(s, ending)), utf8)
  }

  // ----- the code

  datatype Fetched = Bytes | NoMore | Failed

  /** The buffered reader over the connection. */
  class ChunkReader {
    var available: seq<Byte>
    var incoming: seq<seq<Byte>>
    const ending: Ending

    constructor (incoming: seq<seq<Byte>>, ending: Ending)
      ensures this.incoming == incoming && available == [] && this.ending == ending
    {
      this.incoming, available, this.ending := incoming, [], ending;
    }

    function Rest(): seq<Byte>
      reads this
    {
      available + Flat(incoming)
    }

    /** Buffers the next chunk if nothing is buffered. */
    method FillBuf() returns (r: Fetched)
      requires Filled(incoming)
      modifies this
      ensures Filled(incoming) && Rest() == old(Rest())
      ensures r == Bytes <==> available != []
      ensures r != Bytes ==> Rest() == [] && r == if ending == Eof then NoMore else Failed
    {
      if available == [] {
        if incoming == [] {
          return if ending == Eof then NoMore else Failed;
        }
        available, incoming := incoming[0], incoming[1..];
      }
      return Bytes;
    }

    method Consume(n: nat)
      requires n <= |available|
      modifies this`available
      ensures available == old(available)[n..] && Rest() == old(Rest())[n..]
    {
      available := available[n..];
    }
  }

  datatype LineEnd = AtNewline | AtEof | Oversized | Dropped

  /** What one line read yields, of the bytes `s` still to come. */
  function NextLine(s: seq<Byte>, ending: Ending): (LineEnd, seq<Byte>, seq<Byte>) {
    match FindNewline(s)
    case Some(i) => if i > MAX_REQUEST_LEN then (Oversized, [], []) else (AtNewline, s[..i], s[i + 1..])
    case None =>
      if |s| > MAX_REQUEST_LEN then (Oversized, [], [])
      else if ending == Eof then (AtEof, s, []) else (Dropped, [], [])
  }

  /** The chunk that ends a line begun as `line`. */
  lemma LineEnds(line: seq<Byte>, rest: seq<Byte>, i: nat, ending: Ending)
    requires NEWLINE !in line && FindNewline(rest) == Some(i)
    ensures
      NextLine(line + rest, ending) ==
        if |line| + i > MAX_REQUEST_LEN then (Oversized, [], []) else (AtNewline, line + rest[..i], rest[i + 1..])
  {
    Absent(line);
    FindInParts(line, rest);
    assert (line + rest)[..|line| + i] == line + rest[..i] && (line + rest)[|line| + i + 1..] == rest[i + 1..];
  }

  /** Too much without a newline is refused whatever follows. */
  lemma LineTooLong(line: seq<Byte>, rest: seq<Byte>, ending: Ending)
    requires NEWLINE !in line && |line| > MAX_REQUEST_LEN
    ensures NextLine(line + rest, ending) == (Oversized, [], [])
  {
    Absent(line);
    FindInParts(line, rest);
  }

  lemma LineUnfinished(line: seq<Byte>, ending: Ending)
    requires NEWLINE !in line && |line| <= MAX_REQUEST_LEN
    ensures NextLine(line, ending) == if ending == Eof then (AtEof, line, []) else (Dropped, [], [])
  {
    Absent(line);
  }

  /** The line read, and the bytes left, are what `next` says, where it says so. */
  ghost predicate Agrees(next: (LineEnd, seq<Byte>, seq<Byte>), end: LineEnd, line: seq<Byte>, rest: seq<Byte>) {
    end == next.0 && (end in {AtNewline, AtEof} ==> line == next.1 && rest == next.2)
  }

  /** Takes what is buffered of a line begun as `begun`; the line goes on if no end is given. */
  method TakeChunk(reader: ChunkReader, begun: seq<Byte>) returns (end: Option<LineEnd>, line: seq<Byte>)
    requires Filled(reader.incoming) && reader.available != [] && NEWLINE !in begun
    modifies reader`available
    ensures
      match end
      case Some(e) => Agrees(NextLine(begun + old(reader.Rest()), reader.ending), e, line, reader.Rest())
      case None =>
        && NEWLINE !in line && |line| <= MAX_REQUEST_LEN
        && begun + old(reader.Rest()) == line + reader.Rest() && |reader.Rest()| < |old(reader.Rest())|
  {
    ghost var rest := reader.Rest();
    FindInParts(reader.available, Flat(reader.incoming));
    match FindNewline(reader.available) {
      case Some(i) =>
        LineEnds(begun, rest, i, reader.ending);
        assert reader.available[..i] == rest[..i];
        if |begun| + i > MAX_REQUEST_LEN {
          return Some(Oversized), begun;
        }
        line := begun + reader.available[..i];
        reader.Consume(i + 1);
        return Some(AtNewline), line;
      case None =>
        line := begun + reader.available;
        reader.Consume(|reader.available|);
        assert begun + rest == line + reader.Rest();
        if |line| > MAX_REQUEST_LEN {
          LineTooLong(line, reader.Rest(), reader.ending);
          return Some(Oversized), line;
        }
        return None, line;
    }
  }

  method ReadLine(reader: ChunkReader) returns (end: LineEnd, line: seq<Byte>)
    requires Filled(reader.incoming)
    modifies reader
    ensures Filled(reader.incoming)
    ensures Agrees(NextLine(old(reader.Rest()), reader.ending), end, line, reader.Rest())
  {
    ghost var s := reader.Rest();
    line := [];
    while true
      invariant Filled(reader.incoming) && NEWLINE !in line && |line| <= MAX_REQUEST_LEN
      invariant s == line + reader.Rest()
      decreases |reader.Rest()|
    {
      var fetched := reader.FillBuf();
      if fetched != Bytes {
        assert s == line;
        LineUnfinished(line, reader.ending);
        return if fetched == NoMore then AtEof else Dropped, line;
      }
      var done;
      done, line := TakeChunk(reader, line);
      if done.Some? {
        return done.value, line;
      }
    }
  }

  /** The request a line gives, if any. */
  function RequestOf(line: seq<Byte>, utf8: Decoder): seq<string> {
    if RequestIn(line, utf8) == "" then [] else [RequestIn(line, utf8)]
  }

  lemma RequestsOfOne(line: seq<Byte>, utf8: Decoder)
    requires |line| <= MAX_REQUEST_LEN
    ensures Requests(Short([line]), utf8) == RequestOf(line, utf8)
  {
    var one := [line];
    assert one[1..] == [];
    assert Short(one) == one;
    assert Requests(one[1..], utf8) == [];
  }

  /** Reading a line leaves exactly the requests of the rest still to be dispatched. */
  lemma OneLineFurther(
    s: seq<Byte>, ending: Ending, utf8: Decoder, end: LineEnd, line: seq<Byte>, rest: seq<Byte>)
    requires Agrees(NextLine(s, ending), end, line, rest)
    ensures (end == AtNewline || end == AtEof) ==> |line| <= MAX_REQUEST_LEN
    ensures end == AtNewline ==> |rest| < |s|
    ensures
      Dispatched(s, ending, utf8) ==
        match end
        case AtNewline => RequestOf(line, utf8) + Dispatched(rest, ending, utf8)
        case AtEof => if line == [] then [] else RequestOf(line, utf8)
        case _ => []
  {
    var lines := Lines(s, ending);
    if FindNewline(s).Some? {
      var short := Short(lines);
      assert short != [] ==> short[1..] == Short(lines[1..]);
    } else if lines != [] && |s| <= MAX_REQUEST_LEN {
      RequestsOfOne(s, utf8);
    }
  }

  /** One pass of the server loop: what it dispatches, and whether the connection is done with. */
  method ServeLine(reader: ChunkReader, utf8: Decoder) returns (done: bool, request: seq<string>)
    requires Filled(reader.incoming)
    modifies reader
    ensures Filled(reader.incoming)
    ensures Dispatched(old(reader.Rest()), reader.ending, utf8) ==
              request + if done then [] else Dispatched(reader.Rest(), reader.ending, utf8)
    ensures !done ==> |reader.Rest()| < |old(reader.Rest())|
  {
    ghost var s := reader.Rest();
    var end, line := ReadLine(reader);
    OneLineFurther(s, reader.ending, utf8, end, line, reader.Rest());
    if end == Oversized || end == Dropped || (end == AtEof && line == []) {
      return true, [];
    }
    if |line| > MAX_REQUEST_LEN {
      assert false; // the line reader has refused such a line already
    }
    return end == AtEof, RequestOf(line, utf8);
  }

  /** Serves one client; the result is what was dispatched, in order. */
  method HandleClient(reader: ChunkReader, utf8: Decoder) returns (requests: seq<string>)
    requires Filled(reader.incoming)
    modifies reader
    ensures requests == Dispatched(old(reader.Rest()), reader.ending, utf8)
  {
    requests := [];
    var done := false;
    while !done
      invariant Filled(reader.incoming)
      invariant Dispatched(old(reader.Rest()), reader.ending, utf8) ==
                  requests + if done then [] else Dispatched(reader.Rest(), reader.ending, utf8)
      decreases !done, |reader.Rest()|
    {
      var request;
      done, request := ServeLine(reader, utf8);
      requests := requests + request;
    }
  }

  // ----- what the splitter is for

  function Joined(lines: seq<seq<Byte>>): seq<Byte> {
    if lines == [] then [] else lines[0] + [NEWLINE] + Joined(lines[1..])
  }

  lemma FirstLineOf(line: seq<Byte>, more: seq<Byte>, ending: Ending)
    requires NEWLINE !in line
    ensures Lines(line + [NEWLINE] + more, ending) == [line] + Lines(more, ending)
  {
    var nl: seq<Byte> := [NEWLINE];
    Absent(line);
    FindInParts(line, nl);
    FindInParts(line + nl, more);
    assert (line + nl + more)[..|line|] == line && (line + nl + more)[|line| + 1..] == more;
  }

  function LastLine(last: seq<Byte>, ending: Ending): seq<seq<Byte>> {
    if last == [] || ending == Lost then [] else [last]
  }

  lemma FirstOfJoined(lines: seq<seq<Byte>>, last: seq<Byte>, ending: Ending)
    requires lines != [] && NEWLINE !in lines[0]
    ensures Lines(Joined(lines) + last, ending) == [lines[0]] + Lines(Joined(lines[1..]) + last, ending)
  {
    var more := Joined(lines[1..]) + last;
    assert Joined(lines) + last == lines[0] + [NEWLINE] + more;
    FirstLineOf(lines[0], more, ending);
  }

  /** Lines sent with a newline each, and perhaps an unterminated one, are split as they were sent. */
  lemma {:induction false} LinesOfJoined(lines: seq<seq<Byte>>, last: seq<Byte>, ending: Ending)
    requires NEWLINE !in last && forall i | 0 <= i < |lines| :: NEWLINE !in lines[i]
    ensures Lines(Joined(lines) + last, ending) == lines + LastLine(last, ending)
  {
    if lines == [] {
      assert Joined(lines) + last == last;
      Absent(last);
    } else {
      LinesOfJoined(lines[1..], last, ending);
      FirstOfJoined(lines, last, ending);
    }
  }

  /** An overlong line stops the dispatch of everything from it on, and of nothing before it. */
  lemma {:induction false} NothingAfterAnOverlongLine(lines: seq<seq<Byte>>, k: nat, utf8: Decoder)
    requires k < |lines| && |lines[k]| > MAX_REQUEST_LEN
    requires forall i | 0 <= i < k :: |lines[i]| <= MAX_REQUEST_LEN
    ensures Requests(Short(lines), utf8) == Requests(lines[..k], utf8)
  {
    if k > 0 {
      NothingAfterAnOverlongLine(lines[1..], k - 1, utf8);
      assert lines[..k] == [lines[0]] + lines[1..][..k - 1];
      assert Short(lines)[1..] == Short(lines[1..]);
    }
  }

  /** What precedes the first line of more than a mebibyte counts, and nothing else. */
  lemma {:induction false} ShortIsCutThere(lines: seq<seq<Byte>>) returns (k: nat)
    ensures k <= |lines| && Short(lines) == lines[..k]
    ensures forall i | 0 <= i < k :: |lines[i]| <= 1048576
    ensures k < |lines| ==> |lines[k]| > 1048576
  {
    k := 0;
    if lines != [] && |lines[0]| <= MAX_REQUEST_LEN {
      var n := ShortIsCutThere(lines[1..]);
      k := n + 1;
      assert lines[..k] == [lines[0]] + lines[1..][..n];
    }
  }

  /** The line is text, and not blank. */
  predicate Speaks(line: seq<Byte>, utf8: Decoder) {
    utf8(line).Some? && Trim(utf8(line).value) != ""
  }

  /** The lines that speak, in order, and what they say. */
  ghost predicate SpokenAt(lines: seq<seq<Byte>>, requests: seq<string>, at: seq<nat>, utf8: Decoder) {
    && |at| == |requests| && (forall i, j | 0 <= i < j < |at| :: at[i] < at[j])
    && (forall i | 0 <= i < |at| ::
          at[i] < |lines| && Speaks(lines[at[i]], utf8) && requests[i] == Trim(utf8(lines[at[i]]).value))
    && forall j | 0 <= j < |lines| :: j in at <==> Speaks(lines[j], utf8)
  }

  ghost predicate TextsOf(requests: seq<string>, lines: seq<seq<Byte>>, utf8: Decoder) {
    && |requests| == |lines|
    && forall i | 0 <= i < |lines| :: Speaks(lines[i], utf8) && requests[i] == Trim(utf8(lines[i]).value)
  }

  lemma TextsWithFirst(line: seq<Byte>, requests: seq<string>, lines: seq<seq<Byte>>, utf8: Decoder)
    requires Speaks(line, utf8) && TextsOf(requests, lines, utf8)
    ensures TextsOf([Trim(utf8(line).value)] + requests, [line] + lines, utf8)
  {
  }

  lemma {:induction false} RequestsAreTexts(lines: seq<seq<Byte>>, utf8: Decoder, speaks: seq<Byte> -> bool)
    requires forall line :: speaks(line) == Speaks(line, utf8)
    ensures TextsOf(Requests(lines, utf8), Filter(lines, speaks), utf8)
  {
    if lines != [] {
      RequestsAreTexts(lines[1..], utf8, speaks);
      if speaks(lines[0]) {
        TextsWithFirst(lines[0], Requests(lines[1..], utf8), Filter(lines[1..], speaks), utf8);
      }
    }
  }

  /** The requests are, in order, the trimmed texts of the lines that hold some. */
  lemma RequestsAreSpoken(lines: seq<seq<Byte>>, utf8: Decoder) returns (at: seq<nat>)
    ensures SpokenAt(lines, Requests(lines, utf8), at, utf8)
  {
    var speaks := line => Speaks(line, utf8);
    at := FilterKeepsOrder(lines, speaks);
    RequestsAreTexts(lines, utf8, speaks);
    assert forall j | 0 <= j < |lines| :: j in at <==> speaks(lines[j]);
  }
}
