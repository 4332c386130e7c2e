/** The HTTP CONNECT front end of the proxy (RFC 9110 section 9.3.6): a header, read in pieces, then payload. */
module HttpConnect {
  import opened Common
  import opened Streams
  import opened Text

  datatype Verdict =
    | TooLarge
    | ClosedEarly
    | BadLine
    | BadPort
    | Connect(host: string, port: nat, payload: seq<Byte>)

  const METHOD := "CONNECT"
  const LIMIT: nat := 65536
  const DEFAULT_PORT: nat := 80
  const PORTS: nat := 0x1_0000
  const CR: Byte := 13
  const LF: Byte := 10

  predicate EndsHeader(b: seq<Byte>, at: nat) {
    at + 4 <= |b| && b[at] == CR && b[at + 1] == LF && b[at + 2] == CR && b[at + 3] == LF
  }

  /** Where the first blank line begins, at `from` or later. */
  function Terminator(b: seq<Byte>, from: nat): (r: Option<nat>)
    ensures r.Some? ==> from <= r.value && EndsHeader(b, r.value) && forall i | from <= i < r.value :: !EndsHeader(b, i)
    ensures r.None? ==> forall i | i >= from :: !EndsHeader(b, i)
    decreases |b| - from
  {
    if from + 4 > |b| then None else if EndsHeader(b, from) then Some(from) else Terminator(b, from + 1)
  }

  function FirstLine(b: seq<Byte>): seq<Byte> {
    if b == [] || b[0] == CR then [] else [b[0]] + FirstLine(b[1..])
  }

  /** The target of a request line; `lossy` decodes bytes as UTF-8, replacing what is malformed. */
  function Target(line: seq<Byte>, lossy: seq<Byte> -> string): Option<string> {
    var words := Words(lossy(line));
    if |words| < 2 || words[0] != METHOD then None else Some(words[1])
  }

  function LastColon(s: string): (r: Option<nat>)
    ensures r.Some? ==> r.value < |s| && s[r.value] == ':' && forall i | r.value < i < |s| :: s[i] != ':'
    ensures r.None? ==> ':' !in s
  {
    if s == "" then None
    else if s[|s| - 1] == ':' then Some(|s| - 1)
    else LastColon(s[..|s| - 1])
  }

  /** What a request line asks for, the payload aside. */
  function Requested(line: seq<Byte>, lossy: seq<Byte> -> string): Verdict {
    match Target(line, lossy)
    case None => BadLine
    case Some(target) =>
      match LastColon(target)
      case None => Connect(target, DEFAULT_PORT, [])
      case Some(colon) =>
        match ParseBelow(target[colon + 1..], PORTS)
        case None => BadPort
        case Some(port) => Connect(target[..colon], port, [])
  }

  /** The verdict on a header whose blank line begins at `at`. */
  function Judge(all: seq<Byte>, at: nat, lossy: seq<Byte> -> string): Verdict
    requires EndsHeader(all, at)
  {
    var r := Requested(FirstLine(all), lossy);
    if r.Connect? then r.(payload := all[at + 4..]) else r
  }

  /** Some read, the first one included, ended past the limit but inside the header. */
  ghost predicate StopsInside(initial: seq<Byte>, pieces: seq<seq<Byte>>, headerEnd: nat) {
    exists j :: 0 <= j <= |pieces| && LIMIT < |initial| + |Flat(pieces[..j])| < headerEnd
  }

  /** What the front end makes of a stream whose first read is `initial`. */
  ghost function Outcome(initial: seq<Byte>, pieces: seq<seq<Byte>>, lossy: seq<Byte> -> string): Verdict {
    var all := initial + Flat(pieces);
    match Terminator(all, 0)
    case None => if |all| > LIMIT then TooLarge else ClosedEarly
    case Some(at) => if StopsInside(initial, pieces, at + 4) then TooLarge else Judge(all, at, lossy)
  }

  ghost predicate Meets(verdict: Verdict, asked: Verdict, toCome: seq<seq<Byte>>) {
    if asked.Connect? then
      && verdict.Connect? && verdict.host == asked.host && verdict.port == asked.port
      && verdict.payload + Flat(toCome) == asked.payload
    else verdict == asked
  }

  // ----- the code

  lemma TerminatorStays(b: seq<Byte>, more: seq<Byte>)
    requires Terminator(b, 0).Some?
    ensures Terminator(b + more, 0) == Terminator(b, 0)
  {
    var at := Terminator(b, 0).value;
    assert EndsHeader(b + more, at);
    forall i: nat | i < at ensures !EndsHeader(b + more, i) {
      assert !EndsHeader(b, i);
    }
  }

  lemma {:induction false} FirstLineStays(b: seq<Byte>, more: seq<Byte>)
    requires CR in b
    ensures FirstLine(b + more) == FirstLine(b)
  {
    if b[0] != CR {
      assert (b + more)[1..] == b[1..] + more;
      FirstLineStays(b[1..], more);
    }
  }

  lemma JudgeStays(b: seq<Byte>, toCome: seq<seq<Byte>>, at: nat, lossy: seq<Byte> -> string)
    requires EndsHeader(b, at)
    ensures Meets(Judge(b, at, lossy), Judge(b + Flat(toCome), at, lossy), toCome)
  {
    var more := Flat(toCome);
    FirstLineStays(b, more);
    assert (b + more)[at + 4..] == b[at + 4..] + more;
  }

  lemma Grows(pieces: seq<seq<Byte>>, j: nat, k: nat)
    requires j <= k <= |pieces|
    ensures |Flat(pieces[..j])| <= |Flat(pieces[..k])|
  {
    FlatSplit(pieces[..k], j);
    assert pieces[..k][..j] == pieces[..j];
  }

  lemma NotStopped(initial: seq<Byte>, pieces: seq<seq<Byte>>, k: nat, headerEnd: nat)
    requires k <= |pieces| && headerEnd <= |initial| + |Flat(pieces[..k])|
    requires forall j | 0 <= j < k :: |initial| + |Flat(pieces[..j])| <= LIMIT
    ensures !StopsInside(initial, pieces, headerEnd)
  {
    forall j | k <= j <= |pieces| ensures |Flat(pieces[..k])| <= |Flat(pieces[..j])| {
      Grows(pieces, k, j);
    }
  }

  /** A blank line that some reads brought, none before having passed the limit, decides the outcome. */
  lemma HeaderDecides(
    initial: seq<Byte>, pieces: seq<seq<Byte>>, k: nat, buf: seq<Byte>, at: nat, lossy: seq<Byte> -> string)
    requires k <= |pieces| && buf == initial + Flat(pieces[..k]) && Terminator(buf, 0) == Some(at)
    requires forall j | 0 <= j < k :: |initial| + |Flat(pieces[..j])| <= LIMIT
    ensures EndsHeader(buf + Flat(pieces[k..]), at)
    ensures Outcome(initial, pieces, lossy) == Judge(buf + Flat(pieces[k..]), at, lossy)
  {
    FlatSplit(pieces, k);
    assert initial + Flat(pieces) == buf + Flat(pieces[k..]);
    TerminatorStays(buf, Flat(pieces[k..]));
    NotStopped(initial, pieces, k, at + 4);
  }

  /** The outcome once `k` further reads brought the blank line, no earlier read having passed the limit. */
  lemma HeaderArrived(
    initial: seq<Byte>, pieces: seq<seq<Byte>>, k: nat, buf: seq<Byte>, lossy: seq<Byte> -> string)
    requires k <= |pieces| && buf == initial + Flat(pieces[..k]) && Terminator(buf, 0).Some?
    requires forall j | 0 <= j < k :: |initial| + |Flat(pieces[..j])| <= LIMIT
    ensures Meets(Judge(buf, Terminator(buf, 0).value, lossy), Outcome(initial, pieces, lossy), pieces[k..])
  {
    var at := Terminator(buf, 0).value;
    HeaderDecides(initial, pieces, k, buf, at, lossy);
    JudgeStays(buf, pieces[k..], at, lossy);
  }

  /** The outcome once `k` further reads passed the limit without the blank line. */
  lemma LimitPassed(initial: seq<Byte>, pieces: seq<seq<Byte>>, k: nat, lossy: seq<Byte> -> string)
    requires k <= |pieces| && Terminator(initial + Flat(pieces[..k]), 0).None?
    requires |initial| + |Flat(pieces[..k])| > LIMIT
    ensures Outcome(initial, pieces, lossy) == TooLarge
  {
    var all := initial + Flat(pieces);
    var buf := initial + Flat(pieces[..k]);
    FlatSplit(pieces, k);
    if Terminator(all, 0).Some? {
      var at := Terminator(all, 0).value;
      assert !EndsHeader(buf, at);
      assert forall i | 0 <= i < |buf| :: all[i] == buf[i];
      assert |buf| < at + 4;
      assert StopsInside(initial, pieces, at + 4);
    }
  }

  method HandleConnect(conn: Connection, initial: seq<Byte>, lossy: seq<Byte> -> string) returns (verdict: Verdict)
    requires Filled(conn.incoming)
    modifies conn`incoming
    ensures Meets(verdict, Outcome(initial, old(conn.incoming), lossy), conn.incoming)
    ensures Filled(conn.incoming)
  {
    ghost var pieces, k := conn.incoming, 0;
    var buf := initial;
    while Terminator(buf, 0).None?
      invariant k <= |pieces| && Filled(conn.incoming) && conn.incoming == pieces[k..]
      invariant buf == initial + Flat(pieces[..k])
      invariant forall j | 0 <= j < k :: |initial| + |Flat(pieces[..j])| <= LIMIT
      decreases |conn.incoming|
    {
      if |buf| > LIMIT {
        LimitPassed(initial, pieces, k, lossy);
        return TooLarge;
      }
      var more := conn.Read();
      if more == [] {
        assert pieces[..k] == pieces;
        return ClosedEarly;
      }
      FlatSplit(pieces, k);
      buf, k := buf + more, k + 1;
    }
    HeaderArrived(initial, pieces, k, buf, lossy);
    verdict := Judge(buf, Terminator(buf, 0).value, lossy);
  }

  // ----- what the outcome depends on

  /** What the bytes of a stream ask for, however they are divided, if they hold a whole header. */
  function Intended(all: seq<Byte>, lossy: seq<Byte> -> string): Option<Verdict> {
    match Terminator(all, 0)
    case None => None
    case Some(at) => Some(Judge(all, at, lossy))
  }

  /** Some read stops past the limit inside the header. */
  ghost predicate Oversteps(initial: seq<Byte>, pieces: seq<seq<Byte>>) {
    var at := Terminator(initial + Flat(pieces), 0);
    at.Some? && StopsInside(initial, pieces, at.value + 4)
  }

  /** A stream that holds a whole header is judged by its bytes alone exactly if no read stops past the limit inside
      that header. So two divisions of a stream come to the same outcome if and only if it holds no whole header, or
      both have such a read, or neither has. */
  lemma ChunkingMatters(
    initial: seq<Byte>, pieces: seq<seq<Byte>>, other: seq<Byte>, others: seq<seq<Byte>>, lossy: seq<Byte> -> string)
    requires initial + Flat(pieces) == other + Flat(others)
    ensures
      var wanted := Intended(initial + Flat(pieces), lossy);
      && (wanted.Some? ==> (Outcome(initial, pieces, lossy) == wanted.value <==> !Oversteps(initial, pieces)))
      && (Outcome(initial, pieces, lossy) == Outcome(other, others, lossy) <==>
            wanted.None? || (Oversteps(initial, pieces) <==> Oversteps(other, others)))
  {
    assert forall v | Intended(initial + Flat(pieces), lossy) == Some(v) :: !v.TooLarge?;
  }

  /** A request line naming a host and a port is read back as sent, the host being all before the last colon; a port
      of more than 16 bits is refused. */
  lemma TargetIsUnderstood(
    line: seq<Byte>, lossy: seq<Byte> -> string, host: string, port: nat, rest: string, fields: seq<Byte>, at: nat)
    requires IsWord(host)
    requires CR !in line && lossy(line) == METHOD + (" " + (HostAndPort(host, port) + (" " + rest)))
    requires fields != [] && fields[0] == CR && EndsHeader(line + fields, at)
    ensures Judge(line + fields, at, lossy) ==
              if port < 65536 then Connect(host, port, (line + fields)[at + 4..]) else BadPort
  {
    FirstLineIs(line, fields);
    SplitAtColon(host, port);
    TwoWords(METHOD, HostAndPort(host, port), rest);
  }

  /** Without a colon the whole target is the host, and the port is the default one. */
  lemma TargetWithoutPort(
    line: seq<Byte>, lossy: seq<Byte> -> string, host: string, rest: string, fields: seq<Byte>, at: nat)
    requires IsWord(host) && ':' !in host
    requires CR !in line && lossy(line) == METHOD + (" " + (host + (" " + rest)))
    requires fields != [] && fields[0] == CR && EndsHeader(line + fields, at)
    ensures Judge(line + fields, at, lossy) == Connect(host, 80, (line + fields)[at + 4..])
  {
    FirstLineIs(line, fields);
    TwoWords(METHOD, host, rest);
  }

  /** Which request lines are understood, and how: two words at least, the first of them the method; the second split at
      its last colon into a host and a 16-bit port, or without a colon the host, for port 80. */
  lemma RequestedExactly(line: seq<Byte>, lossy: seq<Byte> -> string)
    ensures
      var words := Words(lossy(line));
      if |words| < 2 || words[0] != "CONNECT" then Requested(line, lossy) == BadLine
      else if ':' !in words[1] then Requested(line, lossy) == Connect(words[1], 80, [])
      else exists k :: IsLastColon(words[1], k) &&
             Requested(line, lossy) == match ParseBelow(words[1][k + 1..], 65536)
                                       case None => BadPort
                                       case Some(port) => Connect(words[1][..k], port, [])
  {
    var words := Words(lossy(line));
    if |words| >= 2 && LastColon(words[1]).Some? {
      assert IsLastColon(words[1], LastColon(words[1]).value);
    }
  }

  predicate IsLastColon(s: string, k: int) {
    0 <= k < |s| && s[k] == ':' && ':' !in s[k + 1..]
  }

  function HostAndPort(host: string, port: nat): string {
    host + [':'] + Decimal(port)
  }

  lemma SplitAtColon(host: string, port: nat)
    requires IsWord(host)
    ensures
      var target := HostAndPort(host, port);
      && IsWord(target) && LastColon(target) == Some(|host|)
      && target[..|host|] == host
      && ParseBelow(target[|host| + 1..], PORTS) == if port < PORTS then Some(port) else None
  {
    var target := HostAndPort(host, port);
    DecimalIsWord(port);
    assert target[..|host|] == host && target[|host|] == ':' && target[|host| + 1..] == Decimal(port);
    assert forall i | |host| < i < |target| :: target[i] in Decimal(port);
    ParseDecimal(port, PORTS);
  }

  lemma {:induction false} FirstLineIs(line: seq<Byte>, fields: seq<Byte>)
    requires CR !in line && fields != [] && fields[0] == CR
    ensures FirstLine(line + fields) == line
  {
    if line == [] {
      assert line + fields == fields;
    } else {
      assert line[0] in line;
      assert (line + fields)[1..] == line[1..] + fields;
      FirstLineIs(line[1..], fields);
    }
  }

  lemma DecimalIsWord(n: nat)
    ensures IsWord(Decimal(n)) && ':' !in Decimal(n)
  {
  }

  lemma TwoWords(first: string, second: string, rest: string)
    requires IsWord(first) && IsWord(second)
    ensures
      var words := Words(first + (" " + (second + (" " + rest))));
      |words| >= 2 && words[0] == first && words[1] == second
  {
    var tail := second + (" " + rest);
    WordsStep(first, " " + tail);
    SkipOne(' ', tail);
    WordsStep(second, " " + rest);
  }
}
