/** One proxy connection from its first byte to the end of the relay, whichever front end it speaks. */
module Proxy {
  import opened Common
  import opened Streams
  import opened Text
  import opened Relay
  import HttpConnect
  import Socks

  const ESTABLISHED: seq<Byte> := [
    72, 84, 84, 80, 47, 49, 46, 49, 32, 50, 48, 48, 32,
    67, 111, 110, 110, 101, 99, 116, 105, 111, 110, 32,
    69, 115, 116, 97, 98, 108, 105, 115, 104, 101, 100, 13, 10, 13, 10]
  const CONNECT: seq<Byte> := [67, 79, 78, 78, 69, 67, 84, 32]

  /** Library renderings: of bytes as text, malformed parts replaced, and of the sixteen bytes of an IPv6 address. */
  datatype Rendering = Rendering(lossy: seq<Byte> -> string, v6: seq<Byte> -> string)

  /** Whether the calls before the relay succeed: opening and subscribing to the remote stream, announcing success to
      the client, and writing the payload that came along with the request. */
  datatype Answers = Answers(opens: bool, subscribes: bool, announces: bool, writes: bool)

  /** What a client asks for: where to connect, and the payload to send there. */
  datatype Asked = Asked(to: Address, payload: seq<Byte>)

  /** What reached the remote side: the stream was opened to the address asked for, if it could be, and took a prefix of
      the payload asked for, all of it if the relay saw the client finish. Nothing happens there for a request that is
      not understood. */
  ghost predicate Honours(remote: RemoteStream, end: Option<End>, asked: Option<Asked>, opens: bool)
    reads remote
  {
    if asked.Some? then
      && remote.target == (if opens then Some(asked.value.to) else None)
      && remote.accepted <= asked.value.payload
      && (end == Some(LocalEof) ==> remote.accepted == asked.value.payload)
      && (end.Some? ==> opens)
    else remote.target == None && end == None && remote.accepted == []
  }

  /** Relays to a remote side that has taken the early payload. */
  method RelayAfter(conn: Connection, remote: RemoteStream, ghost early: seq<Byte>, turns: seq<Turn>)
    returns (how: End)
    requires remote.accepted == early && Filled(conn.incoming)
    modifies conn, remote`accepted, remote`closed
    ensures remote.accepted <= early + Flat(old(conn.incoming))
    ensures how == LocalEof ==> remote.accepted == early + Flat(old(conn.incoming))
    ensures conn.replies == old(conn.replies) + Run(|old(conn.incoming)|, turns, START).delivered
  {
    ghost var pieces := conn.incoming;
    how := RelayStreams(conn, remote, turns);
    RelayedPrefix(pieces, turns);
  }

  /** Passes on the payload that came along with the request, and then relays. */
  method Pass(conn: Connection, remote: RemoteStream, early: seq<Byte>, writes: bool, turns: seq<Turn>)
    returns (end: Option<End>)
    requires remote.accepted == [] && Filled(conn.incoming)
    modifies conn, remote`accepted, remote`closed
    ensures end.None? ==> remote.accepted == [] && conn.replies == old(conn.replies)
    ensures end.Some? ==>
              && remote.accepted <= early + Flat(old(conn.incoming))
              && (end.value == LocalEof ==> remote.accepted == early + Flat(old(conn.incoming)))
              && conn.replies == old(conn.replies) + Run(|old(conn.incoming)|, turns, START).delivered
  {
    if early != [] {
      if !writes {
        return None;
      }
      remote.Write(early);
    }
    var how := RelayAfter(conn, remote, early, turns);
    end := Some(how);
  }

  /** Tells the client that the remote stream is there, and passes on what comes from it. */
  method Announce(
    conn: Connection, remote: RemoteStream, early: seq<Byte>, success: seq<Byte>, a: Answers, turns: seq<Turn>)
    returns (end: Option<End>)
    requires remote.accepted == [] && Filled(conn.incoming)
    modifies conn, remote`accepted, remote`closed
    ensures remote.accepted <= early + Flat(old(conn.incoming))
    ensures end == Some(LocalEof) ==> remote.accepted == early + Flat(old(conn.incoming))
    ensures conn.replies == old(conn.replies) +
              if end.Some? then success + Run(|old(conn.incoming)|, turns, START).delivered
              else if a.subscribes && a.announces then success else []
    ensures end.Some? ==> a.subscribes && a.announces
  {
    if !a.subscribes || !a.announces {
      return None;
    }
    conn.Reply(success);
    end := Pass(conn, remote, early, a.writes, turns);
  }

  /** The remote stream is there, and the client has been told. */
  predicate Goes(a: Answers) {
    a.opens && a.subscribes && a.announces
  }

  /** After the request: `early` is the payload that came along with it. The result is how the relay
      ended, if it began. */
  method Forward(
    conn: Connection, remote: RemoteStream, to: Address, early: seq<Byte>, success: seq<Byte>, a: Answers,
    turns: seq<Turn>)
    returns (end: Option<End>)
    requires remote.target == None && remote.accepted == [] && Filled(conn.incoming)
    modifies conn, remote
    ensures Honours(remote, end, Some(Asked(to, early + Flat(old(conn.incoming)))), a.opens)
    ensures conn.replies == old(conn.replies) +
              if end.Some? then success + Run(|old(conn.incoming)|, turns, START).delivered
              else if Goes(a) then success else []
    ensures end.Some? ==> Goes(a)
  {
    if !a.opens {
      return None;
    }
    remote.Open(to);
    end := Announce(conn, remote, early, success, a, turns);
  }

  lemma RelayedPrefix(pieces: seq<seq<Byte>>, turns: seq<Turn>)
    ensures
      var done := Run(|pieces|, turns, START);
      && done.accepted <= |pieces| && Flat(pieces[..done.accepted]) <= Flat(pieces)
      && (done.end == LocalEof ==> Flat(pieces[..done.accepted]) == Flat(pieces))
  {
    ForwardsAPrefix(|pieces|, turns, START);
    var done := Run(|pieces|, turns, START);
    FlatSplit(pieces, done.accepted);
    assert done.accepted == |pieces| ==> pieces[..done.accepted] == pieces;
  }

  /** The host as the remote side is told it. */
  function HostText(h: Socks.Host, text: Rendering): string {
    match h
    case V4(o) =>
      if |o| != 4 then ""
      else Decimal(o[0] as int) + "." + Decimal(o[1] as int) + "." + Decimal(o[2] as int) + "." + Decimal(o[3] as int)
    case Domain(name) => text.lossy(name)
    case V6(o) => text.v6(o)
  }

  /** `host` names what the client asked for: an IPv4 address as four decimal numbers, its octets in order, between
      dots; a domain as it was decoded; an IPv6 address as it was rendered. */
  ghost predicate Names(host: string, h: Socks.Host, text: Rendering) {
    match h
    case V4(o) =>
      && |o| == 4 && |Parts(host, '.')| == 4
      && forall i | 0 <= i < 4 :: IsNumber(Parts(host, '.')[i], o[i])
    case Domain(name) => host == text.lossy(name)
    case V6(o) => host == text.v6(o)
  }

  lemma DotsAssociate(a: string, b: string, c: string, d: string)
    ensures a + "." + b + "." + c + "." + d == a + (['.'] + (b + (['.'] + (c + (['.'] + d)))))
  {
  }

  lemma TwoParts(a: string, b: string)
    requires '.' !in a && '.' !in b
    ensures Parts(a + (['.'] + b), '.') == [a, b]
  {
    LastPart(b, '.');
    FirstPart(a, '.', b);
  }

  lemma DottedParts(a: string, b: string, c: string, d: string)
    requires '.' !in a && '.' !in b && '.' !in c && '.' !in d
    ensures Parts(a + "." + b + "." + c + "." + d, '.') == [a, b, c, d]
  {
    var last, three := c + (['.'] + d), b + (['.'] + (c + (['.'] + d)));
    DotsAssociate(a, b, c, d);
    TwoParts(c, d);
    FirstPart(b, '.', last);
    FirstPart(a, '.', three);
  }

  lemma DecimalIsNumber(n: nat)
    ensures IsNumber(Decimal(n), n) && '.' !in Decimal(n)
  {
    ValueOfDecimal(n);
  }

  lemma HostTextNames(h: Socks.Host, text: Rendering)
    requires Socks.Sendable(h)
    ensures Names(HostText(h, text), h, text)
  {
    if h.V4? {
      var o := h.octets;
      DecimalIsNumber(o[0]);
      DecimalIsNumber(o[1]);
      DecimalIsNumber(o[2]);
      DecimalIsNumber(o[3]);
      DottedParts(Decimal(o[0]), Decimal(o[1]), Decimal(o[2]), Decimal(o[3]));
    }
  }

  function AskedBySocks(v: Socks.Verdict, text: Rendering): Option<Asked> {
    if v.Connect? then Some(Asked(Address(HostText(v.host, text), v.port), v.payload)) else None
  }

  function AskedByHttp(v: HttpConnect.Verdict): Option<Asked> {
    if v.Connect? then Some(Asked(Address(v.host, v.port), v.payload)) else None
  }

  method ServeSocks5(
    conn: Connection, remote: RemoteStream, initial: seq<Byte>, text: Rendering, a: Answers, turns: seq<Turn>)
    returns (end: Option<End>)
    requires remote.target == None && remote.accepted == [] && Filled(conn.incoming)
    modifies conn, remote
    ensures Honours(remote, end, AskedBySocks(Socks.Outcome(initial, old(conn.incoming)), text), a.opens)
    ensures
      var outcome := Socks.Outcome(initial, old(conn.incoming));
      var told := old(conn.replies) + Socks.RepliesTo(outcome, initial + Flat(old(conn.incoming)));
      if end.Some? then told + Socks.SUCCEEDED <= conn.replies
      else conn.replies == told + if outcome.Connect? && Goes(a) then Socks.SUCCEEDED else []
  {
    var verdict := Socks.HandleSocks5(conn, initial);
    match verdict
    case Connect(host, port, early) =>
      end := Forward(conn, remote, Address(HostText(host, text), port), early, Socks.SUCCEEDED, a, turns);
    case _ => end := None;
  }

  method ServeConnect(
    conn: Connection, remote: RemoteStream, initial: seq<Byte>, text: Rendering, a: Answers, turns: seq<Turn>)
    returns (end: Option<End>)
    requires remote.target == None && remote.accepted == [] && Filled(conn.incoming)
    modifies conn, remote
    ensures Honours(remote, end, AskedByHttp(HttpConnect.Outcome(initial, old(conn.incoming), text.lossy)), a.opens)
    ensures
      var outcome := HttpConnect.Outcome(initial, old(conn.incoming), text.lossy);
      if end.Some? then old(conn.replies) + ESTABLISHED <= conn.replies
      else conn.replies == old(conn.replies) + if outcome.Connect? && Goes(a) then ESTABLISHED else []
  {
    var verdict := HttpConnect.HandleConnect(conn, initial, text.lossy);
    match verdict
    case Connect(host, port, early) =>
      end := Forward(conn, remote, Address(host, port), early, ESTABLISHED, a, turns);
    case _ => end := None;
  }

  /** What a stream asks for, the front end being told by its first read. */
  ghost function AskedBy(pieces: seq<seq<Byte>>, text: Rendering): Option<Asked> {
    if pieces == [] || pieces[0] == [] then None
    else if pieces[0][0] == 5 then AskedBySocks(Socks.Outcome(pieces[0], pieces[1..]), text)
    else if CONNECT <= pieces[0] then AskedByHttp(HttpConnect.Outcome(pieces[0], pieces[1..], text.lossy))
    else None
  }

  method Serve(conn: Connection, remote: RemoteStream, text: Rendering, a: Answers, turns: seq<Turn>)
    returns (end: Option<End>)
    requires remote.target == None && remote.accepted == [] && Filled(conn.incoming)
    modifies conn, remote
    ensures Honours(remote, end, AskedBy(old(conn.incoming), text), a.opens)
  {
    var first := conn.Read();
    if first == [] {
      return None;
    }
    if first[0] == 5 {
      end := ServeSocks5(conn, remote, first, text, a, turns);
    } else if CONNECT <= first {
      end := ServeConnect(conn, remote, first, text, a, turns);
    } else {
      end := None;
    }
  }

  /** A connection that asks over SOCKS5 as RFC 1928 lays it out, its reads dividing it as they must: the remote stream
      is opened to the host and port sent, and takes the payload sent, from its start on and, if the client was seen to
      finish, whole. */
  method ServeSocks5WellDivided(
    conn: Connection, remote: RemoteStream, text: Rendering, a: Answers, turns: seq<Turn>,
    ghost methods: seq<Byte>, ghost host: Socks.Host, ghost port: nat, ghost payload: seq<Byte>)
    returns (end: Option<End>)
    requires remote.target == None && remote.accepted == [] && Filled(conn.incoming)
    requires |methods| < 256 && port < 0x1_0000 && Socks.Sendable(host)
    requires Flat(conn.incoming) == [5, |methods| as Byte] + methods + Socks.Encoded(host, port) + payload
    requires conn.incoming != [] && |conn.incoming[0]| >= 2
    requires host.Domain? ==> !EndsRead(conn.incoming[0], conn.incoming[1..], |methods| + 6)
    modifies conn, remote
    ensures remote.target.Some? == a.opens
    ensures remote.target.Some? ==> Names(remote.target.value.host, host, text) && remote.target.value.port == port
    ensures remote.accepted <= payload && (end == Some(LocalEof) ==> remote.accepted == payload)
  {
    ghost var pieces := conn.incoming;
    HostTextNames(host, text);
    assert Flat(pieces) == pieces[0] + Flat(pieces[1..]);
    assert pieces[0][0] == Flat(pieces)[0];
    Socks.WellDividedRequestIsUnderstood(pieces[0], pieces[1..], methods, host, port, payload);
    end := Serve(conn, remote, text, a, turns);
  }

  /** The request line and header of a CONNECT request, its line decoded as naming host and port. */
  ghost predicate IsHeader(line: seq<Byte>, fields: seq<Byte>, host: string, port: nat, lossy: seq<Byte> -> string) {
    && CONNECT <= line && HttpConnect.CR !in line && IsWord(host) && port < HttpConnect.PORTS
    && (exists rest ::
          lossy(line) == HttpConnect.METHOD + (" " + (HttpConnect.HostAndPort(host, port) + (" " + rest))))
    && fields != [] && fields[0] == HttpConnect.CR
    && HttpConnect.Terminator(line + fields, 0) == Some(|line + fields| - 4)
  }

  lemma HeaderIsUnderstood(
    line: seq<Byte>, fields: seq<Byte>, host: string, port: nat, payload: seq<Byte>, lossy: seq<Byte> -> string)
    requires IsHeader(line, fields, host, port, lossy)
    ensures HttpConnect.Terminator(line + fields + payload, 0) == Some(|line + fields| - 4)
    ensures HttpConnect.Intended(line + fields + payload, lossy)
         == Some(HttpConnect.Verdict.Connect(host, port, payload))
  {
    var header, at := line + fields, |line + fields| - 4;
    HttpConnect.TerminatorStays(header, payload);
    assert header + payload == line + (fields + payload);
    var rest :| lossy(line) == HttpConnect.METHOD + (" " + (HttpConnect.HostAndPort(host, port) + (" " + rest)));
    HttpConnect.TargetIsUnderstood(line, lossy, host, port, rest, fields + payload, at);
    DropStays(header, payload, |header|);
  }

  /** A connection that asks over CONNECT, its reads dividing it as they must: the remote stream is opened to the host
      and port named, and takes the payload sent, from its start on and, if the client was seen to finish, whole. */
  method ServeConnectWellDivided(
    conn: Connection, remote: RemoteStream, text: Rendering, a: Answers, turns: seq<Turn>,
    ghost line: seq<Byte>, ghost fields: seq<Byte>, ghost host: string, ghost port: nat, ghost payload: seq<Byte>)
    returns (end: Option<End>)
    requires remote.target == None && remote.accepted == [] && Filled(conn.incoming)
    requires IsHeader(line, fields, host, port, text.lossy)
    requires Flat(conn.incoming) == line + fields + payload && WellDivided(conn.incoming)
    modifies conn, remote
    ensures Honours(remote, end, Some(Asked(Address(host, port), payload)), a.opens)
  {
    HeaderIsUnderstood(line, fields, host, port, payload, text.lossy);
    assert CONNECT <= Flat(conn.incoming);
    AskedIfWellDivided(conn.incoming, text);
    end := Serve(conn, remote, text, a, turns);
  }

  /** What a CONNECT client is told, as text. */
  lemma AnnouncementAsText()
    ensures Spelled(ESTABLISHED) == "HTTP/1.1 200 Connection Established\r\n\r\n"
  {
  }

  /** What a CONNECT request begins with, and what its header ends with, as text. */
  lemma MarksAsText()
    ensures Spelled(CONNECT) == "CONNECT " && Spelled(BLANK_LINE) == "\r\n\r\n"
  {
  }

  /** A stream that begins in neither way is asked for nothing. */
  lemma NeitherFrontEnd(pieces: seq<seq<Byte>>, text: Rendering)
    requires pieces != [] ==> !(pieces[0] != [] && pieces[0][0] == 5) && !(CONNECT <= pieces[0])
    ensures AskedBy(pieces, text) == None
  {
  }

  // ----- what the division of a CONNECT request matters for

  function AskedByVerdict(v: Option<HttpConnect.Verdict>): Option<Asked> {
    if v.Some? then AskedByHttp(v.value) else None
  }

  /** The first read has the whole method, and none stops past the limit inside the header. */
  ghost predicate WellDivided(pieces: seq<seq<Byte>>) {
    pieces != [] && |pieces[0]| >= |CONNECT| && !HttpConnect.Oversteps(pieces[0], pieces[1..])
  }

  /** A stream that begins like a CONNECT request is taken for what its bytes ask for if it is well divided, and refused
      if it is not. So two divisions of it lead to the same request if and only if its bytes ask for none, or both
      are well divided, or neither is. */
  lemma DivisionDecides(pieces: seq<seq<Byte>>, others: seq<seq<Byte>>, text: Rendering)
    requires Filled(pieces) && Filled(others) && Flat(pieces) == Flat(others) && CONNECT <= Flat(pieces)
    ensures
      var wanted := AskedByVerdict(HttpConnect.Intended(Flat(pieces), text.lossy));
      && AskedBy(pieces, text) == (if WellDivided(pieces) then wanted else None)
      && (AskedBy(pieces, text) == AskedBy(others, text) <==>
            wanted.None? || (WellDivided(pieces) <==> WellDivided(others)))
  {
    AskedIfWellDivided(pieces, text);
    AskedIfWellDivided(others, text);
  }

  lemma AskedIfWellDivided(pieces: seq<seq<Byte>>, text: Rendering)
    requires Filled(pieces) && CONNECT <= Flat(pieces)
    ensures AskedBy(pieces, text) ==
              if WellDivided(pieces) then AskedByVerdict(HttpConnect.Intended(Flat(pieces), text.lossy)) else None
  {
    assert pieces != [] && Flat(pieces) == pieces[0] + Flat(pieces[1..]);
    assert pieces[0][0] == Flat(pieces)[0] == 67;
    assert CONNECT <= pieces[0] <==> |CONNECT| <= |pieces[0]|;
  }

  /** A first read that is shorter than the method name spoils any request. */
  lemma MethodInTwoReads(all: seq<Byte>, n: nat, text: Rendering)
    requires CONNECT <= all && 0 < n < |CONNECT|
    ensures AskedBy([all[..n], all[n..]], text) == None
  {
    var pieces := [all[..n], all[n..]];
    FlatOfTwo(all[..n], all[n..]);
    assert all[..n] + all[n..] == all;
    AskedIfWellDivided(pieces, text);
  }

  lemma FlatOfTwo(a: seq<Byte>, b: seq<Byte>)
    ensures Flat([a, b]) == a + b
  {
    var one: seq<seq<Byte>> := [b];
    assert [a, b][1..] == one && one[1..] == [];
    assert Flat(one) == b;
  }

  const READ_SIZE: nat := 4096

  /** Reads as the program makes them. */
  predicate Readable(pieces: seq<seq<Byte>>) {
    forall i | 0 <= i < |pieces| :: 0 < |pieces[i]| <= READ_SIZE
  }

  function FullReads(s: seq<Byte>): (pieces: seq<seq<Byte>>)
    ensures Readable(pieces) && Flat(pieces) == s
    ensures s != [] ==> pieces != [] && |pieces[0]| == if |s| < READ_SIZE then |s| else READ_SIZE
  {
    if s == [] then []
    else if |s| <= READ_SIZE then
      var one: seq<seq<Byte>> := [s];
      assert one[1..] == [];
      one
    else
      var pieces := [s[..READ_SIZE]] + FullReads(s[READ_SIZE..]);
      assert pieces[1..] == FullReads(s[READ_SIZE..]) && s[..READ_SIZE] + s[READ_SIZE..] == s;
      pieces
  }

  /** As many bytes as the limit allows, without the end of the first line: host `a`, and then one long word. */
  function LongStart(): (s: seq<Byte>)
    ensures |s| == HttpConnect.LIMIT && CONNECT <= s
  {
    CONNECT + [97, 32] + seq(HttpConnect.LIMIT - 10, (i: nat) => 97)
  }

  function Spelled(s: seq<Byte>): string {
    seq(|s|, i requires 0 <= i < |s| => s[i] as char)
  }

  const BLANK_LINE: seq<Byte> := [13, 10, 13, 10]

  lemma LongHeader(lossy: seq<Byte> -> string)
    requires lossy(LongStart() + [97]) == Spelled(LongStart() + [97])
    ensures
      var all := LongStart() + [97] + BLANK_LINE;
      && HttpConnect.Terminator(all, 0) == Some(HttpConnect.LIMIT + 1)
      && HttpConnect.Intended(all, lossy) == Some(HttpConnect.Verdict.Connect("a", 80, []))
  {
    var line := LongStart() + [97];
    var all, n: nat := line + BLANK_LINE, HttpConnect.LIMIT + 1;
    assert HttpConnect.EndsHeader(all, n);
    assert forall i: nat | i < n :: all[i] == line[i] != 13;
    var rest := seq(HttpConnect.LIMIT - 9, (i: nat) => 'a');
    assert Spelled(line) == HttpConnect.METHOD + (" " + ("a" + (" " + rest)));
    HttpConnect.TargetWithoutPort(line, lossy, "a", rest, BLANK_LINE, n);
    assert all[n + 4..] == [];
  }

  /** The same bytes in reads that differ only in where the last but one ends. */
  lemma OneByteLater(front: seq<Byte>, a: Byte, end: seq<Byte>)
    requires front != [] && 0 < |end| < READ_SIZE
    ensures
      var whole, late := FullReads(front) + [[a] + end], FullReads(front) + [[a], end];
      && Readable(whole) && Readable(late)
      && Flat(whole) == Flat(late) == front + ([a] + end)
      && Flat(late[..|late| - 1]) == front + [a]
  {
    var full := FullReads(front);
    var one: seq<seq<Byte>> := [[a] + end];
    assert one[1..] == [] && Flat(one) == [a] + end;
    FlatConcat(full, one);
    FlatOfTwo([a], end);
    var two: seq<seq<Byte>> := [[a], end];
    FlatConcat(full, two);
    var late := full + two;
    FlatSplit(late, |late| - 1);
    assert late[|late| - 1..] == [end];
    var last: seq<seq<Byte>> := [end];
    assert last[1..] == [] && Flat(last) == end;
    assert Flat(late) == (front + [a]) + end;
    assert late[..|late| - 1] + last == late;
    PrefixOfEqual(Flat(late[..|late| - 1]), front + [a], end);
  }

  lemma PrefixOfEqual(x: seq<Byte>, y: seq<Byte>, z: seq<Byte>)
    requires x + z == y + z
    ensures x == y
  {
    assert |x| == |y|;
    assert x == (x + z)[..|x|] && y == (y + z)[..|y|];
  }

  /** If no read but the last ends past the limit, none stops past it inside. */
  lemma StaysBelow(pieces: seq<seq<Byte>>)
    requires pieces != [] && |Flat(pieces[..|pieces| - 1])| <= HttpConnect.LIMIT
    ensures !HttpConnect.StopsInside(pieces[0], pieces[1..], |Flat(pieces)|)
  {
    var rest := pieces[1..];
    forall j | 0 <= j <= |rest|
      ensures !(HttpConnect.LIMIT < |pieces[0]| + |Flat(rest[..j])| < |Flat(pieces)|)
    {
      assert pieces[..j + 1] == [pieces[0]] + rest[..j];
      assert pieces[..j + 1][1..] == rest[..j];
      assert |Flat(pieces[..j + 1])| == |pieces[0]| + |Flat(rest[..j])|;
      if j < |rest| {
        HttpConnect.Grows(pieces, j + 1, |pieces| - 1);
      } else {
        assert rest[..j] == rest;
      }
    }
  }

  lemma StopsThere(pieces: seq<seq<Byte>>)
    requires |pieces| > 1 && HttpConnect.LIMIT < |Flat(pieces[..|pieces| - 1])| < |Flat(pieces)|
    ensures HttpConnect.StopsInside(pieces[0], pieces[1..], |Flat(pieces)|)
  {
    var rest, j := pieces[1..], |pieces| - 2;
    assert pieces[..j + 1] == [pieces[0]] + rest[..j];
    assert pieces[..j + 1][1..] == rest[..j];
    assert |pieces[0]| + |Flat(rest[..j])| == |Flat(pieces[..|pieces| - 1])|;
  }

  /** Two divisions of one request that the program can be given: sixteen full reads up to the limit, and then the rest
      in one read, or its first byte in a read of its own. One is understood, the other is too large. */
  lemma DivisionThatMatters(text: Rendering) returns (whole: seq<seq<Byte>>, late: seq<seq<Byte>>)
    requires text.lossy(LongStart() + [97]) == Spelled(LongStart() + [97])
    ensures Readable(whole) && Readable(late) && Flat(whole) == Flat(late)
    ensures AskedBy(whole, text) == Some(Asked(Address("a", 80), [])) && AskedBy(late, text) == None
    ensures late != [] && HttpConnect.Outcome(late[0], late[1..], text.lossy) == HttpConnect.TooLarge
  {
    var front := LongStart();
    whole, late := FullReads(front) + [[97] + BLANK_LINE], FullReads(front) + [[97], BLANK_LINE];
    OneByteLater(front, 97, BLANK_LINE);
    LongHeader(text.lossy);
    Assoc(front, [97], BLANK_LINE);
    assert whole[..|whole| - 1] == FullReads(front);
    WholeIsUnderstood(whole, text);
    LateIsTooLarge(late, text);
  }

  lemma WholeIsUnderstood(whole: seq<seq<Byte>>, text: Rendering)
    requires text.lossy(LongStart() + [97]) == Spelled(LongStart() + [97])
    requires Filled(whole) && whole != [] && |Flat(whole[..|whole| - 1])| <= HttpConnect.LIMIT
    requires CONNECT <= whole[0] && Flat(whole) == LongStart() + [97] + BLANK_LINE
    ensures AskedBy(whole, text) == Some(Asked(Address("a", 80), []))
  {
    LongHeader(text.lossy);
    StaysBelow(whole);
    AskedIfWellDivided(whole, text);
  }

  lemma LateIsTooLarge(late: seq<seq<Byte>>, text: Rendering)
    requires text.lossy(LongStart() + [97]) == Spelled(LongStart() + [97])
    requires Filled(late) && |late| > 1 && Flat(late[..|late| - 1]) == LongStart() + [97]
    requires CONNECT <= late[0] && Flat(late) == LongStart() + [97] + BLANK_LINE
    ensures AskedBy(late, text) == None
    ensures HttpConnect.Outcome(late[0], late[1..], text.lossy) == HttpConnect.TooLarge
  {
    LongHeader(text.lossy);
    StopsThere(late);
    AskedIfWellDivided(late, text);
  }
}
