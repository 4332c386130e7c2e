/**
 The SOCKS5 front end of the proxy (RFC 1928 sections 3 to 5): a greeting, a request, then payload, whatever the
 reads the bytes arrive in.
 */
module Socks {
  import opened Streams

  /** Addresses are kept as bytes; how they are rendered for the remote side is left open. */
  datatype Host = V4(octets: seq<Byte>) | Domain(name: seq<Byte>) | V6(octets: seq<Byte>)

  datatype Verdict =
    | BadGreeting
    | ClosedEarly
    | BadCommand
    | BadAddressType
    | Panics             // the length byte of a domain is looked up before it has arrived
    | Spins              // the address loops do not notice the end of the stream
    | Connect(host: Host, port: nat, payload: seq<Byte>)

  const NO_AUTH: seq<Byte> := [5, 0]
  const COMMAND_UNSUPPORTED: seq<Byte> := [5, 7, 0, 1, 0, 0, 0, 0, 0, 0]
  const ADDRESS_UNSUPPORTED: seq<Byte> := [5, 8, 0, 1, 0, 0, 0, 0, 0, 0]
  const SUCCEEDED: seq<Byte> := [5, 0, 0, 1, 0, 0, 0, 0, 0, 0]

  function PortAt(b: seq<Byte>, at: nat): nat
    requires at + 2 <= |b|
  {
    b[at] as int * 256 + b[at + 1] as int
  }

  /** How long the request is, from its first bytes on. */
  function Needed(b: seq<Byte>): nat
    requires |b| >= 4 && b[3] in {1, 3, 4}
    requires b[3] == 3 ==> |b| >= 5
  {
    if b[3] == 1 then 10 else if b[3] == 4 then 22 else 7 + b[4] as int
  }

  function HostIn(b: seq<Byte>): Host
    requires |b| >= 4 && b[3] in {1, 3, 4} && (b[3] == 3 ==> |b| >= 5) && |b| >= Needed(b)
  {
    if b[3] == 1 then V4(b[4..8]) else if b[3] == 4 then V6(b[4..20]) else Domain(b[5..Needed(b) - 2])
  }

  /** The verdict on everything after the greeting; `cut` says that a read ended right after its fourth byte. */
  function Judge(request: seq<Byte>, cut: bool): Verdict {
    if |request| < 4 then ClosedEarly
    else if request[0] != 5 || request[1] != 1 then BadCommand
    else if request[3] !in {1, 3, 4} then BadAddressType
    else if request[3] == 3 && (cut || |request| == 4) then Panics
    else if |request| < Needed(request) then Spins
    else Connect(HostIn(request), PortAt(request, Needed(request) - 2), request[Needed(request)..])
  }

  function GreetingLength(b: seq<Byte>): nat
    requires |b| >= 2
  {
    2 + b[1] as int
  }

  /** What the front end makes of a stream whose first read is `initial`. */
  ghost function Outcome(initial: seq<Byte>, pieces: seq<seq<Byte>>): Verdict {
    var all := initial + Flat(pieces);
    if |initial| < 2 || initial[0] != 5 then BadGreeting
    else if |all| < GreetingLength(initial) then ClosedEarly
    else Judge(all[GreetingLength(initial)..], EndsRead(initial, pieces, GreetingLength(initial) + 4))
  }

  /** What the bytes alone ask for. */
  function Intended(all: seq<Byte>): Verdict {
    if |all| < 2 || all[0] != 5 then BadGreeting
    else if |all| < GreetingLength(all) then ClosedEarly
    else Judge(all[GreetingLength(all)..], false)
  }

  predicate AsksDomain(all: seq<Byte>) {
    && |all| >= 2 && |all| >= GreetingLength(all) + 4
    && var r := all[GreetingLength(all)..]; r[0] == 5 && r[1] == 1 && r[3] == 3
  }

  // ----- the code

  /** What one phase of the handshake promises about an outcome `asked`: the verdict is that, except that payload
      not read yet is still to come. */
  ghost predicate Meets(verdict: Verdict, asked: Verdict, toCome: seq<seq<Byte>>) {
    if asked.Connect? then
      && verdict.Connect? && verdict.host == asked.host && verdict.port == asked.port
      && verdict.payload + Flat(toCome) == asked.payload
    else verdict == asked
  }

  /** Reading to a mark leaves the buffer at the mark exactly when some read ends there. */
  lemma StoppedAtMark(initial: seq<Byte>, pieces: seq<seq<Byte>>, k: nat, mark: nat)
    requires k <= |pieces| && mark <= |initial| + |Flat(pieces[..k])|
    requires forall j | 0 <= j < k :: |initial| + |Flat(pieces[..j])| < mark
    ensures EndsRead(initial, pieces, mark) <==> |initial| + |Flat(pieces[..k])| == mark
  {
    forall j | k < j <= |pieces| ensures |Flat(pieces[..j])| >= |Flat(pieces[..k])| {
      FlatSplit(pieces[..j], k);
      assert pieces[..j][..k] == pieces[..k];
    }
    if EndsRead(initial, pieces, mark) {
      var j :| 0 <= j <= |pieces| && |initial| + |Flat(pieces[..j])| == mark;
      assert j >= k;
    }
  }

  /** Read ends after the greeting are the read ends of what follows it. */
  lemma EndsAfterGreeting(initial: seq<Byte>, pieces: seq<seq<Byte>>, k: nat, n: nat, mark: nat)
    requires k <= |pieces| && n <= |initial| + |Flat(pieces[..k])|
    requires forall j | 0 <= j < k :: |initial| + |Flat(pieces[..j])| < n
    ensures EndsRead(initial, pieces, n + mark) <==> EndsRead((initial + Flat(pieces[..k]))[n..], pieces[k..], mark)
  {
    var start := (initial + Flat(pieces[..k]))[n..];
    forall i | 0 <= i <= |pieces| - k
      ensures |start| + |Flat(pieces[k..][..i])| == |initial| + |Flat(pieces[..k + i])| - n
    {
      FlatSplit(pieces[..k + i], k);
      assert pieces[..k + i][..k] == pieces[..k] && pieces[..k + i][k..] == pieces[k..][..i];
    }
    if EndsRead(initial, pieces, n + mark) {
      var j :| 0 <= j <= |pieces| && |initial| + |Flat(pieces[..j])| == n + mark;
      assert |start| + |Flat(pieces[k..][..j - k])| == mark;
    }
    if EndsRead(start, pieces[k..], mark) {
      var i :| 0 <= i <= |pieces[k..]| && |start| + |Flat(pieces[k..][..i])| == mark;
      assert |initial| + |Flat(pieces[..k + i])| == n + mark;
    }
  }

  lemma AfterGreeting(initial: seq<Byte>, pieces: seq<seq<Byte>>, k: nat)
    requires |initial| >= 2 && initial[0] == 5 && k <= |pieces|
    requires GreetingLength(initial) <= |initial| + |Flat(pieces[..k])|
    requires forall j | 0 <= j < k :: |initial| + |Flat(pieces[..j])| < GreetingLength(initial)
    ensures
      var n := GreetingLength(initial);
      var start := (initial + Flat(pieces[..k]))[n..];
      && |initial + Flat(pieces)| >= n && GreetingLength(initial + Flat(pieces)) == n
      && Outcome(initial, pieces) == Judge(start + Flat(pieces[k..]), EndsRead(start, pieces[k..], 4))
  {
    var n := GreetingLength(initial);
    var got, more := initial + Flat(pieces[..k]), Flat(pieces[k..]);
    FlatSplit(pieces, k);
    assert initial + Flat(pieces) == got + more;
    DropStays(got, more, n);
    EndsAfterGreeting(initial, pieces, k, n, 4);
  }

  ghost predicate HeaderRead(buf: seq<Byte>) {
    |buf| >= 4 && buf[0] == 5 && buf[1] == 1 && buf[3] in {1, 3, 4} && (buf[3] == 3 ==> |buf| >= 5)
  }

  ghost predicate FullRequest(buf: seq<Byte>) {
    HeaderRead(buf) && |buf| >= Needed(buf)
  }

  lemma SameHost(buf: seq<Byte>, more: seq<Byte>)
    requires FullRequest(buf)
    ensures Needed(buf + more) == Needed(buf) && HostIn(buf + more) == HostIn(buf)
  {
    var n := Needed(buf);
    if buf[3] == 1 {
      SliceStays(buf, more, 4, 8);
    } else if buf[3] == 4 {
      SliceStays(buf, more, 4, 20);
    } else {
      SliceStays(buf, more, 5, n - 2);
    }
  }

  lemma Decoded(buf: seq<Byte>, more: seq<Byte>)
    requires FullRequest(buf)
    ensures
      var n := Needed(buf);
      Judge(buf + more, false) == Connect(HostIn(buf), PortAt(buf, n - 2), buf[n..] + more)
  {
    SameHost(buf, more);
    DropStays(buf, more, Needed(buf));
  }

  lemma RequestRead(header: seq<Byte>, read: seq<Byte>, more: seq<Byte>)
    requires HeaderRead(header) && (|header + read| < Needed(header) ==> more == [])
    ensures
      var buf := header + read;
      var n := Needed(header);
      Judge(buf + more, false) ==
        if |buf| < n then Spins
        else assert Needed(buf) == n; Connect(HostIn(buf), PortAt(buf, n - 2), buf[n..] + more)
  {
    var buf := header + read;
    assert Needed(buf) == Needed(header);
    if |buf| < Needed(header) {
      assert buf + more == buf;
    } else {
      Decoded(buf, more);
    }
  }

  method HandleSocks5(conn: Connection, initial: seq<Byte>) returns (verdict: Verdict)
    requires Filled(conn.incoming)
    modifies conn
    ensures Meets(verdict, Outcome(initial, old(conn.incoming)), conn.incoming)
    ensures Filled(conn.incoming)
    ensures conn.replies == old(conn.replies) +
              RepliesTo(Outcome(initial, old(conn.incoming)), initial + Flat(old(conn.incoming)))
  {
    if |initial| < 2 || initial[0] != 5 {
      return BadGreeting;
    }
    ghost var pieces := conn.incoming;
    var n := GreetingLength(initial);
    var greeting, k := conn.Fill(initial, n);
    FlatSplit(pieces, k);
    if |greeting| < n {
      return ClosedEarly;
    }
    conn.Reply(NO_AUTH);
    AfterGreeting(initial, pieces, k);
    verdict := HandleRequest(conn, greeting[n..]);
  }

  /** What is written back before a connection is made. */
  function RepliesTo(v: Verdict, all: seq<Byte>): seq<Byte> {
    if v.BadGreeting? || |all| < 2 || |all| < GreetingLength(all) then []
    else NO_AUTH + Refusal(v)
  }

  function Refusal(v: Verdict): seq<Byte> {
    match v
    case BadCommand => COMMAND_UNSUPPORTED
    case BadAddressType => ADDRESS_UNSUPPORTED
    case _ => []
  }

  /** The request, of which the bytes `start` came along with the greeting. */
  method HandleRequest(conn: Connection, start: seq<Byte>) returns (verdict: Verdict)
    requires Filled(conn.incoming)
    modifies conn
    ensures
      var asked := Judge(start + Flat(old(conn.incoming)), EndsRead(start, old(conn.incoming), 4));
      Meets(verdict, asked, conn.incoming) && conn.replies == old(conn.replies) + Refusal(asked)
    ensures Filled(conn.incoming)
  {
    ghost var pieces := conn.incoming;
    var buf, k := conn.Fill(start, 4);
    FlatSplit(pieces, k);
    assert start + Flat(pieces) == buf + Flat(pieces[k..]);
    if |buf| < 4 {
      return ClosedEarly;
    }
    StoppedAtMark(start, pieces, k, 4);
    if buf[0] != 5 || buf[1] != 1 {
      conn.Reply(COMMAND_UNSUPPORTED);
      return BadCommand;
    }
    if buf[3] !in {1, 3, 4} {
      conn.Reply(ADDRESS_UNSUPPORTED);
      return BadAddressType;
    }
    if buf[3] == 3 && |buf| == 4 {
      return Panics;
    }
    verdict := ReadAddress(conn, buf);
  }

  /** The address and port, once their length is known. */
  method ReadAddress(conn: Connection, header: seq<Byte>) returns (verdict: Verdict)
    requires Filled(conn.incoming)
    requires HeaderRead(header)
    modifies conn`incoming
    ensures Meets(verdict, Judge(header + Flat(old(conn.incoming)), false), conn.incoming)
    ensures Filled(conn.incoming)
  {
    ghost var pieces := conn.incoming;
    var n := Needed(header);
    var buf, k := conn.Fill(header, n);
    FlatSplit(pieces, k);
    RequestRead(header, Flat(pieces[..k]), Flat(pieces[k..]));
    assert header + Flat(pieces) == buf + Flat(pieces[k..]);
    if |buf| < n {
      return Spins;
    }
    verdict := Connect(HostIn(buf), PortAt(buf, n - 2), buf[n..]);
  }

  // ----- what the outcome depends on

  /** The division into reads is immaterial exactly unless the first read ends after one byte, or a read of a domain
      request ends right before its length byte. */
  lemma ChunkingMatters(initial: seq<Byte>, pieces: seq<seq<Byte>>)
    requires initial != [] && initial[0] == 5
    ensures
      var all := initial + Flat(pieces);
      Outcome(initial, pieces) == Intended(all) <==>
        && (|initial| >= 2 || |all| < 2)
        && !(|initial| >= 2 && AsksDomain(all) && |all| > GreetingLength(all) + 4
             && EndsRead(initial, pieces, GreetingLength(all) + 4))
  {
    var all := initial + Flat(pieces);
    if |initial| >= 2 && |all| >= GreetingLength(initial) {
      assert GreetingLength(all) == GreetingLength(initial);
    }
  }

  /** The lengths that the three forms of address allow. */
  predicate Sendable(host: Host) {
    match host
    case V4(o) => |o| == 4
    case V6(o) => |o| == 16
    case Domain(name) => |name| < 256
  }

  /** A request as RFC 1928 section 4 lays it out. */
  function Encoded(host: Host, port: nat): seq<Byte>
    requires port < 0x1_0000 && Sendable(host)
  {
    var p: seq<Byte> := [(port / 256) as Byte, (port % 256) as Byte];
    match host
    case V4(o) => [5, 1, 0, 1] + o + p
    case V6(o) => [5, 1, 0, 4] + o + p
    case Domain(name) => [5, 1, 0, 3, |name| as Byte] + name + p
  }

  lemma EncodedIsConnect(host: Host, port: nat, payload: seq<Byte>)
    requires port < 0x1_0000 && Sendable(host)
    ensures Judge(Encoded(host, port) + payload, false) == Connect(host, port, payload)
  {
    var r := Encoded(host, port);
    assert Needed(r) == |r|;
    assert r[|r|..] == [];
    Decoded(r, payload);
    assert r[|r| - 2] as int * 256 + r[|r| - 1] as int == port;
    match host
    case V4(o) => assert r[4..8] == o;
    case V6(o) => assert r[4..20] == o;
    case Domain(name) => assert r[5..|r| - 2] == name;
  }

  /** Only such a request is a connection: host, port and payload are what the bytes lay out, the reserved byte
      aside. */
  lemma OnlyEncodedIsConnect(request: seq<Byte>, host: Host, port: nat, payload: seq<Byte>)
    requires Judge(request, false) == Connect(host, port, payload)
    ensures port < 0x1_0000 && Sendable(host) && |request| > 2
    ensures request[2 := 0] == Encoded(host, port) + payload
  {
    var n := Needed(request);
    PortInTwoBytes(request[n - 2] as int, request[n - 1] as int);
    RequestInParts(request, n);
    if host.Domain? {
      LengthThenName(request, n - 2);
    }
  }

  lemma RequestInParts(r: seq<Byte>, n: nat)
    requires 6 <= n <= |r|
    ensures r[2 := 0] == [r[0], r[1], 0, r[3]] + r[4..n - 2] + [r[n - 2], r[n - 1]] + r[n..]
  {
  }

  lemma LengthThenName(r: seq<Byte>, m: nat)
    requires 5 <= m <= |r|
    ensures [r[0], r[1], 0, r[3]] + r[4..m] == [r[0], r[1], 0, r[3], r[4]] + r[5..m]
  {
  }

  lemma PortInTwoBytes(high: nat, low: nat)
    requires high < 256 && low < 256
    ensures (high * 256 + low) / 256 == high && (high * 256 + low) % 256 == low && high * 256 + low < 0x1_0000
  {
  }

  /** A request is refused for its command unless that is the one for connecting, and then for its address type unless
      that is one of the three. */
  lemma RefusedExactly(request: seq<Byte>, cut: bool)
    requires |request| >= 4
    ensures Judge(request, cut) == BadCommand <==> request[0] != 5 || request[1] != 1
    ensures Judge(request, cut) == BadAddressType <==>
              request[0] == 5 && request[1] == 1 && request[3] != 1 && request[3] != 3 && request[3] != 4
  {
  }

  /** What is written back, byte by byte: that no authentication is asked for, once the greeting is in, and then the
      refusal, if it is one. */
  lemma RepliesAsLaidOut(v: Verdict, all: seq<Byte>)
    ensures RepliesTo(BadGreeting, all) == []
    ensures !v.BadGreeting? && |all| >= 2 && |all| >= 2 + all[1] as int ==>
              RepliesTo(v, all) == match v
                                   case BadCommand => [5, 0, 5, 7, 0, 1, 0, 0, 0, 0, 0, 0]
                                   case BadAddressType => [5, 0, 5, 8, 0, 1, 0, 0, 0, 0, 0, 0]
                                   case _ => [5, 0]
    ensures !v.BadGreeting? && |all| >= 2 && |all| < 2 + all[1] as int ==> RepliesTo(v, all) == []
    ensures SUCCEEDED == [5, 0, 0, 1, 0, 0, 0, 0, 0, 0]
  {
  }

  /** A greeting, an encoded request and any payload, divided into reads so that the first read has two bytes and
      none ends right before a domain's length byte, are understood as sent. */
  lemma WellDividedRequestIsUnderstood(
    initial: seq<Byte>, pieces: seq<seq<Byte>>, methods: seq<Byte>, host: Host, port: nat, payload: seq<Byte>)
    requires |methods| < 256 && port < 0x1_0000 && Sendable(host)
    requires initial + Flat(pieces) == [5, |methods| as Byte] + methods + Encoded(host, port) + payload
    requires |initial| >= 2
    requires host.Domain? ==> !EndsRead(initial, pieces, |methods| + 6)
    ensures Outcome(initial, pieces) == Connect(host, port, payload)
  {
    var greeting := [5, |methods| as Byte] + methods;
    var request := Encoded(host, port) + payload;
    var all := initial + Flat(pieces);
    assert all == greeting + request;
    GreetingThen(greeting, request);
    EncodedIsConnect(host, port, payload);
    ChunkingMatters(initial, pieces);
  }

  lemma GreetingThen(greeting: seq<Byte>, request: seq<Byte>)
    requires |greeting| >= 2 && greeting[0] == 5 && |greeting| == GreetingLength(greeting)
    ensures
      var all := greeting + request;
      && all[0] == 5 && GreetingLength(all) == |greeting| && all[|greeting|..] == request
      && Intended(all) == Judge(request, false)
  {
    DropStays(greeting, request, |greeting|);
  }

  /** A first read of one byte spoils the greeting. */
  lemma FirstByteAlone()
    ensures
      var rest: seq<seq<Byte>> := [[0]];
      Outcome([5], rest) == BadGreeting && Intended([5] + Flat(rest)) == ClosedEarly
  {
    var rest: seq<seq<Byte>> := [[0]];
    assert rest[1..] == [];
    assert Flat(rest) == [0];
  }

  /** So does a read that ends right before the length byte of a domain. */
  lemma LengthByteLate()
    ensures
      var rest: seq<seq<Byte>> := [[5, 1, 0, 3], [1, 97, 0, 80]];
      && Outcome([5, 0], rest) == Panics
      && Intended([5, 0] + Flat(rest)) == Connect(Domain([97]), 80, [])
  {
    var greeting: seq<Byte> := [5, 0];
    var rest: seq<seq<Byte>> := [[5, 1, 0, 3], [1, 97, 0, 80]];
    var name: seq<Byte> := [97];
    FlatPair(rest);
    var all := greeting + Flat(rest);
    assert all[2..] == Flat(rest) == Encoded(Domain(name), 80) + [];
    EncodedIsConnect(Domain(name), 80, []);
    assert all[0] == 5 && all[1] == 0;
    assert |greeting| + |Flat(rest[..1])| == 6;
    assert EndsRead(greeting, rest, 6);
  }

  lemma FlatPair(pieces: seq<seq<Byte>>)
    requires |pieces| == 2
    ensures Flat(pieces) == pieces[0] + pieces[1] && Flat(pieces[..1]) == pieces[0]
  {
    var last := pieces[1..];
    assert last[1..] == [] && pieces[..1][1..] == [];
    assert Flat(last) == pieces[1];
  }
}
