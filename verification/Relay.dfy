/** Passing payload on: from the local connection to a remote stream, and back. */
module Relay {
  import opened Common
  import opened Streams

  datatype Poll = Data(bytes: seq<Byte>) | Eof(last: Option<seq<Byte>>) | Error | Empty | Disconnected

  /** What the local side has: something to read (data, or the end of the stream), nothing yet, or a
      broken connection. */
  datatype Local = Ready | Quiet | Broken

  /** One turn of the relay loop as the surroundings decide it: what the local side has, whether a write to the remote
      side succeeds, what the event channel yields, and whether a write to the local side succeeds. */
  datatype Turn = Turn(local: Local, writeOk: bool, poll: Poll, deliverOk: bool)

  datatype End =
    LocalEof | LocalReadFailed | RemoteWriteFailed | RemoteEof | RemoteFailed | RemoteGone | LocalWriteFailed | Running

  /** The ends after which the remote stream is closed from here. */
  predicate Closes(end: End) {
    end in {LocalEof, LocalReadFailed, LocalWriteFailed, RemoteFailed}
  }

  datatype Address = Address(host: string, port: nat)

  /** The remote stream: where it was opened to, the bytes accepted for it, and whether it was closed. */
  class RemoteStream {
    var target: Option<Address>
    var accepted: seq<Byte>
    var closed: bool

    constructor ()
      ensures target == None && accepted == [] && !closed
    {
      target, accepted, closed := None, [], false;
    }

    method Open(to: Address)
      modifies this`target
      ensures target == Some(to)
    {
      target := Some(to);
    }

    method Write(bytes: seq<Byte>)
      modifies this`accepted
      ensures accepted == old(accepted) + bytes
    {
      accepted := accepted + bytes;
    }

    method Close()
      modifies this`closed
      ensures closed
    {
      closed := true;
    }
  }

  /** Where the loop stands: how it ended, how many local pieces the remote side accepted, what the local side got. */
  datatype Progress = Progress(end: End, accepted: nat, delivered: seq<Byte>)

  /** What a turn hands to the local side. */
  function Delivered(t: Turn): seq<Byte> {
    match t.poll
    case Data(bytes) => if t.deliverOk then bytes else []
    case Eof(last) => if last.Some? && t.deliverOk then last.value else []
    case _ => []
  }

  function EndAfter(t: Turn): End {
    match t.poll
    case Data(_) => if t.deliverOk then Running else LocalWriteFailed
    case Eof(_) => RemoteEof
    case Error => RemoteFailed
    case Disconnected => RemoteGone
    case Empty => Running
  }

  /** The remote half of a turn. */
  function AfterPoll(t: Turn, p: Progress): Progress {
    p.(end := EndAfter(t), delivered := p.delivered + Delivered(t))
  }

  /** The local half of a turn, with `left` local pieces to come. */
  function AfterLocal(left: nat, t: Turn, p: Progress): Progress {
    if t.local == Broken then p.(end := LocalReadFailed)
    else if t.local == Quiet then p
    else if left == 0 then p.(end := LocalEof)
    else if !t.writeOk then p.(end := RemoteWriteFailed)
    else p.(accepted := p.accepted + 1)
  }

  function AfterTurn(left: nat, t: Turn, p: Progress): Progress {
    var q := AfterLocal(left, t, p);
    if q.end == Running then AfterPoll(t, q) else q
  }

  /** All turns, from `p` on, with `total` local pieces in all. */
  function Run(total: nat, turns: seq<Turn>, p: Progress): Progress
    requires p.accepted <= total
  {
    if turns == [] || p.end != Running then p
    else Run(total, turns[1..], AfterTurn(total - p.accepted, turns[0], p))
  }

  const START := Progress(Running, 0, [])

  /** The connection and the remote stream stand where `p` says, if they started with `pieces` to read and with the
      bytes and the closedness of `origin`. */
  ghost predicate StandsAt(conn: Connection, remote: RemoteStream, pieces: seq<seq<Byte>>, origin: Origin, p: Progress)
    reads conn, remote
  {
    && p.accepted <= |pieces|
    && (p.end == Running ==> conn.incoming == pieces[p.accepted..])
    && remote.accepted == origin.accepted + Flat(pieces[..p.accepted])
    && conn.replies == origin.replies + p.delivered
    && remote.closed == (origin.closed || Closes(p.end))
  }

  datatype Origin = Origin(accepted: seq<Byte>, replies: seq<Byte>, closed: bool)

  /** Takes the local half of a turn. */
  method TakeLocal(
    conn: Connection, remote: RemoteStream, t: Turn,
    ghost pieces: seq<seq<Byte>>, ghost origin: Origin, ghost p: Progress)
    returns (end: End)
    requires p.end == Running && StandsAt(conn, remote, pieces, origin, p)
    requires Filled(pieces)
    modifies conn`incoming, remote`accepted, remote`closed
    ensures
      var q := AfterLocal(|pieces| - p.accepted, t, p);
      end == q.end && StandsAt(conn, remote, pieces, origin, q)
  {
    end := Running;
    FlatSplit(pieces, p.accepted);
    match t.local {
      case Broken =>
        remote.Close();
        end := LocalReadFailed;
      case Quiet =>
      case Ready =>
        var piece := conn.Read();
        if piece == [] {
          remote.Close();
          end := LocalEof;
        } else if !t.writeOk {
          end := RemoteWriteFailed;
        } else {
          remote.Write(piece);
        }
    }
  }

  /** Takes the remote half of a turn. */
  method TakePoll(conn: Connection, remote: RemoteStream, t: Turn) returns (end: End)
    modifies conn`replies, remote`closed
    ensures end == EndAfter(t) && conn.replies == old(conn.replies) + Delivered(t)
    ensures remote.closed == (old(remote.closed) || Closes(end))
  {
    end := Running;
    match t.poll {
      case Data(bytes) =>
        if t.deliverOk {
          conn.Reply(bytes);
        } else {
          remote.Close();
          end := LocalWriteFailed;
        }
      case Eof(last) =>
        if last.Some? && t.deliverOk {
          conn.Reply(last.value);
        }
        end := RemoteEof;
      case Error =>
        remote.Close();
        end := RemoteFailed;
      case Disconnected =>
        end := RemoteGone;
      case Empty =>
    }
  }

  /** Takes a turn. */
  method TakeTurn(
    conn: Connection, remote: RemoteStream, t: Turn,
    ghost pieces: seq<seq<Byte>>, ghost origin: Origin, ghost p: Progress)
    returns (end: End)
    requires p.end == Running && StandsAt(conn, remote, pieces, origin, p)
    requires Filled(pieces)
    modifies conn, remote`accepted, remote`closed
    ensures
      var q := AfterTurn(|pieces| - p.accepted, t, p);
      end == q.end && StandsAt(conn, remote, pieces, origin, q)
  {
    end := TakeLocal(conn, remote, t, pieces, origin, p);
    if end == Running {
      end := TakePoll(conn, remote, t);
    }
  }

  /** Runs the loop for as many turns as are given. */
  method RelayStreams(conn: Connection, remote: RemoteStream, turns: seq<Turn>) returns (end: End)
    requires Filled(conn.incoming)
    modifies conn, remote`accepted, remote`closed
    ensures
      var pieces := old(conn.incoming);
      var done := Run(|pieces|, turns, START);
      end == done.end && StandsAt(conn, remote, pieces, old(Origin(remote.accepted, conn.replies, remote.closed)), done)
  {
    ghost var pieces, p := conn.incoming, START;
    ghost var origin := Origin(remote.accepted, conn.replies, remote.closed);
    var i := 0;
    end := Running;
    while i < |turns| && end == Running
      invariant i <= |turns| && end == p.end && StandsAt(conn, remote, pieces, origin, p)
      invariant Run(|pieces|, turns, START) == Run(|pieces|, turns[i..], p)
    {
      var t := turns[i];
      assert turns[i..][1..] == turns[i + 1..];
      end := TakeTurn(conn, remote, t, pieces, origin, p);
      p := AfterTurn(|pieces| - p.accepted, t, p);
      i := i + 1;
    }
  }

  /** How a turn ends the loop, and when it does not. */
  lemma EndsExactly(left: nat, t: Turn, p: Progress)
    requires p.end == Running
    ensures
      var end := AfterTurn(left, t, p).end;
      && (end == LocalReadFailed <==> t.local == Broken)
      && (end == LocalEof <==> t.local == Ready && left == 0)
      && (end == RemoteWriteFailed <==> t.local == Ready && left > 0 && !t.writeOk)
      && (t.local == Quiet || (t.local == Ready && left > 0 && t.writeOk) ==>
            end == match t.poll
                   case Data(_) => if t.deliverOk then Running else LocalWriteFailed
                   case Eof(_) => RemoteEof
                   case Error => RemoteFailed
                   case Disconnected => RemoteGone
                   case Empty => Running)
  {
  }

  /** A turn in which neither side has anything changes nothing. */
  lemma QuietTurn(left: nat, writeOk: bool, deliverOk: bool, p: Progress)
    requires p.end == Running
    ensures AfterTurn(left, Turn(Quiet, writeOk, Empty, deliverOk), p) == p
  {
  }

  /** The remote stream is closed from here at the local end of stream, after a failure on the local side, and when the
      remote side reports an error; not when the remote side ended, or is gone, or refused a write. */
  lemma ClosedExactly(end: End)
    ensures Closes(end) <==>
              end == LocalEof || end == LocalReadFailed || end == LocalWriteFailed || end == RemoteFailed
    ensures end == RemoteEof || end == RemoteGone || end == RemoteWriteFailed || end == Running ==> !Closes(end)
  {
  }

  /** Only local bytes are forwarded, in order; all of them once the loop has seen the local end of stream. */
  lemma {:induction false} ForwardsAPrefix(total: nat, turns: seq<Turn>, p: Progress)
    requires p.accepted <= total && p.end != LocalEof
    ensures p.accepted <= Run(total, turns, p).accepted <= total
    ensures Run(total, turns, p).end == LocalEof ==> Run(total, turns, p).accepted == total
    ensures p.delivered <= Run(total, turns, p).delivered
  {
    if turns != [] && p.end == Running {
      var q := AfterTurn(total - p.accepted, turns[0], p);
      if q.end != LocalEof {
        ForwardsAPrefix(total, turns[1..], q);
      }
    }
  }
}
