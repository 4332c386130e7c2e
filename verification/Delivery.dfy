/** From the daemon's pushes to the client: what the relay hands on is what its subscription saw. */
module Delivery {
  import opened Common
  import opened Streams
  import opened RpcStreams
  import Proxy
  import Relay

  /** What an event holds for the client. */
  function Payload(e: Event): seq<Byte> {
    match e
    case Data(bytes) => bytes
    case Eof(last) => if last.Some? then last.value else []
    case Error(_) => []
  }

  function Payloads(events: seq<Event>): seq<Byte> {
    if events == [] then [] else Payload(events[0]) + Payloads(events[1..])
  }

  /** What a turn that polls the channel gets, if the next event there is `e`. */
  predicate Yields(p: Relay.Poll, e: Event) {
    match e
    case Data(bytes) => p == Relay.Poll.Data(bytes)
    case Eof(last) => p == Relay.Poll.Eof(last)
    case Error(_) => p == Relay.Poll.Error
  }

  /** The turns of a relay loop poll a channel on which `events` were sent, each event once and in order; a poll may
      find nothing there yet, and it finds the channel closed only once the events are used up. A turn whose local half
      ends the loop polls nothing. */
  predicate Polls(total: nat, turns: seq<Relay.Turn>, p: Relay.Progress, events: seq<Event>)
    requires p.accepted <= total
  {
    turns == [] || p.end != Relay.Running ||
    var q := Relay.AfterLocal(total - p.accepted, turns[0], p);
    q.end != Relay.Running ||
    match turns[0].poll
    case Empty => Polls(total, turns[1..], Relay.AfterPoll(turns[0], q), events)
    case Disconnected => events == []
    case _ =>
      && events != [] && Yields(turns[0].poll, events[0])
      && Polls(total, turns[1..], Relay.AfterPoll(turns[0], q), events[1..])
  }

  lemma {:induction false} PayloadsConcat(a: seq<Event>, b: seq<Event>)
    ensures Payloads(a + b) == Payloads(a) + Payloads(b)
  {
    if a == [] {
      assert a + b == b;
    } else {
      assert (a + b)[1..] == a[1..] + b;
      PayloadsConcat(a[1..], b);
      assert Payload(a[0]) + (Payloads(a[1..]) + Payloads(b)) == (Payload(a[0]) + Payloads(a[1..])) + Payloads(b);
    }
  }

  lemma FirstPayloads(events: seq<Event>, n: nat)
    requires events != [] && n < |events|
    ensures Payloads(events[..n + 1]) == Payload(events[0]) + Payloads(events[1..][..n])
  {
    assert events[..n + 1][1..] == events[1..][..n];
  }

  lemma NoPayloads(events: seq<Event>)
    ensures Payloads(events[..0]) == []
  {
  }

  lemma RunEnded(total: nat, turns: seq<Relay.Turn>, p: Relay.Progress)
    requires p.accepted <= total && p.end != Relay.Running
    ensures Relay.Run(total, turns, p) == p
  {
  }

  /** How many events a poll that ends the loop hands on. */
  lemma LastPoll(t: Relay.Turn, q: Relay.Progress, events: seq<Event>) returns (n: nat)
    requires Relay.EndAfter(t) != Relay.Running
    requires if t.poll.Disconnected? then events == [] else events != [] && Yields(t.poll, events[0])
    ensures n <= |events| && Relay.AfterPoll(t, q).delivered == q.delivered + Payloads(events[..n])
    ensures Relay.EndAfter(t) == Relay.RemoteGone ==> n == |events|
  {
    NoPayloads(events);
    n := 0;
    if !t.poll.Disconnected? && t.deliverOk {
      n := 1;
      FirstPayloads(events, 0);
      NoPayloads(events[1..]);
    }
  }

  /** A poll that does not end the loop hands on what it got. */
  lemma NextPoll(t: Relay.Turn, q: Relay.Progress, events: seq<Event>)
    requires Relay.EndAfter(t) == Relay.Running && q.end == Relay.Running
    requires !t.poll.Empty? ==> events != [] && Yields(t.poll, events[0])
    ensures
      var next := Relay.AfterPoll(t, q);
      && next.end == Relay.Running && next.accepted == q.accepted
      && next.delivered == q.delivered + if t.poll.Empty? then [] else Payload(events[0])
  {
  }

  /** The client is sent whole events, in order, from the first on and without gaps; all of them if the loop ended
      because the channel was closed. */
  lemma {:induction false} WholeEventsAreDelivered(
    total: nat, turns: seq<Relay.Turn>, p: Relay.Progress, events: seq<Event>) returns (n: nat)
    requires p.accepted <= total && p.end == Relay.Running && Polls(total, turns, p, events)
    ensures n <= |events| && Relay.Run(total, turns, p).delivered == p.delivered + Payloads(events[..n])
    ensures Relay.Run(total, turns, p).end == Relay.RemoteGone ==> n == |events|
  {
    n := 0;
    NoPayloads(events);
    if turns != [] {
      var t, q := turns[0], Relay.AfterLocal(total - p.accepted, turns[0], p);
      if q.end != Relay.Running {
        RunEnded(total, turns[1..], q);
      } else if Relay.EndAfter(t) != Relay.Running {
        n := LastPoll(t, q, events);
        RunEnded(total, turns[1..], Relay.AfterPoll(t, q));
      } else {
        NextPoll(t, q, events);
        if t.poll.Empty? {
          n := WholeEventsAreDelivered(total, turns[1..], Relay.AfterPoll(t, q), events);
        } else {
          n := WholeEventsAreDelivered(total, turns[1..], Relay.AfterPoll(t, q), events[1..]);
          FirstPayloads(events, n);
          Assoc(p.delivered, Payload(events[0]), Payloads(events[1..][..n]));
          n := n + 1;
        }
      }
    }
  }

  /** Over every interleaving of calls and pushes and every schedule of the relay: what the client is sent are the
      payloads of the first so many events pushed in the window of its subscription, so a prefix of the bytes pushed
      there. */
  lemma ClientGetsWhatWasPushed(
    states: seq<Hub>, actions: seq<HubAction>, k: nat, c: nat, total: nat, turns: seq<Relay.Turn>) returns (n: nat)
    requires IsHubRun(states, actions) && k < |states| && c in states[k].receivers
    requires Polls(total, turns, Relay.START, states[k].receivers[c].got)
    ensures
      var r, done := states[k].receivers[c], Relay.Run(total, turns, Relay.START);
      && r.since < |states[k].log|
      && var pushed := Window(states[k].log, r.since, r.stream);
         && n <= |pushed| && done.delivered == Payloads(pushed[..n]) && done.delivered <= Payloads(pushed)
         && (done.end == Relay.RemoteGone ==> n == |pushed|)
  {
    ReceiversSeeTheirWindow(states, actions, k, c);
    var pushed := states[k].receivers[c].got;
    n := WholeEventsAreDelivered(total, turns, Relay.START, pushed);
    PayloadsConcat(pushed[..n], pushed[n..]);
    assert pushed == pushed[..n] + pushed[n..];
  }

  /** A connection whose relay polls the receiver of call `c`: the client gets the announcement, and then what was
      pushed. */
  method ForwardSubscribed(
    conn: Connection, remote: Relay.RemoteStream, to: Relay.Address, early: seq<Byte>, success: seq<Byte>,
    a: Proxy.Answers, turns: seq<Relay.Turn>, ghost states: seq<Hub>, ghost actions: seq<HubAction>, ghost k: nat,
    ghost c: nat)
    returns (end: Option<Relay.End>, ghost n: nat)
    requires remote.target == None && remote.accepted == [] && Filled(conn.incoming)
    requires IsHubRun(states, actions) && k < |states| && c in states[k].receivers
    requires Polls(|conn.incoming|, turns, Relay.START, states[k].receivers[c].got)
    modifies conn, remote
    ensures Proxy.Honours(remote, end, Some(Proxy.Asked(to, early + Flat(old(conn.incoming)))), a.opens)
    ensures
      var r := states[k].receivers[c];
      && r.since < |states[k].log|
      && var pushed := Window(states[k].log, r.since, r.stream);
         n <= |pushed| && (end.Some? ==> conn.replies == old(conn.replies) + success + Payloads(pushed[..n]))
  {
    n := ClientGetsWhatWasPushed(states, actions, k, c, |conn.incoming|, turns);
    end := Proxy.Forward(conn, remote, to, early, success, a, turns);
  }
}
