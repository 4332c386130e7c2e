/**
 The state that the RPC client's threads share, updated in place. Each method is one step of the interleaved system,
 taken while its lock is held: if the fields show a state before, they show the state after the step.
 */
module RpcHeap {
  import opened Common
  import opened Rpc
  import opened RpcStreams

  class SharedState {
    var nextId: nat
    var pending: map<nat, nat>
    var subs: map<nat, nat>
    var channels: map<nat, seq<Event>> // what was sent to each subscriber
    var alive: bool

    constructor ()
      ensures Shows(EMPTY)
    {
      nextId, pending, subs, channels, alive := 1, map[], map[], map[], true;
    }

    ghost predicate Shows(h: Hub)
      reads this
    {
      && nextId == IdOf(h.client.draws) && pending == h.client.pending
      && subs == h.subs && alive == h.client.alive
      && channels == Channels(h)
    }

    /** The start of a call: whether it is let in. */
    method Begin(ghost h: Hub, ghost c: nat, ghost op: Op) returns (admitted: bool)
      requires Shows(h) && Enabled(h.client, Action.Begin(c, op))
      ensures Shows(HubStep(h, CallStep(Action.Begin(c, op))))
      ensures In(HubStep(h, CallStep(Action.Begin(c, op))).client, c, if admitted then Admitted else Returned(Refused))
    {
      admitted := alive;
    }

    /** Draws an id from the shared counter. */
    method Draw(ghost h: Hub, ghost c: nat) returns (id: nat)
      requires Shows(h) && Enabled(h.client, Action.Draw(c))
      modifies this`nextId
      ensures Shows(HubStep(h, CallStep(Action.Draw(c))))
      ensures id == IdOf(HubStep(h, CallStep(Action.Draw(c))).client.calls[c].ticket)
    {
      NextId(h.client.draws);
      id := nextId;
      nextId := (nextId + 1) % ID_SPACE;
    }

    method Insert(ghost h: Hub, c: nat, id: nat)
      requires Shows(h) && Enabled(h.client, Action.Insert(c)) && id == IdOf(h.client.calls[c].ticket)
      modifies this`pending
      ensures Shows(HubStep(h, CallStep(Action.Insert(c))))
    {
      pending := pending[id := c];
    }

    /** The reader looks up whom a response is for, and takes that call off the table. */
    method Respond(ghost h: Hub, m: Message) returns (call: Option<nat>)
      requires Shows(h) && Enabled(h.client, Action.Respond(m))
      modifies this`pending
      ensures Shows(HubStep(h, CallStep(Action.Respond(m))))
      ensures
        HubStep(h, CallStep(Action.Respond(m))).client.reader == if call.Some? then Holding(call.value, m) else Idle
    {
      if m.id !in pending {
        return None;
      }
      call := Some(pending[m.id]);
      pending := pending - {m.id};
    }

    /** A call that failed to write, or was not answered in time, takes its id off the table. */
    method TakeOff(ghost h: Hub, ghost c: nat, id: nat)
      requires Shows(h) && Enabled(h.client, Action.TakeOff(c)) && id == IdOf(h.client.calls[c].ticket)
      modifies this`pending
      ensures Shows(HubStep(h, CallStep(Action.TakeOff(c))))
    {
      pending := pending - {id};
    }

    method Poisoned(ghost h: Hub, ghost c: nat)
      requires Shows(h) && Enabled(h.client, Action.Poisoned(c))
      modifies this`alive
      ensures Shows(HubStep(h, CallStep(Action.Poisoned(c))))
    {
      alive := false;
    }

    method ReaderExits(ghost h: Hub)
      requires Shows(h) && Enabled(h.client, Action.ReaderExits)
      modifies this`alive
      ensures Shows(HubStep(h, CallStep(Action.ReaderExits)))
    {
      alive := false;
    }

    method Shutdown(ghost h: Hub)
      requires Shows(h)
      modifies this`alive
      ensures Shows(HubStep(h, CallStep(Action.Shutdown)))
    {
      alive := false;
    }

    /** Sends an event on the channel of the stream's subscriber, if it has one. */
    method SendOn(stream: nat, event: Event)
      requires stream in subs ==> subs[stream] in channels
      modifies this`channels
      ensures stream !in subs ==> channels == old(channels)
      ensures stream in subs ==> channels == old(channels)[subs[stream] := old(channels)[subs[stream]] + [event]]
    {
      if stream in subs {
        channels := channels[subs[stream] := channels[subs[stream]] + [event]];
      }
    }

    /** The reader sends a push event to the call subscribed to its stream, if any. */
    method Push(ghost h: Hub, stream: nat, event: Event)
      requires Shows(h) && KnowsSubscriber(h, stream) && Possible(h, HubAction.Push(stream, event))
      modifies this`channels
      ensures Shows(HubStep(h, HubAction.Push(stream, event)))
    {
      ghost var t := HubStep(h, HubAction.Push(stream, event));
      PushShared(h, stream, event);
      SendOn(stream, event);
      assert channels == Channels(t);
    }

    /** What a call on a stream does to the subscriptions once it is over. */
    method Finish(ghost h: Hub, c: nat, op: Op, outcome: Outcome)
      requires Shows(h) && Enabled(h.client, Action.Finish(c))
      requires op == h.client.calls[c].op && outcome == h.client.calls[c].phase.outcome
      modifies this`subs, this`channels
      ensures Shows(HubStep(h, CallStep(Action.Finish(c))))
    {
      if op.Subscribe? && outcome.Answered? && outcome.message.ok {
        subs, channels := subs[op.stream := c], channels[c := []];
      } else if op.Close? {
        subs := subs - {op.stream};
      }
    }
  }
}
