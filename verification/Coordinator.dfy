/**
 The meeting point of tool handlers and the refresh worker: a map from job ids to
 watch channels.

 A watch channel holds one value and counts its changes. A receiver remembers the
 last change it has seen, so a value sent before the sender is dropped is still
 delivered. Channels are kept in an arena; `waiters` maps a job to the arena index
 of the channel whose sender it holds. A sender that has left the map belongs to
 the worker until it is dropped.
 */
module Coordinator {
  import opened Options

  datatype Outcome = Pending | Completed | Failed(message: string)

  datatype Channel = Channel(jobId: int, value: Outcome, version: nat, closed: bool, receivers: set<int>)

  datatype Hub = Hub(waiters: map<int, nat>, channels: seq<Channel>)

  // ---------------------------------------------------------------- atomic steps

  /** Registers a completion channel for the job unless there is one. */
  function Registered(hub: Hub, jobId: int): Hub {
    if jobId in hub.waiters then hub
    else Hub(hub.waiters[jobId := |hub.channels|], hub.channels + [Channel(jobId, Pending, 0, false, {})])
  }

  /** `receiver` starts watching channel `c`. */
  function Subscribed(hub: Hub, c: nat, receiver: int): Hub
    requires c < |hub.channels|
  {
    hub.(channels := hub.channels[c := hub.channels[c].(receivers := hub.channels[c].receivers + {receiver})])
  }

  function Unsubscribed(hub: Hub, c: nat, receiver: int): Hub
    requires c < |hub.channels|
  {
    hub.(channels := hub.channels[c := hub.channels[c].(receivers := hub.channels[c].receivers - {receiver})])
  }

  /** The sender of the job's channel leaves the map. */
  function SenderTaken(hub: Hub, jobId: int): Hub {
    hub.(waiters := hub.waiters - {jobId})
  }

  /** Sending fails, and changes nothing, when nobody is watching. */
  function Sent(hub: Hub, c: nat, outcome: Outcome): Hub
    requires c < |hub.channels|
  {
    var channel := hub.channels[c];
    if channel.receivers == {} then hub
    else hub.(channels := hub.channels[c := channel.(value := outcome, version := channel.version + 1)])
  }

  function SenderDropped(hub: Hub, c: nat): Hub
    requires c < |hub.channels|
  {
    hub.(channels := hub.channels[c := hub.channels[c].(closed := true)])
  }

  /** A receiver that has seen `seen` changes stops waiting: for a new value, or
      because no value can come any more. */
  predicate ChangedResolves(channel: Channel, seen: nat) {
    channel.version != seen || channel.closed
  }

  // ---------------------------------------------------------------- invariant

  /** A sender that the worker has taken out of the map. */
  datatype Held = Nothing | Taken(channel: nat, outcome: Outcome) | Released(channel: nat, outcome: Outcome)

  predicate InMap(hub: Hub, c: nat)
    requires c < |hub.channels|
  {
    var id := hub.channels[c].jobId;
    id in hub.waiters && hub.waiters[id] == c
  }

  predicate Fresh(channel: Channel) {
    channel.value == Pending && channel.version == 0 && !channel.closed
  }

  /** The one value has been sent, or it was dropped because nobody watched. */
  predicate Settled(channel: Channel) {
    || (channel.version == 1 && channel.value != Pending)
    || (channel.version == 0 && channel.value == Pending && channel.receivers == {})
  }

  predicate ChannelOk(hub: Hub, held: Held, c: nat)
    requires c < |hub.channels|
  {
    var channel := hub.channels[c];
    if InMap(hub, c) || (held.Taken? && held.channel == c) then Fresh(channel)
    else
      && Settled(channel)
      && (if held.Released? && held.channel == c
          then !channel.closed && (channel.version == 1 ==> channel.value == held.outcome)
          else channel.closed)
  }

  ghost predicate HubInv(hub: Hub, held: Held) {
    && (forall id :: id in hub.waiters ==>
          hub.waiters[id] < |hub.channels| && hub.channels[hub.waiters[id]].jobId == id)
    && (!held.Nothing? ==> held.channel < |hub.channels| && !InMap(hub, held.channel) && held.outcome != Pending)
    && (forall c :: 0 <= c < |hub.channels| ==> ChannelOk(hub, held, c))
  }

  lemma RegisterKeepsInv(hub: Hub, held: Held, jobId: int)
    requires HubInv(hub, held)
    ensures HubInv(Registered(hub, jobId), held)
    ensures forall c :: 0 <= c < |hub.channels| ==>
              Registered(hub, jobId).channels[c] == hub.channels[c] && InMap(Registered(hub, jobId), c) == InMap(hub, c)
  {
    var hub' := Registered(hub, jobId);
    forall c | 0 <= c < |hub'.channels| ensures ChannelOk(hub', held, c) {
      if c < |hub.channels| {
        assert ChannelOk(hub, held, c);
      }
    }
  }

  lemma SubscribeKeepsInv(hub: Hub, held: Held, jobId: int, receiver: int)
    requires HubInv(hub, held) && jobId in hub.waiters
    ensures HubInv(Subscribed(hub, hub.waiters[jobId], receiver), held)
  {
    var hub' := Subscribed(hub, hub.waiters[jobId], receiver);
    forall c | 0 <= c < |hub'.channels| ensures ChannelOk(hub', held, c) {
      assert ChannelOk(hub, held, c);
    }
  }

  lemma UnsubscribeKeepsInv(hub: Hub, held: Held, c: nat, receiver: int)
    requires HubInv(hub, held) && c < |hub.channels|
    ensures HubInv(Unsubscribed(hub, c, receiver), held)
  {
    var hub' := Unsubscribed(hub, c, receiver);
    forall c' | 0 <= c' < |hub'.channels| ensures ChannelOk(hub', held, c') {
      assert ChannelOk(hub, held, c');
    }
  }

  lemma TakeKeepsInv(hub: Hub, jobId: int, outcome: Outcome)
    requires HubInv(hub, Nothing) && outcome != Pending
    ensures HubInv(SenderTaken(hub, jobId), if jobId in hub.waiters then Taken(hub.waiters[jobId], outcome) else Nothing)
  {
    var hub' := SenderTaken(hub, jobId);
    var held' := if jobId in hub.waiters then Taken(hub.waiters[jobId], outcome) else Nothing;
    forall c | 0 <= c < |hub'.channels| ensures ChannelOk(hub', held', c) {
      assert ChannelOk(hub, Nothing, c);
    }
  }

  lemma SendKeepsInv(hub: Hub, c: nat, outcome: Outcome)
    requires HubInv(hub, Taken(c, outcome))
    ensures HubInv(Sent(hub, c, outcome), Released(c, outcome))
  {
    var hub' := Sent(hub, c, outcome);
    forall i | 0 <= i < |hub'.channels| ensures ChannelOk(hub', Released(c, outcome), i) {
      assert ChannelOk(hub, Taken(c, outcome), i);
    }
  }

  lemma DropKeepsInv(hub: Hub, c: nat, outcome: Outcome)
    requires HubInv(hub, Released(c, outcome))
    ensures HubInv(SenderDropped(hub, c), Nothing)
  {
    var hub' := SenderDropped(hub, c);
    forall i | 0 <= i < |hub'.channels| ensures ChannelOk(hub', Nothing, i) {
      assert ChannelOk(hub, Released(c, outcome), i);
    }
  }

  // ---------------------------------------------------------------- the coordinator

  class IndexingCoordinator {
    var waiters: map<int, nat>
    var channels: seq<Channel>

    ghost function View(): Hub
      reads this
    {
      Hub(waiters, channels)
    }

    ghost predicate Valid()
      reads this
    {
      HubInv(View(), Nothing)
    }

    constructor ()
      ensures Valid() && View() == Hub(map[], [])
    {
      waiters, channels := map[], [];
    }

    /** The registering half of an on-demand request; idempotent. */
    method Register(jobId: int)
      requires Valid()
      modifies this
      ensures Valid() && View() == Registered(old(View()), jobId)
      ensures jobId in waiters && Fresh(channels[waiters[jobId]])
    {
      RegisterKeepsInv(View(), Nothing, jobId);
      if jobId !in waiters {
        waiters := waiters[jobId := |channels|];
        channels := channels + [Channel(jobId, Pending, 0, false, {})];
      }
      assert ChannelOk(View(), Nothing, waiters[jobId]);
    }

    /** The subscribing step of waiting for a job. */
    method Subscribe(jobId: int, receiver: int) returns (channel: Option<nat>)
      requires Valid()
      modifies this
      ensures Valid()
      ensures channel == if jobId in old(waiters) then Some(old(waiters)[jobId]) else None
      ensures channel.None? ==> View() == old(View())
      ensures channel.Some? ==> channel.value < |old(channels)|
      ensures channel.Some? ==> View() == Subscribed(old(View()), channel.value, receiver)
      ensures channel.Some? ==> receiver in channels[channel.value].receivers
    {
      if jobId !in waiters {
        return None;
      }
      SubscribeKeepsInv(View(), Nothing, jobId, receiver);
      var c := waiters[jobId];
      channels := channels[c := channels[c].(receivers := channels[c].receivers + {receiver})];
      return Some(c);
    }

    /** Delivers the outcome to everyone watching the job's channel and forgets the
        channel. No other channel or waiter is touched. */
    method SignalCompletion(jobId: int, outcome: Outcome)
      requires Valid() && outcome != Pending
      modifies this
      ensures Valid() && waiters == old(waiters) - {jobId} && |channels| == |old(channels)|
      ensures jobId in old(waiters) ==>
                var before, after := old(channels[waiters[jobId]]), channels[old(waiters)[jobId]];
                && after.closed && after.receivers == before.receivers
                && after.jobId == before.jobId
                && (before.receivers != {} ==> after.value == outcome && after.version == before.version + 1)
                && (before.receivers == {} ==> after.value == before.value && after.version == before.version)
      ensures forall c :: 0 <= c < |channels| && !(jobId in old(waiters) && c == old(waiters)[jobId]) ==>
                channels[c] == old(channels)[c]
    {
      if jobId in waiters {
        var c := waiters[jobId];
        ghost var hub := View();
        assert ChannelOk(hub, Nothing, c) && InMap(hub, c);
        TakeKeepsInv(hub, jobId, outcome);
        waiters := waiters - {jobId};
        SendKeepsInv(SenderTaken(hub, jobId), c, outcome);
        if channels[c].receivers != {} {
          channels := channels[c := channels[c].(value := outcome, version := channels[c].version + 1)];
        }
        assert View() == Sent(SenderTaken(hub, jobId), c, outcome);
        DropKeepsInv(View(), c, outcome);
        channels := channels[c := channels[c].(closed := true)];
        assert View() == SenderDropped(Sent(SenderTaken(hub, jobId), c, outcome), c);
      } else {
        assert waiters == waiters - {jobId};
      }
    }
  }
}
