/** The spawner's channels (packages/client/src/spawner.ts): output and exit of processes that a
    helper process runs, multiplexed over one stream. Every callback of the event loop and every
    synchronous call is a method; the class invariant holds between any two of them, so it holds
    over every interleaving. */
module Spawner {
  import opened Basics

  type ProcessId = nat

  datatype Message =
    | ResultMessage(id: ProcessId)
    | StdoutMessage(id: ProcessId, data: Bytes)
    | ExitMessage(id: ProcessId)

  /** What happened to the stream, in order: a process was spawned, a message arrived, or the
      spawner failed. */
  datatype Event = Spawned(id: ProcessId) | Arrived(message: Message) | Failed

  /** The state of one process. `handedOut` is what listeners and readers have been given, and
      `exitCalls` is how often the exit listeners ran. */
  datatype Channel = Channel(
    pending: seq<Bytes>,
    exited: bool,
    exitEmitted: bool,
    flushScheduled: bool,
    listening: bool,
    handedOut: Bytes,
    exitCalls: nat)

  const NEW_CHANNEL := Channel([], false, false, false, false, [], 0)

  // ------------------------------------------------------------------- what was received

  /** The process is registered after the events: spawned, and neither exited nor cut off by a
      failure since. */
  predicate IsOpen(log: seq<Event>, id: ProcessId) {
    if log == [] then false
    else
      match log[|log| - 1]
      case Spawned(i) => i == id || IsOpen(log[..|log| - 1], id)
      case Arrived(m) => !(m.ExitMessage? && m.id == id) && IsOpen(log[..|log| - 1], id)
      case Failed => false
  }

  predicate IsOutputOf(e: Event, id: ProcessId) {
    e.Arrived? && e.message.StdoutMessage? && e.message.id == id
  }

  /** The output received for a process: the data of its messages while it is registered. */
  function Received(log: seq<Event>, id: ProcessId): Bytes {
    if log == [] then []
    else
      var init, last := log[..|log| - 1], log[|log| - 1];
      Received(init, id)
      + if IsOutputOf(last, id) && IsOpen(init, id) then last.message.data else []
  }

  lemma LogStep(log: seq<Event>, e: Event, id: ProcessId)
    ensures IsOpen(log + [e], id) ==
            match e
            case Spawned(i) => i == id || IsOpen(log, id)
            case Arrived(m) => !(m.ExitMessage? && m.id == id) && IsOpen(log, id)
            case Failed => false
    ensures Received(log + [e], id) ==
            Received(log, id) + if IsOutputOf(e, id) && IsOpen(log, id) then e.message.data else []
  {
    assert (log + [e])[..|log|] == log;
  }

  /** `received` and `channels` say for each process what the log says. */
  ghost predicate Reflects(log: seq<Event>, received: map<ProcessId, Bytes>, channels: set<ProcessId>) {
    && (forall id {:trigger Received(log, id)} :: Received(log, id) == if id in received then received[id] else [])
    && (forall id {:trigger IsOpen(log, id)} :: IsOpen(log, id) <==> id in channels)
  }

  ghost function ReceivedAfter(
    received: map<ProcessId, Bytes>, channels: set<ProcessId>, e: Event): map<ProcessId, Bytes>
    requires channels <= received.Keys
  {
    match e
    case Spawned(id) => received[id := []]
    case Arrived(m) =>
      if m.StdoutMessage? && m.id in channels then received[m.id := received[m.id] + m.data] else received
    case Failed => received
  }

  ghost function ChannelsAfter(channels: set<ProcessId>, e: Event): set<ProcessId> {
    match e
    case Spawned(id) => channels + {id}
    case Arrived(m) => if m.ExitMessage? then channels - {m.id} else channels
    case Failed => {}
  }

  lemma ReflectsStep(log: seq<Event>, received: map<ProcessId, Bytes>, channels: set<ProcessId>, e: Event)
    requires Reflects(log, received, channels) && channels <= received.Keys
    requires e.Spawned? ==> e.id !in received
    ensures Reflects(log + [e], ReceivedAfter(received, channels, e), ChannelsAfter(channels, e))
  {
    forall id {
      LogStep(log, e, id);
    }
  }

  // ------------------------------------------------------------------------ one channel

  /** What holds of a channel at all times. `registered` says that the spawner still routes
      messages to it, and `started` that the helper was told to start its process. */
  ghost predicate IsSound(c: Channel, received: Bytes, registered: bool, started: bool) {
    && c.handedOut + Concat(c.pending) == received
    && (c.exitCalls == if c.exitEmitted then 1 else 0)
    && (c.exitEmitted ==> c.exited && c.pending == [])
    && (c.exited ==> !registered || !started)
    && (!registered ==> c.exited)
    && (c.exited && !c.exitEmitted ==> c.flushScheduled || c.pending != [])
  }

  function Queue(c: Channel, data: Bytes): Channel {
    c.(pending := c.pending + [data], flushScheduled := true)
  }

  function Exit(c: Channel): Channel {
    c.(exited := true, flushScheduled := true)
  }

  function Take(c: Channel): Channel {
    c.(pending := [], handedOut := c.handedOut + Concat(c.pending), flushScheduled := c.flushScheduled || c.exited)
  }

  /** The callback of a scheduled flush. */
  function Flushed(c: Channel): Channel {
    var d := if c.pending != [] && c.listening
             then c.(pending := [], handedOut := c.handedOut + Concat(c.pending), flushScheduled := false)
             else c.(flushScheduled := false);
    if d.exited && d.pending == [] && !d.exitEmitted then d.(exitEmitted := true, exitCalls := d.exitCalls + 1) else d
  }

  lemma QueueIsSound(c: Channel, received: Bytes, data: Bytes)
    requires IsSound(c, received, true, true)
    ensures IsSound(Queue(c, data), received + data, true, true)
  {
    assert (c.pending + [data])[..|c.pending|] == c.pending;
  }

  lemma TakeIsSound(c: Channel, received: Bytes, registered: bool, started: bool)
    requires IsSound(c, received, registered, started) && c.pending != []
    ensures IsSound(Take(c), received, registered, started)
  {
  }

  lemma FlushIsSound(c: Channel, received: Bytes, registered: bool, started: bool)
    requires IsSound(c, received, registered, started)
    ensures IsSound(Flushed(c), received, registered, started)
  {
  }

  ghost predicate SoundAt(table: map<ProcessId, Channel>, received: map<ProcessId, Bytes>,
                          channels: set<ProcessId>, started: set<ProcessId>, id: ProcessId)
    requires id in table && id in received
  {
    IsSound(table[id], received[id], id in channels, id in started)
  }

  ghost predicate AllSound(table: map<ProcessId, Channel>, received: map<ProcessId, Bytes>,
                           channels: set<ProcessId>, started: set<ProcessId>)
    requires table.Keys <= received.Keys
  {
    forall id {:trigger SoundAt(table, received, channels, started, id)} ::
      id in table ==> SoundAt(table, received, channels, started, id)
  }

  /** A step of one process leaves the others sound. */
  lemma OneStepIsSound(table: map<ProcessId, Channel>, received: map<ProcessId, Bytes>,
                       channels: set<ProcessId>, started: set<ProcessId>,
                       id: ProcessId, c: Channel, bytes: Bytes, channels': set<ProcessId>, started': set<ProcessId>)
    requires table.Keys <= received.Keys && AllSound(table, received, channels, started)
    requires IsSound(c, bytes, id in channels', id in started')
    requires forall i <- table :: i != id ==> (i in channels <==> i in channels') && (i in started <==> i in started')
    ensures AllSound(table[id := c], received[id := bytes], channels', started')
  {
    forall i | i in table && i != id ensures SoundAt(table[id := c], received[id := bytes], channels', started', i) {
      assert SoundAt(table, received, channels, started, i);
    }
  }

  lemma NewIsSound(table: map<ProcessId, Channel>, received: map<ProcessId, Bytes>,
                   channels: set<ProcessId>, started: set<ProcessId>, id: ProcessId)
    requires table.Keys <= received.Keys && AllSound(table, received, channels, started)
    requires id !in table && id !in started
    ensures AllSound(table[id := NEW_CHANNEL], received[id := []], channels + {id}, started)
  {
    OneStepIsSound(table, received, channels, started, id, NEW_CHANNEL, [], channels + {id}, started);
  }

  lemma StartedIsSound(table: map<ProcessId, Channel>, received: map<ProcessId, Bytes>,
                       channels: set<ProcessId>, started: set<ProcessId>, id: ProcessId)
    requires table.Keys <= received.Keys && AllSound(table, received, channels, started)
    requires id in table && !table[id].exited
    ensures AllSound(table, received, channels, started + {id})
  {
    assert SoundAt(table, received, channels, started, id);
    OneStepIsSound(table, received, channels, started, id, table[id], received[id], channels, started + {id});
    assert table[id := table[id]] == table && received[id := received[id]] == received;
  }

  lemma ExitedIsSound(table: map<ProcessId, Channel>, received: map<ProcessId, Bytes>,
                      channels: set<ProcessId>, started: set<ProcessId>, id: ProcessId)
    requires table.Keys <= received.Keys && AllSound(table, received, channels, started)
    requires id in table && !table[id].exitEmitted && (id !in channels || id !in started)
    ensures AllSound(table[id := Exit(table[id])], received, channels, started)
  {
    assert SoundAt(table, received, channels, started, id);
    OneStepIsSound(table, received, channels, started, id, Exit(table[id]), received[id], channels, started);
    assert received[id := received[id]] == received;
  }

  /** When the spawner fails, every registered process exits. */
  lemma FailureIsSound(table: map<ProcessId, Channel>, received: map<ProcessId, Bytes>,
                       channels: set<ProcessId>, started: set<ProcessId>, table': map<ProcessId, Channel>)
    requires table.Keys == table'.Keys && table.Keys <= received.Keys && AllSound(table, received, channels, started)
    requires forall id <- table :: table'[id] == if id in channels then Exit(table[id]) else table[id]
    ensures AllSound(table', received, {}, started)
  {
    forall id | id in table ensures SoundAt(table', received, {}, started, id) {
      assert SoundAt(table, received, channels, started, id);
    }
  }

  lemma EmittedAreUnregistered(table: map<ProcessId, Channel>, received: map<ProcessId, Bytes>,
                               channels: set<ProcessId>, started: set<ProcessId>)
    requires table.Keys <= received.Keys && AllSound(table, received, channels, started)
    ensures forall id <- table :: table[id].exitEmitted && id in started ==> id !in channels
  {
    forall id <- table ensures table[id].exitEmitted && id in started ==> id !in channels {
      assert SoundAt(table, received, channels, started, id);
    }
  }

  class Spawner {
    /** The registered processes. */
    var channels: set<ProcessId>
    /** Every channel that was ever made. */
    var table: map<ProcessId, Channel>
    var results: set<ProcessId>
    var nextId: ProcessId
    var failure: bool
    /** The processes that the helper was told to start. */
    ghost var started: set<ProcessId>
    ghost var log: seq<Event>
    /** The output received for each process. */
    ghost var received: map<ProcessId, Bytes>

    constructor ()
      ensures Valid() && table == map[] && !failure && log == []
    {
      channels, table, results, nextId, failure := {}, map[], {}, 1, false;
      started, log, received := {}, [], map[];
    }

    ghost predicate Valid()
      reads this
    {
      && Reflects(log, received, channels)
      && channels <= table.Keys && started <= table.Keys && received.Keys == table.Keys
      && (forall id <- table :: id < nextId)
      && AllSound(table, received, channels, started)
      && (failure ==> channels !! started)
    }

    /** The other channels are as they were. */
    twostate predicate OnlyChanges(id: ProcessId)
      reads this
    {
      && table.Keys == old(table.Keys) + {id}
      && forall i <- old(table) :: i != id ==> table[i] == old(table[i])
    }

    /** At any time, what a process's consumers have been given, followed by what is pending, is
        exactly what was received for it, in order; its exit listeners ran at most once, and only
        if nothing is pending and the helper can send no more for it. */
    lemma ChannelsAreSound(id: ProcessId)
      requires Valid() && id in table
      ensures table[id].handedOut + Concat(table[id].pending) == Received(log, id)
      ensures table[id].exitCalls <= 1
      ensures table[id].exitCalls == 1 ==> table[id].pending == [] && (!IsOpen(log, id) || id !in started)
      ensures table[id].exited && table[id].exitCalls == 0 ==> table[id].flushScheduled || table[id].pending != []
    {
      assert SoundAt(table, received, channels, started, id);
    }

    /** Starts a process. `sent` tells whether the helper got the whole request; it is not asked
        when the spawner has failed before. */
    method Spawn(sent: bool) returns (id: ProcessId)
      requires Valid()
      modifies this
      ensures Valid()
      ensures id == old(nextId) && id !in old(table) && id in table
      ensures !old(failure) && sent ==> id in started && OnlyChanges(id) && table[id] == NEW_CHANNEL && !failure
      ensures old(failure) || !sent ==> failure && table[id] == Exit(NEW_CHANNEL)
    {
      id := Register();
      if !failure && sent {
        StartedIsSound(table, received, channels, started, id);
        started := started + {id};
      } else {
        Fail();
        ExitedIsSound(table, received, channels, started, id);
        table := table[id := Exit(table[id])];
      }
    }

    /** Makes a channel and registers it, before the helper is told. */
    method Register() returns (id: ProcessId)
      requires Valid()
      modifies this`nextId, this`log, this`received, this`channels, this`table
      ensures Valid()
      ensures id == old(nextId) && id !in old(table) && OnlyChanges(id) && table[id] == NEW_CHANNEL
      ensures channels == old(channels) + {id}
    {
      id, nextId := nextId, nextId + 1;
      NewIsSound(table, received, channels, started, id);
      ReflectsStep(log, received, channels, Spawned(id));
      log, received := log + [Spawned(id)], received[id := []];
      channels, table := channels + {id}, table[id := NEW_CHANNEL];
    }

    /** The spawner is gone: every registered process exits, and no further one is routed. */
    method Fail()
      requires Valid()
      modifies this`failure, this`log, this`channels, this`table
      ensures Valid() && failure
      ensures old(failure) ==> table == old(table) && channels == old(channels)
      ensures !old(failure) ==> channels == {}
      ensures table.Keys == old(table.Keys)
      ensures forall id <- old(table) ::
                table[id] == if !old(failure) && id in old(channels) then Exit(old(table[id])) else old(table[id])
    {
      if failure {
        return;
      }
      failure := true;
      ReflectsStep(log, received, channels, Failed);
      log := log + [Failed];
      ghost var before, registered := table, channels;
      ExitAll();
      FailureIsSound(before, received, registered, started, table);
    }

    method ExitAll()
      requires channels <= table.Keys
      modifies this`channels, this`table
      ensures channels == {} && table.Keys == old(table.Keys)
      ensures forall id <- old(table) ::
                table[id] == if id in old(channels) then Exit(old(table[id])) else old(table[id])
    {
      while channels != {}
        invariant channels <= old(channels) && table.Keys == old(table.Keys)
        invariant forall id <- table ::
                    table[id] == if id in old(channels) - channels then Exit(old(table[id])) else old(table[id])
        decreases channels
      {
        var id :| id in channels;
        table := table[id := Exit(table[id])];
        channels := channels - {id};
      }
    }

    /** A chunk of the helper's output arrived. `messages` are the decoded messages, and `threw`
        tells that it could not be decoded. The helper only talks about processes that it was told
        to start. */
    method Receive(messages: seq<Message>, threw: bool)
      requires Valid()
      requires forall m <- messages :: m.id in started || m.ResultMessage?
      modifies this
      ensures Valid()
      ensures AfterExit()
      ensures !threw ==> log == old(log) + seq(|messages|, i requires 0 <= i < |messages| => Arrived(messages[i]))
    {
      if threw {
        EmittedAreUnregistered(table, received, channels, started);
        Fail();
        return;
      }
      for i := 0 to |messages|
        invariant Valid() && AfterExit()
        invariant log == old(log) + seq(i, j requires 0 <= j < i => Arrived(messages[j]))
      {
        ReceiveOne(messages[i]);
      }
    }

    /** A process whose exit was reported gets no more output. */
    twostate predicate AfterExit()
      reads this
    {
      && started == old(started) && table.Keys == old(table.Keys)
      && forall id <- old(table) :: old(table[id]).exitEmitted && id in started ==> table[id] == old(table[id])
    }

    method ReceiveOne(m: Message)
      requires Valid() && (m.id in started || m.ResultMessage?)
      modifies this`log, this`received, this`results, this`channels, this`table
      ensures Valid() && AfterExit()
      ensures log == old(log) + [Arrived(m)]
    {
      if m.ResultMessage? {
        results := results + {m.id};
        ReflectsStep(log, received, channels, Arrived(m));
        log := log + [Arrived(m)];
      } else if m.id !in channels {
        assert channels - {m.id} == channels;
        ReflectsStep(log, received, channels, Arrived(m));
        log := log + [Arrived(m)];
      } else if m.StdoutMessage? {
        ReceiveOutput(m);
      } else {
        ReceiveExit(m);
      }
    }

    method ReceiveOutput(m: Message)
      requires Valid() && m.StdoutMessage? && m.id in channels && m.id in started
      modifies this`log, this`received, this`table
      ensures Valid() && AfterExit()
      ensures log == old(log) + [Arrived(m)]
    {
      var c := Queue(table[m.id], m.data);
      ghost var bytes := received[m.id] + m.data;
      assert SoundAt(table, received, channels, started, m.id);
      QueueIsSound(table[m.id], received[m.id], m.data);
      OneStepIsSound(table, received, channels, started, m.id, c, bytes, channels, started);
      ReflectsStep(log, received, channels, Arrived(m));
      table, log, received := table[m.id := c], log + [Arrived(m)], received[m.id := bytes];
    }

    method ReceiveExit(m: Message)
      requires Valid() && m.ExitMessage? && m.id in channels && m.id in started
      modifies this`log, this`channels, this`table
      ensures Valid() && AfterExit()
      ensures log == old(log) + [Arrived(m)]
    {
      assert SoundAt(table, received, channels, started, m.id);
      OneStepIsSound(
        table, received, channels, started, m.id, Exit(table[m.id]), received[m.id], channels - {m.id}, started);
      assert received[m.id := received[m.id]] == received;
      table := table[m.id := Exit(table[m.id])];
      ReflectsStep(log, received, channels, Arrived(m));
      log, channels := log + [Arrived(m)], channels - {m.id};
    }

    /** Output for a caller that waits for it: all pending output, or nothing when there is none
        yet or the process has closed its output. */
    method ReadSync(id: ProcessId) returns (output: Option<Bytes>, closed: bool)
      requires Valid() && id in table
      modifies this`table
      ensures Valid() && OnlyChanges(id)
      ensures closed <==> old(table[id]).pending == [] && old(table[id]).exited
      ensures if old(table[id]).pending == [] then output.None? && table == old(table)
              else output == Some(Concat(old(table[id]).pending)) && table[id] == Take(old(table[id]))
    {
      var c := table[id];
      if c.pending == [] {
        return None, c.exited;
      }
      assert SoundAt(table, received, channels, started, id);
      TakeIsSound(c, received[id], id in channels, id in started);
      OneStepIsSound(table, received, channels, started, id, Take(c), received[id], channels, started);
      assert received[id := received[id]] == received;
      table := table[id := Take(c)];
      output, closed := Some(Concat(c.pending)), false;
    }

    /** A consumer starts to listen to the output of a process. */
    method Listen(id: ProcessId)
      requires Valid() && id in table
      modifies this`table
      ensures Valid() && OnlyChanges(id) && table[id] == old(table[id]).(listening := true)
    {
      var c := table[id].(listening := true);
      assert SoundAt(table, received, channels, started, id);
      OneStepIsSound(table, received, channels, started, id, c, received[id], channels, started);
      assert received[id := received[id]] == received;
      table := table[id := c];
    }

    /** The scheduled flush: pending output goes to the listeners, if there are any, and then the
        exit to the exit listeners, once, when nothing is pending. */
    method Flush(id: ProcessId)
      requires Valid() && id in table && table[id].flushScheduled
      modifies this`table
      ensures Valid() && OnlyChanges(id) && table[id] == Flushed(old(table[id]))
    {
      assert SoundAt(table, received, channels, started, id);
      FlushIsSound(table[id], received[id], id in channels, id in started);
      OneStepIsSound(table, received, channels, started, id, Flushed(table[id]), received[id], channels, started);
      assert received[id := received[id]] == received;
      var c := table[id].(flushScheduled := false);
      if c.pending != [] && c.listening {
        c := c.(pending := [], handedOut := c.handedOut + Concat(c.pending));
      }
      if c.exited && c.pending == [] && !c.exitEmitted {
        c := c.(exitEmitted := true, exitCalls := c.exitCalls + 1);
      }
      table := table[id := c];
    }
  }
}
