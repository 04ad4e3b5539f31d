/** The window manager of one topic as a state machine. Each region the Go code
    runs under the manager's mutex is one transition; wall-clock time is the
    `now` argument (Unix nanoseconds). Window instances live in a heap indexed
    by `Ref`, because timer goroutines keep hold of windows after the
    registry has let go of them. */
module WindowManager {
  import opened Wrappers
  import opened Format
  import opened WindowTypes

  /** The identity of one window instance (a Go `*Window`). */
  type Ref = nat

  const NanosPerSecond := 1_000_000_000

  /** The per-topic settings the manager reads. */
  datatype TopicConfig = TopicConfig(
    name: string,
    context: string,
    windowDurationSeconds: int,
    windowMaxMessages: int)

  datatype Manager = Manager(
    config: TopicConfig,
    // every window instance ever created
    instances: map<Ref, Window>,
    // `topic_partition` -> the window currently registered for it
    registry: map<string, Ref>,
    // the next fresh instance identity
    nextRef: Ref,
    // windows whose time-based flusher goroutine is still running
    flushers: set<Ref>,
    // closed windows whose processing goroutine has not yet replaced them
    handOffs: set<Ref>,
    // the windows handed to the processor, in hand-off order
    processed: seq<Ref>,
    // the single buffered slot of the flush channel is full
    flushQueued: bool)

  /** `fmt.Sprintf("%s_%d", topic, partition)`. */
  function RegistryKey(topic: string, partition: int): string {
    Join(topic, IntToString(partition))
  }

  function KeyOf(w: Window): string {
    RegistryKey(w.topic, w.partition)
  }

  /** Registry keys name topic and partition unambiguously. */
  lemma RegistryKeyInjective(t1: string, p1: int, t2: string, p2: int)
    ensures RegistryKey(t1, p1) == RegistryKey(t2, p2) <==> t1 == t2 && p1 == p2
  {
    JoinInjective(t1, IntToString(p1), t2, IntToString(p2));
    IntToStringInjective(p1, p2);
  }

  /** Every reference the manager holds points at an allocated instance. */
  predicate Valid(m: Manager) {
    && (forall k :: k in m.registry ==> m.registry[k] in m.instances)
    && m.flushers <= m.instances.Keys
    && m.handOffs <= m.instances.Keys
    && (forall r :: r in m.instances ==> r < m.nextRef)
  }

  /** Some registered window is still open. */
  predicate AnyOpen(m: Manager)
    requires Valid(m)
  {
    exists k :: k in m.registry && !m.instances[m.registry[k]].isClosed
  }

  function NewManager(config: TopicConfig): (m: Manager)
    ensures Valid(m) && m.config == config
    ensures m.registry == map[] && m.instances == map[] && m.flushers == {} && m.handOffs == {}
    ensures m.processed == [] && !m.flushQueued
  {
    Manager(config, map[], map[], 0, {}, {}, [], false)
  }

  /** Allocates a fresh window, registers it under its key and starts its flusher. */
  function Install(m: Manager, topic: string, partition: int, startTime: int): (r: Manager)
    requires Valid(m)
    ensures Valid(r)
    ensures m.nextRef !in m.instances && r.nextRef == m.nextRef + 1
    ensures r.instances == m.instances[m.nextRef := NewWindow(topic, partition, startTime, m.config.context)]
    ensures r.registry == m.registry[RegistryKey(topic, partition) := m.nextRef]
    ensures r.flushers == m.flushers + {m.nextRef}
    ensures r.config == m.config && r.handOffs == m.handOffs && r.processed == m.processed
    ensures r.flushQueued == m.flushQueued
  {
    var ref := m.nextRef;
    m.(instances := m.instances[ref := NewWindow(topic, partition, startTime, m.config.context)],
       registry := m.registry[RegistryKey(topic, partition) := ref],
       nextRef := ref + 1,
       flushers := m.flushers + {ref})
  }

  /** `Start`: registers a fresh, open, empty window for the configured topic and
      starts its flusher. A window already registered under the key is overwritten. */
  function Start(m: Manager, partition: int, now: int): (r: Manager)
    requires Valid(m)
    ensures Valid(r)
    ensures var key := RegistryKey(m.config.name, partition);
      && key in r.registry
      && r.registry[key] !in m.instances
      && r.registry[key] in r.flushers
      && var w := r.instances[r.registry[key]];
      && w.topic == m.config.name && w.partition == partition && w.context == m.config.context
      && w.startTime == now && !w.isClosed && w.messages == [] && w.messageCount == 0
    ensures forall k :: k in m.registry && k != RegistryKey(m.config.name, partition) ==>
      k in r.registry && r.registry[k] == m.registry[k]
    ensures forall ref :: ref in m.instances ==> ref in r.instances && r.instances[ref] == m.instances[ref]
    ensures r.processed == m.processed && r.handOffs == m.handOffs && r.flushQueued == m.flushQueued
    ensures var key := RegistryKey(m.config.name, partition);
      && key in r.registry
      && r.flushers == m.flushers + {r.registry[key]}
      && r.nextRef == m.nextRef + 1
      && r.config == m.config
  {
    Install(m, m.config.name, partition, now)
  }

  /** The synchronous half of `closeWindow`: a no-op on a closed window; otherwise
      it marks the window closed, pins its end time to `now` and hands it to the
      processor. The registry is not touched. */
  function CloseWindow(m: Manager, ref: Ref, now: int): (r: Manager)
    requires Valid(m) && ref in m.instances
    ensures Valid(r) && r.instances.Keys == m.instances.Keys
    ensures m.instances[ref].isClosed ==> r == m
    ensures !m.instances[ref].isClosed ==>
      && r.instances[ref] == m.instances[ref].(isClosed := true, endTime := Some(now))
      && r.processed == m.processed + [ref]
      && r.handOffs == m.handOffs + {ref}
    ensures r.instances[ref].isClosed
    ensures forall o :: o in m.instances && o != ref ==> r.instances[o] == m.instances[o]
    ensures r.registry == m.registry && r.flushers == m.flushers && r.nextRef == m.nextRef
    ensures r.flushQueued == m.flushQueued && r.config == m.config
  {
    var w := m.instances[ref];
    if w.isClosed then m
    else
      m.(instances := m.instances[ref := w.(isClosed := true, endTime := Some(now))],
         handOffs := m.handOffs + {ref},
         processed := m.processed + [ref])
  }

  /** The count threshold: `WindowMaxMessages > 0 && MessageCount >= WindowMaxMessages`. */
  predicate ReachedMax(config: TopicConfig, w: Window) {
    config.windowMaxMessages > 0 && w.messageCount >= config.windowMaxMessages
  }

  /** `AddMessage`: finds or lazily creates the window for `topic_partition`,
      appends the message to it whether or not it is closed, and closes it once
      the count threshold is reached. */
  function AddMessage(m: Manager, msg: RawMessage, now: int): (r: Manager)
    requires Valid(m)
    ensures Valid(r)
    ensures var key := RegistryKey(msg.topic, msg.partition);
      && key in r.registry
      && (key in m.registry ==> r.registry == m.registry && r.nextRef == m.nextRef)
      && (key !in m.registry ==>
            && r.registry == m.registry[key := m.nextRef]
            && r.instances[m.nextRef].startTime == msg.timestamp
            && r.instances[m.nextRef].topic == msg.topic
            && r.instances[m.nextRef].partition == msg.partition
            && r.instances[m.nextRef].context == m.config.context)
      && var ref := r.registry[key];
      && var before := if key in m.registry then m.instances[ref].messages else [];
      && r.instances[ref].messages == before + [msg]
      && r.instances[ref].endTime == (if r.instances[ref].isClosed && !(key in m.registry && m.instances[ref].isClosed)
                                     then Some(now) else Some(msg.timestamp))
      && (ReachedMax(m.config, r.instances[ref]) ==> r.instances[ref].isClosed)
      && (!ReachedMax(m.config, r.instances[ref]) ==>
            r.instances[ref].isClosed == (key in m.registry && m.instances[ref].isClosed))
      && (forall o :: o in m.instances && o != ref ==> o in r.instances && r.instances[o] == m.instances[o])
    ensures r.processed == m.processed || |r.processed| == |m.processed| + 1
    ensures m.processed <= r.processed
    ensures r.flushQueued == m.flushQueued && r.config == m.config
  {
    var m1 := WindowFor(m, msg);
    var ref := m1.registry[RegistryKey(msg.topic, msg.partition)];
    var m2 := Append(m1, ref, msg);
    if ReachedMax(m.config, m2.instances[ref]) then CloseWindow(m2, ref, now) else m2
  }

  /** The registry lookup of `AddMessage`, creating and registering a window
      (started at the message's timestamp, with its flusher) when the key has none. */
  function WindowFor(m: Manager, msg: RawMessage): (r: Manager)
    requires Valid(m)
    ensures Valid(r)
    ensures var key := RegistryKey(msg.topic, msg.partition);
      && key in r.registry
      && (key in m.registry ==> r == m)
      && (key !in m.registry ==>
            && m.nextRef !in m.instances && r.nextRef == m.nextRef + 1
            && r.registry == m.registry[key := m.nextRef]
            && r.instances.Keys == m.instances.Keys + {m.nextRef}
            && r.flushers == m.flushers + {m.nextRef}
            && var w := r.instances[m.nextRef];
            && w.topic == msg.topic && w.partition == msg.partition && w.context == m.config.context
            && w.startTime == msg.timestamp && !w.isClosed && w.messages == [] && w.messageCount == 0)
    ensures forall o :: o in m.instances ==> o in r.instances && r.instances[o] == m.instances[o]
    ensures r.processed == m.processed && r.handOffs == m.handOffs
    ensures r.flushQueued == m.flushQueued && r.config == m.config
  {
    if RegistryKey(msg.topic, msg.partition) in m.registry then m
    else Install(m, msg.topic, msg.partition, msg.timestamp)
  }

  /** `Window.AddMessage` on the instance `ref`: only that window changes, by
      gaining `msg` as its last message. */
  function Append(m: Manager, ref: Ref, msg: RawMessage): (r: Manager)
    requires Valid(m) && ref in m.instances
    ensures Valid(r) && r.instances.Keys == m.instances.Keys
    ensures var w := m.instances[ref];
      var n := r.instances[ref];
      && n.messages == w.messages + [msg]
      && n.messageCount == w.messageCount + 1
      && n.endTime == Some(msg.timestamp)
      && n.(messages := w.messages, messageCount := w.messageCount, endTime := w.endTime) == w
    ensures forall o :: o in m.instances && o != ref ==> r.instances[o] == m.instances[o]
    ensures r.(instances := m.instances) == m
  {
    m.(instances := m.instances[ref := WindowTypes.AddMessage(m.instances[ref], msg)])
  }

  /** The time limit `WindowDurationSeconds` in nanoseconds. */
  function Duration(config: TopicConfig): int {
    config.windowDurationSeconds * NanosPerSecond
  }

  /** The ticker branch of `timeBasedFlusher` for window `ref`: closes the window,
      and ends the flusher, only when it is open and at least the configured
      duration has passed since its start time; otherwise nothing changes. */
  function Tick(m: Manager, ref: Ref, now: int): (r: Manager)
    requires Valid(m) && ref in m.flushers
    ensures Valid(r) && r.instances.Keys == m.instances.Keys
    ensures var w := m.instances[ref];
      var due := !w.isClosed && now - w.startTime >= Duration(m.config);
      && (due ==> r.instances[ref].isClosed && r.processed == m.processed + [ref]
                  && r.flushers == m.flushers - {ref} && r.handOffs == m.handOffs + {ref})
      && (due ==> r.instances == m.instances[ref := w.(isClosed := true, endTime := Some(now))])
      && (!due ==> r == m)
    ensures r.registry == m.registry && r.flushQueued == m.flushQueued
    ensures r.nextRef == m.nextRef && r.config == m.config
    ensures forall o :: o in m.instances && o != ref ==> r.instances[o] == m.instances[o]
  {
    var w := m.instances[ref];
    if !w.isClosed && now - w.startTime >= Duration(m.config) then
      CloseWindow(m, ref, now).(flushers := m.flushers - {ref})
    else m
  }

  /** The flush branch of `timeBasedFlusher`: the flusher of `ref` takes the
      queued flush signal, closes its window if it is still open, and ends. */
  function Flush(m: Manager, ref: Ref, now: int): (r: Manager)
    requires Valid(m) && ref in m.flushers && m.flushQueued
    ensures Valid(r) && r.instances.Keys == m.instances.Keys
    ensures !r.flushQueued && r.flushers == m.flushers - {ref}
    ensures r.instances[ref].isClosed
    ensures m.instances[ref].isClosed ==> r.instances == m.instances && r.processed == m.processed
    ensures m.instances[ref].isClosed ==> r.handOffs == m.handOffs
    ensures !m.instances[ref].isClosed ==> r.processed == m.processed + [ref] && r.handOffs == m.handOffs + {ref}
    ensures !m.instances[ref].isClosed ==>
      r.instances == m.instances[ref := m.instances[ref].(isClosed := true, endTime := Some(now))]
    ensures r.registry == m.registry && r.nextRef == m.nextRef && r.config == m.config
    ensures forall o :: o in m.instances && o != ref ==> r.instances[o] == m.instances[o]
  {
    var m1 := m.(flushQueued := false, flushers := m.flushers - {ref});
    if !m.instances[ref].isClosed then CloseWindow(m1, ref, now) else m1
  }

  /** The deferred half of `closeWindow`, run once the processor has returned
      (with or without an error, which is only logged): the key of the closed
      window is given a fresh, open, empty window with its own flusher. */
  function Replace(m: Manager, ref: Ref, now: int): (r: Manager)
    requires Valid(m) && ref in m.handOffs
    ensures Valid(r)
    ensures var w := m.instances[ref];
      var key := KeyOf(w);
      && r.handOffs == m.handOffs - {ref}
      && key in r.registry && r.registry[key] !in m.instances
      && r.flushers == m.flushers + {r.registry[key]}
      && var n := r.instances[r.registry[key]];
      && n.topic == w.topic && n.partition == w.partition && n.context == m.config.context
      && n.startTime == now && !n.isClosed && n.messages == [] && n.messageCount == 0
    ensures forall k :: k in m.registry && k != KeyOf(m.instances[ref]) ==> k in r.registry && r.registry[k] == m.registry[k]
    ensures forall o :: o in m.instances ==> o in r.instances && r.instances[o] == m.instances[o]
    ensures r.processed == m.processed && r.flushQueued == m.flushQueued
  {
    var w := m.instances[ref];
    Install(Retire(m, ref), w.topic, w.partition, now)
  }

  /** The `delete` in the replacement step: the hand-off is no longer awaited and
      the window's key leaves the registry. */
  function Retire(m: Manager, ref: Ref): (r: Manager)
    requires Valid(m) && ref in m.handOffs
    ensures Valid(r)
    ensures var key := KeyOf(m.instances[ref]);
      && key !in r.registry
      && r.registry.Keys == m.registry.Keys - {key}
      && forall k :: k in r.registry ==> r.registry[k] == m.registry[k]
    ensures ref !in r.handOffs && r.handOffs == m.handOffs - {ref}
    ensures r.(handOffs := m.handOffs, registry := m.registry) == m
  {
    m.(handOffs := m.handOffs - {ref}, registry := m.registry - {KeyOf(m.instances[ref])})
  }

  /** `FlushAllWindows`: fills the one-slot flush channel if some registered window
      is open; a signal sent while the slot is full is dropped. Nothing else changes. */
  function FlushAllWindows(m: Manager): (r: Manager)
    requires Valid(m)
    ensures r.(flushQueued := m.flushQueued) == m
    ensures r.flushQueued <==> m.flushQueued || AnyOpen(m)
  {
    if AnyOpen(m) then m.(flushQueued := true) else m
  }

  /** What can happen next. */
  datatype Event =
    | StartPartition(partition: int, now: int)
    | Ingest(msg: RawMessage, now: int)
    | TimerTick(ref: Ref, now: int)
    | FlushReceived(ref: Ref, now: int)
    | ProcessingDone(ref: Ref, now: int)
    | FlushAll

  /** A timer event needs a running flusher, a flush also a queued signal, and a
      replacement an outstanding hand-off; otherwise the event cannot occur (None). */
  predicate Enabled(m: Manager, e: Event) {
    match e
    case TimerTick(ref, _) => ref in m.flushers
    case FlushReceived(ref, _) => ref in m.flushers && m.flushQueued
    case ProcessingDone(ref, _) => ref in m.handOffs
    case _ => true
  }

  function Step(m: Manager, e: Event): (r: Option<Manager>)
    requires Valid(m)
    ensures r.Some? <==> Enabled(m, e)
    ensures r.Some? ==> Valid(r.value) && r.value.config == m.config
  {
    match e
    case StartPartition(p, now) => Some(Start(m, p, now))
    case Ingest(msg, now) => Some(AddMessage(m, msg, now))
    case TimerTick(ref, now) => if ref in m.flushers then Some(Tick(m, ref, now)) else None
    case FlushReceived(ref, now) =>
      if ref in m.flushers && m.flushQueued then Some(Flush(m, ref, now)) else None
    case ProcessingDone(ref, now) => if ref in m.handOffs then Some(Replace(m, ref, now)) else None
    case FlushAll => Some(FlushAllWindows(m))
  }

  /** Runs the events in order; None if one of them cannot occur. */
  function Run(m: Manager, events: seq<Event>): (r: Option<Manager>)
    requires Valid(m)
    ensures r.Some? ==> Valid(r.value)
    decreases |events|
  {
    if events == [] then Some(m)
    else
      match Step(m, events[0])
      case None => None
      case Some(m') => Run(m', events[1..])
  }
}
