/** Runs of the window manager for a single topic partition, from a fresh manager. */
module Scenarios {
  import opened Wrappers
  import opened WindowTypes
  import opened WindowManager
  import opened ManagerInvariants

  /** All messages belong to the topic partition of the first one. */
  predicate OneKey(msgs: seq<RawMessage>) {
    forall i :: 0 <= i < |msgs| ==> msgs[i].topic == msgs[0].topic && msgs[i].partition == msgs[0].partition
  }

  /** Ingests `msgs` in order, each at its own timestamp, with no other event in between. */
  function IngestAll(m: Manager, msgs: seq<RawMessage>): (r: Manager)
    requires Valid(m)
    ensures Valid(r)
    decreases |msgs|
  {
    if msgs == [] then m
    else WindowManager.AddMessage(IngestAll(m, msgs[..|msgs| - 1]), msgs[|msgs| - 1], msgs[|msgs| - 1].timestamp)
  }

  /** The state after `msgs` went, one by one, into window 0 of a fresh manager. */
  ghost predicate FirstWindowHolds(m: Manager, config: TopicConfig, msgs: seq<RawMessage>)
    requires |msgs| > 0
  {
    var closed := config.windowMaxMessages > 0 && |msgs| >= config.windowMaxMessages;
    && Inv(m)
    && m.config == config
    && m.registry == map[RegistryKey(msgs[0].topic, msgs[0].partition) := 0]
    && 0 in m.instances
    && m.instances[0].messages == msgs
    && m.instances[0].messageCount == |msgs|
    && m.instances[0].isClosed == closed
    && m.processed == (if closed then [0] else [])
    && m.flushers == {0}
    && m.handOffs == (if closed then {0} else {})
  }

  lemma IngestFirst(config: TopicConfig, msgs: seq<RawMessage>)
    requires |msgs| == 1
    ensures FirstWindowHolds(WindowManager.AddMessage(NewManager(config), msgs[0], msgs[0].timestamp), config, msgs)
  {
    assert [msgs[0]] == msgs;
    NewManagerInv(config);
    IngestFresh(NewManager(config), msgs[0], msgs[0].timestamp);
  }

  lemma IngestNext(m: Manager, config: TopicConfig, msgs: seq<RawMessage>)
    requires |msgs| > 1
    requires msgs[|msgs| - 1].topic == msgs[0].topic && msgs[|msgs| - 1].partition == msgs[0].partition
    requires FirstWindowHolds(m, config, msgs[..|msgs| - 1])
    ensures FirstWindowHolds(WindowManager.AddMessage(m, msgs[|msgs| - 1], msgs[|msgs| - 1].timestamp), config, msgs)
  {
    var front, msg := msgs[..|msgs| - 1], msgs[|msgs| - 1];
    assert front[0] == msgs[0];
    assert front + [msg] == msgs;
    IngestStep(m, config, front, msg);
  }

  lemma IngestStep(m: Manager, config: TopicConfig, front: seq<RawMessage>, msg: RawMessage)
    requires |front| > 0
    requires msg.topic == front[0].topic && msg.partition == front[0].partition
    requires FirstWindowHolds(m, config, front)
    ensures FirstWindowHolds(WindowManager.AddMessage(m, msg, msg.timestamp), config, front + [msg])
  {
    assert (front + [msg])[0] == front[0];
    IngestRegistered(m, msg, msg.timestamp);
  }

  /** Without a replacement step in between, every message of one partition goes
      into the first window, identity 0. That window is closed and handed to the
      processor once, as soon as the threshold is reached, and keeps receiving
      messages afterwards. */
  lemma {:induction false} IngestWithoutReplacement(config: TopicConfig, msgs: seq<RawMessage>)
    requires |msgs| > 0 && OneKey(msgs)
    ensures FirstWindowHolds(IngestAll(NewManager(config), msgs), config, msgs)
    decreases |msgs|
  {
    if |msgs| == 1 {
      IngestSingle(config, msgs);
    } else {
      var front := msgs[..|msgs| - 1];
      assert front[0] == msgs[0];
      IngestWithoutReplacement(config, front);
      IngestExtend(config, msgs);
    }
  }

  lemma IngestSingle(config: TopicConfig, msgs: seq<RawMessage>)
    requires |msgs| == 1
    ensures FirstWindowHolds(IngestAll(NewManager(config), msgs), config, msgs)
  {
    IngestAllUnfold(NewManager(config), msgs);
    IngestFirst(config, msgs);
  }

  lemma IngestExtend(config: TopicConfig, msgs: seq<RawMessage>)
    requires |msgs| > 1 && OneKey(msgs)
    requires FirstWindowHolds(IngestAll(NewManager(config), msgs[..|msgs| - 1]), config, msgs[..|msgs| - 1])
    ensures FirstWindowHolds(IngestAll(NewManager(config), msgs), config, msgs)
  {
    IngestAllUnfold(NewManager(config), msgs);
    IngestNext(IngestAll(NewManager(config), msgs[..|msgs| - 1]), config, msgs);
  }

  lemma IngestAllUnfold(m: Manager, msgs: seq<RawMessage>)
    requires Valid(m) && |msgs| > 0
    ensures IngestAll(m, msgs)
      == WindowManager.AddMessage(IngestAll(m, msgs[..|msgs| - 1]), msgs[|msgs| - 1], msgs[|msgs| - 1].timestamp)
    ensures |msgs| == 1 ==> IngestAll(m, msgs[..|msgs| - 1]) == m
  {
  }

  /** With threshold N > 0, N messages close the window with N messages; when
      N + 1 messages arrive before the processor has returned, the last one joins
      that closed window, which then holds more than N messages. */
  lemma ThresholdOvershoot(config: TopicConfig, msgs: seq<RawMessage>)
    requires config.windowMaxMessages > 0 && |msgs| == config.windowMaxMessages + 1 && OneKey(msgs)
    ensures var n := config.windowMaxMessages;
      var closedAtN := IngestAll(NewManager(config), msgs[..n]);
      var r := IngestAll(NewManager(config), msgs);
      && 0 in closedAtN.instances && closedAtN.instances[0].isClosed && closedAtN.instances[0].messageCount == n
      && closedAtN.processed == [0]
      && r.registry == map[RegistryKey(msgs[0].topic, msgs[0].partition) := 0]
      && 0 in r.instances && r.instances[0].isClosed && r.instances[0].messages == msgs
      && r.instances[0].messageCount == n + 1
      && r.processed == [0]
  {
    var n := config.windowMaxMessages;
    assert msgs[..n][0] == msgs[0];
    IngestWithoutReplacement(config, msgs[..n]);
    IngestWithoutReplacement(config, msgs);
  }

  /** The threshold and the timer race for the same window: once the threshold
      has closed it, the timer finds it closed and hands nothing over again. */
  lemma TimerAfterThresholdIsNoOp(config: TopicConfig, msg: RawMessage, now: int)
    requires config.windowMaxMessages == 1
    ensures var m1 := WindowManager.AddMessage(NewManager(config), msg, msg.timestamp);
      && m1.processed == [0] && 0 in m1.flushers
      && Tick(m1, 0, now) == m1
  {
    NewManagerInv(config);
    IngestFresh(NewManager(config), msg, msg.timestamp);
  }

  /** A window closed by the threshold keeps its flusher, which may take the one
      flush signal that `FlushAllWindows` sends for the open successor window:
      the successor stays open and no further flush can reach it. */
  lemma StaleFlusherTakesFlushSignal(config: TopicConfig, msg: RawMessage, t2: int, t3: int, t4: int)
    requires config.windowMaxMessages == 1
    ensures var m1 := WindowManager.AddMessage(NewManager(config), msg, msg.timestamp);
      0 in m1.handOffs &&
      var m2 := Replace(m1, 0, t2);
      var m3 := FlushAllWindows(m2);
      0 in m3.flushers && m3.flushQueued &&
      var m4 := Flush(m3, 0, t3);
      var successor := m4.registry[RegistryKey(msg.topic, msg.partition)];
      && successor != 0
      && !m4.instances[successor].isClosed
      && !m4.flushQueued
      && m4.processed == [0]
      && Step(m4, FlushReceived(successor, t4)) == None
  {
    var key := RegistryKey(msg.topic, msg.partition);
    var m1 := WindowManager.AddMessage(NewManager(config), msg, msg.timestamp);
    FirstMessageCloses(config, msg);
    var m2 := Replace(m1, 0, t2);
    SuccessorRegistered(m1, msg, t2);
    assert AnyOpen(m2);
  }

  /** With threshold 1, the first message closes its window at once. */
  lemma FirstMessageCloses(config: TopicConfig, msg: RawMessage)
    requires config.windowMaxMessages == 1
    ensures var m1 := WindowManager.AddMessage(NewManager(config), msg, msg.timestamp);
      && Inv(m1) && m1.handOffs == {0} && m1.flushers == {0} && m1.processed == [0]
      && m1.registry == map[RegistryKey(msg.topic, msg.partition) := 0]
      && m1.instances[0].isClosed && m1.instances[0].messages == [msg] && !m1.flushQueued
  {
    NewManagerInv(config);
    IngestFresh(NewManager(config), msg, msg.timestamp);
  }

  /** The replacement of the sole closed window registers an open successor. */
  lemma SuccessorRegistered(m1: Manager, msg: RawMessage, t2: int)
    requires Inv(m1) && m1.handOffs == {0} && m1.flushers == {0}
    requires m1.registry == map[RegistryKey(msg.topic, msg.partition) := 0]
    requires m1.instances[0].isClosed && m1.instances[0].messages == [msg]
    requires m1.instances[0].topic == msg.topic && m1.instances[0].partition == msg.partition
    ensures var m2 := Replace(m1, 0, t2);
      var key := RegistryKey(msg.topic, msg.partition);
      && key in m2.registry && m2.registry[key] != 0 && !m2.instances[m2.registry[key]].isClosed
      && m2.flushers == {0, m2.registry[key]} && m2.instances[0] == m1.instances[0]
      && m2.processed == m1.processed && m2.flushQueued == m1.flushQueued
  {
  }

  /** No threshold: a tick closes the window exactly when the configured duration
      has passed since its first message, handing it over with its messages and
      pinning its end time to the tick; the replacement then registers an empty,
      open window started at the replacement time. */
  lemma DurationClosesWindow(config: TopicConfig, msg: RawMessage, now: int, later: int)
    requires config.windowMaxMessages == 0
    ensures var m1 := WindowManager.AddMessage(NewManager(config), msg, msg.timestamp);
      0 in m1.flushers &&
      var m2 := Tick(m1, 0, now);
      && (now - msg.timestamp < config.windowDurationSeconds * NanosPerSecond ==> m2 == m1)
      && (now - msg.timestamp >= config.windowDurationSeconds * NanosPerSecond ==>
            && m2.instances[0].isClosed && m2.instances[0].messages == [msg]
            && m2.instances[0].endTime == Some(now)
            && m2.processed == [0] && 0 in m2.handOffs
            && var m3 := Replace(m2, 0, later);
            var created := m3.registry[RegistryKey(msg.topic, msg.partition)];
            && created != 0 && !m3.instances[created].isClosed && m3.instances[created].messages == []
            && m3.instances[created].startTime == later)
  {
    NewManagerInv(config);
    IngestFresh(NewManager(config), msg, msg.timestamp);
  }
}
