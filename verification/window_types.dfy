/** The window entity: a bounded run of messages from one topic partition.
    Times are Unix nanoseconds; `None` stands for Go's zero `time.Time`. */
module WindowTypes {
  import opened Wrappers
  import opened Format

  type byte = b: int | 0 <= b < 256

  /** One record read from a topic partition. */
  datatype RawMessage = RawMessage(
    topic: string,
    partition: int,
    offset: int,
    key: seq<byte>,
    value: seq<byte>,
    timestamp: int)

  datatype Window = Window(
    id: string,
    topic: string,
    partition: int,
    startTime: int,
    endTime: Option<int>,
    messages: seq<RawMessage>,
    context: string,
    isClosed: bool,
    messageCount: int)

  /** The counter agrees with the number of buffered messages. */
  predicate CountMatches(w: Window) {
    w.messageCount == |w.messages|
  }

  /** `topic_partition_startNanos`. */
  function WindowId(topic: string, partition: int, startTime: int): string {
    Join(Join(topic, IntToString(partition)), IntToString(startTime))
  }

  /** Two window IDs coincide exactly when topic, partition and start time do,
      so two windows of one partition opened in the same nanosecond share an ID. */
  lemma WindowIdInjective(t1: string, p1: int, s1: int, t2: string, p2: int, s2: int)
    ensures WindowId(t1, p1, s1) == WindowId(t2, p2, s2) <==> t1 == t2 && p1 == p2 && s1 == s2
  {
    JoinInjective(Join(t1, IntToString(p1)), IntToString(s1), Join(t2, IntToString(p2)), IntToString(s2));
    JoinInjective(t1, IntToString(p1), t2, IntToString(p2));
    IntToStringInjective(p1, p2);
    IntToStringInjective(s1, s2);
  }

  function NewWindow(topic: string, partition: int, startTime: int, topicContext: string): (w: Window)
    ensures SplitLast(w.id) == Some((Join(topic, IntToString(partition)), IntToString(startTime)))
    ensures w.topic == topic && w.partition == partition && w.context == topicContext
    ensures w.startTime == startTime && w.endTime == None
    ensures !w.isClosed && w.messages == [] && w.messageCount == 0
    ensures CountMatches(w)
  {
    JoinSplitRoundTrip(Join(topic, IntToString(partition)), IntToString(startTime));
    Window(WindowId(topic, partition, startTime), topic, partition, startTime, None, [], topicContext, false, 0)
  }

  /** Appends `msg`; the window's closed flag is not consulted. */
  function AddMessage(w: Window, msg: RawMessage): (r: Window)
    ensures |r.messages| == |w.messages| + 1
    ensures r.messages[..|w.messages|] == w.messages && r.messages[|w.messages|] == msg
    ensures r.messageCount == w.messageCount + 1
    ensures r.endTime == Some(msg.timestamp)
    ensures r.id == w.id && r.topic == w.topic && r.partition == w.partition
    ensures r.startTime == w.startTime && r.context == w.context && r.isClosed == w.isClosed
    ensures CountMatches(w) ==> CountMatches(r)
  {
    w.(messages := w.messages + [msg], messageCount := w.messageCount + 1, endTime := Some(msg.timestamp))
  }

  /** Appends each message of `msgs` in turn. */
  function AddAll(w: Window, msgs: seq<RawMessage>): Window
    decreases |msgs|
  {
    if msgs == [] then w else AddAll(AddMessage(w, msgs[0]), msgs[1..])
  }

  lemma {:induction false} AddAllAppends(w: Window, msgs: seq<RawMessage>)
    ensures AddAll(w, msgs).messages == w.messages + msgs
    ensures AddAll(w, msgs).messageCount == w.messageCount + |msgs|
    ensures AddAll(w, msgs).endTime == if msgs == [] then w.endTime else Some(msgs[|msgs| - 1].timestamp)
    ensures AddAll(w, msgs).(messages := w.messages, messageCount := w.messageCount, endTime := w.endTime) == w
    decreases |msgs|
  {
    if msgs != [] {
      AddAllAppends(AddMessage(w, msgs[0]), msgs[1..]);
      assert w.messages + [msgs[0]] + msgs[1..] == w.messages + msgs;
    }
  }

  /** From NewWindow onward the counter always equals the number of messages,
      and the window holds exactly the appended messages in arrival order. */
  lemma CountTracksMessages(topic: string, partition: int, startTime: int, topicContext: string, msgs: seq<RawMessage>)
    ensures var w := AddAll(NewWindow(topic, partition, startTime, topicContext), msgs);
      CountMatches(w) && w.messages == msgs && !w.isClosed
  {
    AddAllAppends(NewWindow(topic, partition, startTime, topicContext), msgs);
  }

  /** The end time is the last appended message's time, not the latest one seen. */
  lemma EndTimeFollowsLastMessage(w: Window, early: RawMessage, late: RawMessage)
    requires early.timestamp < late.timestamp
    ensures AddMessage(AddMessage(w, late), early).endTime.value < AddMessage(w, late).endTime.value
  {
  }
}
