/** The textual digest of a window that is handed to the embedding backend.
    JSON decoding and RFC 3339 time formatting are passed in as functions. */
module ContextText {
  import opened Wrappers
  import opened Format
  import opened WindowTypes

  /** At most this many messages are rendered into a digest. */
  const SummaryCap := 10

  /** One decoded JSON field: its key and its value as `%v` prints it. The
      decoder chooses the field order, which Go leaves unspecified. */
  datatype Field = Field(name: string, shown: string)

  type Decoder = seq<byte> -> Option<seq<Field>>

  /** Formats a time as RFC 3339; None is Go's zero time. */
  type TimeFormat = Option<int> -> string

  const RawPrefix := "  - Raw Message (Offset: "
  const DetailsPrefix := "  - Message (Offset: "

  /** `min(10, count)`, the loop bound of the digest: how many messages it renders.
      A negative count renders none, as Go's loop then does not run. */
  function Shown(count: int): nat {
    if count < 0 then 0 else if count < SummaryCap then count else SummaryCap
  }

  /** Go's `string(bytes)`: each byte becomes one character. */
  function BytesToString(b: seq<byte>): (s: string)
    ensures |s| == |b| && forall i :: 0 <= i < |b| ==> s[i] as int == b[i]
  {
    seq(|b|, i requires 0 <= i < |b| => b[i] as char)
  }

  /** Reads each character back as the byte with its code; None once a character
      does not fit in a byte. */
  function StringToBytes(s: string): Option<seq<byte>> {
    if forall i :: 0 <= i < |s| ==> s[i] as int < 256
    then Some(seq(|s|, i requires 0 <= i < |s| => s[i] as int))
    else None
  }

  /** `string(bytes)` loses nothing: the bytes are read back unchanged. */
  lemma BytesToStringRoundTrip(b: seq<byte>)
    ensures StringToBytes(BytesToString(b)) == Some(b)
  {
    var s := BytesToString(b);
    assert forall i :: 0 <= i < |s| ==> s[i] as int == b[i] < 256;
    var back: seq<byte> := seq(|s|, i requires 0 <= i < |s| => s[i] as int);
    assert back == b;
  }

  /** Distinct payloads render as distinct strings. */
  lemma BytesToStringInjective(b1: seq<byte>, b2: seq<byte>)
    ensures BytesToString(b1) == BytesToString(b2) <==> b1 == b2
  {
    BytesToStringRoundTrip(b1);
    BytesToStringRoundTrip(b2);
  }

  function FieldLine(f: Field): string {
    "    - " + f.name + ": " + f.shown + "\n"
  }

  function RenderMessage(msg: RawMessage, decode: Decoder): string {
    match decode(msg.value)
    case None =>
      RawPrefix + IntToString(msg.offset) + "): " + BytesToString(msg.value) + "\n"
    case Some(fields) =>
      DetailsPrefix + IntToString(msg.offset) + ") Details:\n"
        + Concat(seq(|fields|, i requires 0 <= i < |fields| => FieldLine(fields[i])))
  }

  /** A payload that does not decode is shown raw instead of failing, and only then. */
  lemma RawFallbackIffUndecodable(msg: RawMessage, decode: Decoder)
    ensures decode(msg.value).None? <==> StartsWith(RenderMessage(msg, decode), RawPrefix)
    ensures decode(msg.value).Some? <==> StartsWith(RenderMessage(msg, decode), DetailsPrefix)
    ensures decode(msg.value).None? ==>
      var r := RenderMessage(msg, decode);
      var body := BytesToString(msg.value) + "\n";
      StartsWith(r, RawPrefix + IntToString(msg.offset) + "): ") && r[|r| - |body|..] == body
  {
    var r := RenderMessage(msg, decode);
    assert RawPrefix[4] != DetailsPrefix[4];
    if decode(msg.value).None? {
      assert r[..|RawPrefix|] == RawPrefix;
      assert r[4] == RawPrefix[4];
    } else {
      assert r[..|DetailsPrefix|] == DetailsPrefix;
      assert r[4] == DetailsPrefix[4];
    }
  }

  function TruncationNotice(omitted: int): string {
    "  ...and " + IntToString(omitted) + " more messages (truncated for summary).\n"
  }

  function NoMessagesLine(w: Window): string {
    "Topic: " + w.topic + ", Window ID: " + w.id + ", No messages in this window."
  }

  /** The first two lines of a digest: the topic and its context. */
  function TopicLines(w: Window): string {
    "Kafka Topic: " + w.topic + "\n" + "Topic Context: " + w.context + "\n"
  }

  /** The window's identity, time range and count, then the list heading. */
  function RangeLines(w: Window, formatTime: TimeFormat): string {
    "Window ID: " + w.id + ", Time Range: " + formatTime(Some(w.startTime)) + " - "
      + formatTime(w.endTime) + ", Total Messages: " + IntToString(w.messageCount) + "\n"
      + "Messages:\n"
  }

  function Header(w: Window, formatTime: TimeFormat): string {
    TopicLines(w) + RangeLines(w, formatTime)
  }

  /** The notice for the messages counted but not rendered, if there are any. */
  function Truncation(count: int): Option<string> {
    if count > Shown(count) then Some(TruncationNotice(count - Shown(count))) else None
  }

  /** The digest before it is flattened to text. */
  datatype Summary =
    | NoMessages(line: string)
    | Digest(header: string, entries: seq<string>, truncation: Option<string>)

  /** The digest indexes the first `Shown(count)` messages, so the counter must not
      run ahead of the buffer there (CountMatches is enough). */
  predicate Renderable(w: Window) {
    |w.messages| > 0 ==> Shown(w.messageCount) <= |w.messages|
  }

  function Summarize(w: Window, decode: Decoder, formatTime: TimeFormat): (s: Summary)
    requires Renderable(w)
    ensures s.NoMessages? <==> |w.messages| == 0
    ensures s.NoMessages? ==> s.line == NoMessagesLine(w)
    ensures s.Digest? ==> StartsWith(s.header, TopicLines(w))
    ensures s.Digest? ==> |s.entries| == Shown(w.messageCount) <= SummaryCap
    ensures s.Digest? ==> forall i :: 0 <= i < |s.entries| ==> s.entries[i] == RenderMessage(w.messages[i], decode)
    ensures s.Digest? ==> (s.truncation.Some? <==> w.messageCount > SummaryCap)
    ensures s.Digest? && s.truncation.Some? ==> s.truncation.value == TruncationNotice(w.messageCount - SummaryCap)
  {
    if |w.messages| == 0 then NoMessages(NoMessagesLine(w))
    else
      PrefixOf(TopicLines(w), RangeLines(w, formatTime));
      TruncationCases(w.messageCount);
      Digest(Header(w, formatTime), Entries(w, decode), Truncation(w.messageCount))
  }

  /** The notice appears exactly when more than ten messages were counted, and
      then it names all but the first ten. */
  lemma TruncationCases(count: int)
    ensures Truncation(count).Some? <==> count > SummaryCap
    ensures count > SummaryCap ==> Truncation(count) == Some(TruncationNotice(count - SummaryCap))
  {
  }

  function Entries(w: Window, decode: Decoder): seq<string>
    requires Shown(w.messageCount) <= |w.messages|
  {
    seq(Shown(w.messageCount), i requires 0 <= i < Shown(w.messageCount) => RenderMessage(w.messages[i], decode))
  }

  function Render(s: Summary): string {
    match s
    case NoMessages(line) => line
    case Digest(header, entries, truncation) => header + Concat(entries) + truncation.GetOr("")
  }

  /** Messages after the tenth never reach the digest: two windows that agree
      on everything but those render to the same text. */
  lemma LaterMessagesNotRendered(w1: Window, w2: Window, decode: Decoder, formatTime: TimeFormat)
    requires Renderable(w1) && Renderable(w2)
    requires w1.(messages := w2.messages) == w2
    requires |w1.messages| > 0 && |w2.messages| > 0
    requires forall i :: 0 <= i < Shown(w1.messageCount) ==> w1.messages[i] == w2.messages[i]
    ensures Render(Summarize(w1, decode, formatTime)) == Render(Summarize(w2, decode, formatTime))
  {
    assert Entries(w1, decode) == Entries(w2, decode);
  }

  /** The text of a non-empty digest, spelled out part by part. */
  lemma RenderDigest(w: Window, decode: Decoder, formatTime: TimeFormat)
    requires |w.messages| > 0 && Renderable(w)
    ensures Render(Summarize(w, decode, formatTime)) == Header(w, formatTime) + Concat(Entries(w, decode))
      + (if w.messageCount > Shown(w.messageCount) then TruncationNotice(w.messageCount - Shown(w.messageCount)) else "")
  {
    assert Summarize(w, decode, formatTime) == Digest(Header(w, formatTime), Entries(w, decode), Truncation(w.messageCount));
  }

  /** The Go code builds the digest with a string builder and never reports an error. */
  method ToContextString(w: Window, decode: Decoder, formatTime: TimeFormat) returns (text: string, err: Option<string>)
    requires Renderable(w)
    ensures err == None
    ensures text == Render(Summarize(w, decode, formatTime))
  {
    err := None;
    if |w.messages| == 0 {
      text := NoMessagesLine(w);
      return;
    }
    var header := Header(w, formatTime);
    var body := RenderEntries(w, decode);
    var limit := Shown(w.messageCount);
    var tail := if w.messageCount > limit then TruncationNotice(w.messageCount - limit) else "";
    RenderDigest(w, decode, formatTime);
    text := header + body + tail;
  }

  /** The summarising loop: the first `min(10, count)` messages, rendered in order. */
  method RenderEntries(w: Window, decode: Decoder) returns (body: string)
    requires Shown(w.messageCount) <= |w.messages|
    ensures body == Concat(Entries(w, decode))
  {
    ghost var entries := Entries(w, decode);
    body := "";
    var limit := Shown(w.messageCount);
    var i := 0;
    while i < limit
      invariant 0 <= i <= Shown(w.messageCount) == |entries|
      invariant body == Concat(entries[..i])
    {
      assert entries[..i + 1][..i] == entries[..i];
      body := body + RenderMessage(w.messages[i], decode);
      i := i + 1;
    }
    assert entries[..i] == entries;
  }
}
