/** The retrieval-augmented prompt sent to the language model: a fixed
    instruction preamble, the retrieved window digests, then the question. */
module RagPrompt {
  import opened Format

  /** The stored projection of a processed window, as returned by the search
      (the embedding vector and raw messages are not used here). */
  datatype EmbeddedWindow = EmbeddedWindow(
    windowId: string,
    topic: string,
    partition: int,
    startTime: int,
    endTime: int,
    messageCount: int,
    contextText: string)

  function Preamble(): string {
    "You are an AI assistant specialized in analyzing Kafka streaming data. "
    + "Use the provided data from Kafka topics to answer the user's question. "
    + "If the answer is not in the provided data, state that you don't have enough information. "
    + "Do NOT make up information.\n\n"
  }

  function DataHeader(): string {
    "--- RELEVANT KAFKA DATA ---\n"
  }

  function NoData(): string {
    "No relevant Kafka data found.\n"
  }

  function Separator(): string {
    "--------------------------\n\n"
  }

  function QuestionLabel(): string {
    "USER QUESTION: "
  }

  /** The block for the window at zero-based position `i`; it is numbered from 1. */
  function Section(i: nat, w: EmbeddedWindow): string {
    "--- Window " + IntToString(i + 1) + " (Topic: " + w.topic + ", ID: " + w.windowId + ") ---\n"
      + w.contextText + "\n\n"
  }

  /** One block per window, in input order. */
  function Sections(ws: seq<EmbeddedWindow>): (blocks: seq<string>)
    ensures |blocks| == |ws|
    ensures forall i :: 0 <= i < |ws| ==> blocks[i] == Section(i, ws[i])
  {
    seq(|ws|, i requires 0 <= i < |ws| => Section(i, ws[i]))
  }

  function DataSection(ws: seq<EmbeddedWindow>): string {
    if ws == [] then NoData() else Concat(Sections(ws))
  }

  /** Everything before the question. */
  function Frame(ws: seq<EmbeddedWindow>): string {
    Preamble() + DataHeader() + DataSection(ws) + Separator() + QuestionLabel()
  }

  /** The reference layout of the whole prompt. */
  function Prompt(userPrompt: string, ws: seq<EmbeddedWindow>): (r: string)
    ensures StartsWith(r, Preamble() + DataHeader())
    ensures EndsWith(r, Separator() + QuestionLabel() + userPrompt + "\n")
    ensures ws == [] ==> r == Preamble() + DataHeader() + NoData() + Separator() + QuestionLabel() + userPrompt + "\n"
  {
    Layout(Preamble() + DataHeader(), DataSection(ws), Separator(), QuestionLabel(), userPrompt, "\n");
    Frame(ws) + userPrompt + "\n"
  }

  /** A text built from parts starts with its head and ends with its tail parts. */
  lemma Layout(head: string, data: string, sep: string, question: string, prompt: string, nl: string)
    ensures StartsWith(head + data + sep + question + prompt + nl, head)
    ensures EndsWith(head + data + sep + question + prompt + nl, sep + question + prompt + nl)
  {
    var r := head + data + sep + question + prompt + nl;
    assert r[..|head|] == head;
    assert r[|head + data|..] == sep + question + prompt + nl;
  }

  /** The block of the window at position `i` sits, whole, between the blocks
      of the windows before it and those after it. */
  lemma SectionInPlace(ws: seq<EmbeddedWindow>, i: nat)
    requires i < |ws|
    ensures DataSection(ws) == Concat(Sections(ws)[..i]) + Section(i, ws[i]) + Concat(Sections(ws)[i + 1..])
  {
    ConcatSplit(Sections(ws), i);
  }

  /** The question is recovered verbatim from the prompt, so distinct questions give distinct prompts. */
  lemma QuestionRecoverable(p1: string, p2: string, ws: seq<EmbeddedWindow>)
    ensures Prompt(p1, ws) == Prompt(p2, ws) <==> p1 == p2
  {
    var f := Frame(ws);
    if Prompt(p1, ws) == Prompt(p2, ws) {
      assert (f + p1 + "\n")[|f|..|f| + |p1|] == p1;
      assert (f + p2 + "\n")[|f|..|f| + |p2|] == p2;
    }
  }

  /** The Go loop: one block per retrieved window, in order, numbered from 1. */
  method BuildRAGPrompt(userPrompt: string, contextWindows: seq<EmbeddedWindow>) returns (r: string)
    ensures r == Prompt(userPrompt, contextWindows)
  {
    var sb := Preamble() + DataHeader();
    if |contextWindows| == 0 {
      sb := sb + NoData();
    } else {
      ghost var blocks := Sections(contextWindows);
      var data := "";
      var i := 0;
      while i < |contextWindows|
        invariant 0 <= i <= |contextWindows|
        invariant data == Concat(blocks[..i])
      {
        assert blocks[..i + 1][..i] == blocks[..i];
        data := data + Section(i, contextWindows[i]);
        i := i + 1;
      }
      assert blocks[..i] == blocks;
      sb := sb + data;
    }
    r := sb + Separator() + QuestionLabel() + userPrompt + "\n";
  }
}
