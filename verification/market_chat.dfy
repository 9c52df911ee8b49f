/**
 * The chat widget's transcript machine: the `MarketChat` component's state
 * (`messages`, `input`, `isTyping`) and its send handler, which appends the
 * user's message, streams the model's reply into one message slot chunk by
 * chunk, and appends a fixed notice when the exchange fails.
 *
 * The chat service is foreign: a send is given the reply it will get, either
 * no stream at all or the stream's chunks followed by its normal end or a
 * break. Each `setMessages` call is recorded, with the transcript it sets
 * and the typing flag at that moment, so that the updates made along the way
 * can be stated, not only the final transcript.
 */
module MarketChatModel {
  import opened JsText

  datatype Role = User | Model

  /** One transcript entry, `{ role, text }`. */
  datatype Message = Message(role: Role, text: string)

  const WelcomeText: string := "Welcome to the ARGUS Oracle. I am prepared to provide tactical intelligence on Toronto's most prestigious real estate enclaves. How may I assist your strategy today?"
  const DisruptedText: string := "Connection to the Oracle disrupted. Please verify security clearance and try again."

  /** The model message a send appends when the exchange fails. */
  const Disrupted: Message := Message(Model, DisruptedText)

  /** One streamed chunk; its `text` may be missing. */
  datatype Chunk = Chunk(text: Option<string>)

  /** How the stream finishes once its chunks have been delivered. */
  datatype Ending = Completed | Broken

  /**
   * What the chat service does with a send: fail before a stream exists
   * (creating the chat or sending the message throws), or deliver the given
   * chunks and then end normally or throw.
   */
  datatype Reply = Unavailable | Streamed(chunks: seq<Chunk>, ending: Ending)

  /** `chunk.text || ''`. */
  function ChunkText(c: Chunk): string {
    match c.text
    case Some(t) => t
    case None => ""
  }

  /** The text streamed so far: every chunk's text, in order, a missing one counting as "". */
  function StreamedText(chunks: seq<Chunk>): string {
    if chunks == [] then "" else StreamedText(chunks[..|chunks| - 1]) + ChunkText(chunks[|chunks| - 1])
  }

  /** The streamed text is the concatenation of the texts of the parts of the stream. */
  lemma {:induction false} StreamedTextAppend(a: seq<Chunk>, b: seq<Chunk>)
    ensures StreamedText(a + b) == StreamedText(a) + StreamedText(b)
    decreases |b|
  {
    if b == [] {
      assert a + b == a;
    } else {
      var b' := b[..|b| - 1];
      assert (a + b)[..|a + b| - 1] == a + b';
      StreamedTextAppend(a, b');
    }
  }

  /** The streamed message only grows: the text after `k` chunks is a prefix of the text after all of them. */
  lemma StreamedTextGrows(chunks: seq<Chunk>, k: nat)
    requires k <= |chunks|
    ensures var partial := StreamedText(chunks[..k]);
      |partial| <= |StreamedText(chunks)| && StreamedText(chunks)[..|partial|] == partial
  {
    assert chunks == chunks[..k] + chunks[k..];
    StreamedTextAppend(chunks[..k], chunks[k..]);
  }

  /**
   * The chunk updater `prev => { updated = [...prev]; updated[updated.length - 1] = m }`:
   * the same transcript with its last entry overwritten. An empty transcript
   * has no last entry (assigning index -1 of an array adds no element), so it
   * comes back unchanged.
   */
  function ReplaceLast(prev: seq<Message>, m: Message): (r: seq<Message>)
    ensures |r| == |prev|
    ensures forall i :: 0 <= i < |prev| - 1 ==> r[i] == prev[i]
    ensures prev != [] ==> r[|r| - 1] == m
    ensures prev == [] ==> r == []
  {
    if prev == [] then prev else prev[|prev| - 1 := m]
  }

  /** Overwriting the last entry twice leaves only the second write. */
  lemma ReplaceLastTwice(prev: seq<Message>, m: Message, m': Message)
    ensures ReplaceLast(ReplaceLast(prev, m), m') == ReplaceLast(prev, m')
  {
  }

  /**
   * The transcripts set while chunks arrive, one per chunk: `streaming`
   * (the transcript ending in the empty model message) with its last entry
   * holding the text streamed so far.
   */
  function ChunkUpdates(streaming: seq<Message>, chunks: seq<Chunk>): (rs: seq<seq<Message>>)
    ensures |rs| == |chunks|
  {
    if chunks == [] then []
    else ChunkUpdates(streaming, chunks[..|chunks| - 1])
         + [ReplaceLast(streaming, Message(Model, StreamedText(chunks)))]
  }

  /** One more chunk extends the streamed text by its text, and the updates by one transcript. */
  lemma ChunkStep(streaming: seq<Message>, chunks: seq<Chunk>, k: nat)
    requires k < |chunks|
    ensures StreamedText(chunks[..k + 1]) == StreamedText(chunks[..k]) + ChunkText(chunks[k])
    ensures ChunkUpdates(streaming, chunks[..k + 1])
         == ChunkUpdates(streaming, chunks[..k]) + [ReplaceLast(streaming, Message(Model, StreamedText(chunks[..k + 1])))]
  {
    assert chunks[..k + 1][..k] == chunks[..k];
  }

  /**
   * After chunk `k` the transcript has the length it had when streaming
   * began, every entry but the last is untouched, and the last is a model
   * message holding the text of chunks `0 .. k`.
   */
  lemma {:induction false} ChunkUpdateAt(streaming: seq<Message>, chunks: seq<Chunk>, k: nat)
    requires streaming != [] && k < |chunks|
    ensures var update := ChunkUpdates(streaming, chunks)[k];
      && |update| == |streaming|
      && update[..|streaming| - 1] == streaming[..|streaming| - 1]
      && update[|streaming| - 1] == Message(Model, StreamedText(chunks[..k + 1]))
    decreases |chunks|
  {
    var n := |chunks|;
    var init := chunks[..n - 1];
    if k < n - 1 {
      ChunkUpdateAt(streaming, init, k);
      assert init[..k + 1] == chunks[..k + 1];
      assert ChunkUpdates(streaming, chunks)[k] == ChunkUpdates(streaming, init)[k];
    } else {
      assert chunks[..k + 1] == chunks;
      var update := ReplaceLast(streaming, Message(Model, StreamedText(chunks)));
      assert ChunkUpdates(streaming, chunks)[k] == update;
      assert update[..|streaming| - 1] == streaming[..|streaming| - 1];
    }
  }

  /**
   * The transcript a send leaves behind, from `sent` (the transcript with the
   * user's message appended): the failure notice when there is no stream; the
   * model message holding all the streamed text when the stream ends
   * normally; that message and then the failure notice when it breaks.
   */
  function Answered(sent: seq<Message>, reply: Reply): seq<Message> {
    match reply
    case Unavailable => sent + [Disrupted]
    case Streamed(chunks, Completed) => sent + [Message(Model, StreamedText(chunks))]
    case Streamed(chunks, Broken) => sent + [Message(Model, StreamedText(chunks)), Disrupted]
  }

  /**
   * A send only appends to the transcript: one or two model messages, the
   * streamed text right after the user's message when there is a stream, and
   * the failure notice last when there is none or it breaks.
   */
  lemma AnsweredAppends(sent: seq<Message>, reply: Reply)
    ensures var r := Answered(sent, reply);
      && |sent| < |r| <= |sent| + 2 && r[..|sent|] == sent
      && r[|r| - 1].role == Model
      && (reply.Unavailable? || reply.ending == Broken ==> r[|r| - 1] == Disrupted)
      && (reply.Streamed? ==> r[|sent|] == Message(Model, StreamedText(reply.chunks)))
  {
  }

  /**
   * The transcripts set after the user's message is in (`sent`): either
   * the failure notice, or the empty model message, one update per chunk,
   * and the failure notice if the stream breaks.
   */
  function ReplyUpdates(sent: seq<Message>, reply: Reply): (rs: seq<seq<Message>>)
    ensures |rs| >= 1
  {
    match reply
    case Unavailable => [sent + [Disrupted]]
    case Streamed(chunks, ending) =>
      var streaming := sent + [Message(Model, "")];
      var streamed := ReplaceLast(streaming, Message(Model, StreamedText(chunks)));
      [streaming] + ChunkUpdates(streaming, chunks)
      + (if ending == Broken then [streamed + [Disrupted]] else [])
  }

  /** Every transcript set during one send that passes the guard, in order. */
  function SendUpdates(prev: seq<Message>, userText: string, reply: Reply): (rs: seq<seq<Message>>)
    ensures |rs| >= 2 && rs[0] == prev + [Message(User, userText)]
  {
    var sent := prev + [Message(User, userText)];
    [sent] + ReplyUpdates(sent, reply)
  }

  /** The last transcript set during a send is the one the send leaves behind. */
  lemma LastUpdateIsFinal(prev: seq<Message>, userText: string, reply: Reply)
    ensures var rs := SendUpdates(prev, userText, reply);
      rs[|rs| - 1] == Answered(prev + [Message(User, userText)], reply)
  {
    var sent := prev + [Message(User, userText)];
    var rr := ReplyUpdates(sent, reply);
    var rs := SendUpdates(prev, userText, reply);
    assert rs[|rs| - 1] == rr[|rr| - 1];
    match reply
    case Unavailable =>
    case Streamed(chunks, ending) =>
      var streaming := sent + [Message(Model, "")];
      var streamed := ReplaceLast(streaming, Message(Model, StreamedText(chunks)));
      assert streamed == sent + [Message(Model, StreamedText(chunks))];
      if ending == Broken {
        assert rr[|rr| - 1] == streamed + [Disrupted];
      } else if chunks == [] {
        assert rr == [streaming];
      } else {
        assert rr == [streaming] + ChunkUpdates(streaming, chunks);
        assert rr[|rr| - 1] == ChunkUpdates(streaming, chunks)[|chunks| - 1] == streamed;
      }
  }

  /**
   * Nothing already in the transcript changes during a send: every update
   * starts with the earlier transcript followed by the user's message.
   */
  lemma SendKeepsEarlierMessages(prev: seq<Message>, userText: string, reply: Reply, k: nat)
    requires k < |SendUpdates(prev, userText, reply)|
    ensures var update := SendUpdates(prev, userText, reply)[k];
      |update| > |prev| && update[..|prev| + 1] == prev + [Message(User, userText)]
  {
    var sent := prev + [Message(User, userText)];
    var rs := SendUpdates(prev, userText, reply);
    if reply.Streamed? && k >= 1 {
      var chunks := reply.chunks;
      var streaming := sent + [Message(Model, "")];
      var streamed := ReplaceLast(streaming, Message(Model, StreamedText(chunks)));
      assert streamed[..|sent|] == sent by {
        assert forall i :: 0 <= i < |sent| ==> streamed[i] == streaming[i];
      }
      var rr := ReplyUpdates(sent, reply);
      assert rs[k] == rr[k - 1];
      if k == 1 {
        assert rs[k] == streaming;
      } else if k < 2 + |chunks| {
        assert rr[k - 1] == ChunkUpdates(streaming, chunks)[k - 2];
        ChunkUpdateAt(streaming, chunks, k - 2);
        assert streaming[..|sent|] == sent;
      } else {
        assert rs[k] == streamed + [Disrupted];
      }
    }
  }

  /** `n` copies of the typing flag `b`. */
  function Flags(b: bool, n: nat): seq<bool> {
    if n == 0 then [] else Flags(b, n - 1) + [b]
  }

  /** Runs of the same flag join into one run. */
  lemma {:induction false} FlagsAppend(b: bool, m: nat, n: nat)
    ensures Flags(b, m) + Flags(b, n) == Flags(b, m + n)
    ensures |Flags(b, n)| == n && forall i :: 0 <= i < n ==> Flags(b, n)[i] == b
    decreases n
  {
    if n > 0 {
      FlagsAppend(b, m, n - 1);
      assert Flags(b, m) + Flags(b, n) == (Flags(b, m) + Flags(b, n - 1)) + [b];
    }
  }

  /** The flags recorded while a reply streams: one for the empty model message, one per chunk, one for a notice. */
  lemma StreamedFlags(before: seq<bool>, t: bool, n: nat, broken: bool)
    ensures before + [t] + Flags(t, n) + (if broken then [t] else [])
         == before + Flags(t, 1 + n + (if broken then 1 else 0))
  {
    FlagsAppend(t, 1, n);
    assert Flags(t, 1) == [t];
    assert before + [t] + Flags(t, n) == before + Flags(t, 1 + n);
    if broken {
      assert Flags(t, 1 + n + 1) == Flags(t, 1 + n) + [t];
    } else {
      assert before + [t] + Flags(t, n) + [] == before + [t] + Flags(t, n);
    }
  }

  /** A streamed reply makes one update for the empty model message, one per chunk, and one for a notice if it breaks. */
  lemma StreamedUpdateCount(sent: seq<Message>, chunks: seq<Chunk>, ending: Ending)
    ensures |ReplyUpdates(sent, Streamed(chunks, ending))| == 1 + |chunks| + (if ending == Broken then 1 else 0)
  {
  }

  /** The widget's state: the transcript, the input box and the typing flag. */
  class MarketChat {
    var messages: seq<Message>
    var input: string
    var isTyping: bool

    /** Every value `messages` has held, oldest first; the last is the current one. */
    ghost var updates: seq<seq<Message>>

    /** The typing flag at each `setMessages` call, in the same order as `updates`. */
    ghost var typingAt: seq<bool>

    ghost predicate Valid()
      reads this`updates, this`messages
    {
      updates != [] && updates[|updates| - 1] == messages
    }

    /** The initial state: one welcome message from the model, an empty input, not typing. */
    constructor ()
      ensures Valid()
      ensures messages == [Message(Model, WelcomeText)]
      ensures input == "" && !isTyping
      ensures updates == [messages] && typingAt == [false]
    {
      messages := [Message(Model, WelcomeText)];
      input := "";
      isTyping := false;
      updates := [[Message(Model, WelcomeText)]];
      typingAt := [false];
    }

    /** The send guard, also the send button's enabled state: some visible input, and no reply in progress. */
    predicate CanSend()
      reads this`input, this`isTyping
    {
      Trim(input) != "" && !isTyping
    }

    /** The input box's change handler. */
    method SetInput(text: string)
      requires Valid()
      modifies this
      ensures Valid()
      ensures input == text
      ensures messages == old(messages) && isTyping == old(isTyping)
      ensures updates == old(updates) && typingAt == old(typingAt)
    {
      input := text;
    }

    /** `setMessages(next)`: the transcript becomes `next`; the call is recorded with the current typing flag. */
    method SetMessages(next: seq<Message>)
      requires Valid()
      modifies this
      ensures Valid()
      ensures messages == next && updates == old(updates) + [next]
      ensures typingAt == old(typingAt) + [isTyping]
      ensures input == old(input) && isTyping == old(isTyping)
    {
      messages := next;
      updates := updates + [next];
      typingAt := typingAt + [isTyping];
    }

    /**
     * The `for await` loop over the stream: `fullText` accumulates the chunk
     * texts and, after each chunk, the transcript's last entry (the model
     * message being streamed into) is overwritten with it.
     */
    method StreamInto(chunks: seq<Chunk>)
      requires Valid() && messages != [] && messages[|messages| - 1] == Message(Model, "")
      modifies this
      ensures Valid()
      ensures messages == ReplaceLast(old(messages), Message(Model, StreamedText(chunks)))
      ensures updates == old(updates) + ChunkUpdates(old(messages), chunks)
      ensures typingAt == old(typingAt) + Flags(isTyping, |chunks|)
      ensures input == old(input) && isTyping == old(isTyping)
    {
      var fullText := "";
      assert ReplaceLast(messages, Message(Model, "")) == messages;
      var k := 0;
      while k < |chunks|
        invariant 0 <= k <= |chunks|
        invariant Valid()
        invariant fullText == StreamedText(chunks[..k])
        invariant messages == ReplaceLast(old(messages), Message(Model, fullText))
        invariant updates == old(updates) + ChunkUpdates(old(messages), chunks[..k])
        invariant typingAt == old(typingAt) + Flags(isTyping, k)
        invariant input == old(input) && isTyping == old(isTyping)
      {
        ChunkStep(old(messages), chunks, k);
        ReplaceLastTwice(old(messages), Message(Model, fullText), Message(Model, fullText + ChunkText(chunks[k])));
        fullText := fullText + ChunkText(chunks[k]);
        SetMessages(ReplaceLast(messages, Message(Model, fullText)));
        assert Flags(isTyping, k + 1) == Flags(isTyping, k) + [isTyping];
        k := k + 1;
      }
      assert chunks[..k] == chunks;
    }

    /**
     * The `try` block of `handleSend` once the stream is obtained: one empty
     * model message is appended and streamed into, and the failure notice is
     * appended if the stream breaks.
     */
    method StreamReply(chunks: seq<Chunk>, ending: Ending)
      requires Valid()
      modifies this
      ensures Valid()
      ensures messages == Answered(old(messages), Streamed(chunks, ending))
      ensures updates == old(updates) + ReplyUpdates(old(messages), Streamed(chunks, ending))
      ensures typingAt == old(typingAt) + Flags(isTyping, |ReplyUpdates(old(messages), Streamed(chunks, ending))|)
      ensures input == old(input) && isTyping == old(isTyping)
    {
      ghost var sent := messages;
      ghost var t := isTyping;
      ghost var flags := typingAt;
      StreamedFlags(flags, t, |chunks|, ending == Broken);
      StreamedUpdateCount(sent, chunks, ending);
      SetMessages(messages + [Message(Model, "")]);
      ghost var streaming := messages;
      StreamInto(chunks);
      ghost var streamed := messages;
      assert streamed == sent + [Message(Model, StreamedText(chunks))] by {
        assert forall i :: 0 <= i < |sent| ==> streamed[i] == streaming[i];
      }
      if ending == Broken {
        SetMessages(messages + [Disrupted]);
        assert updates == old(updates) + ([streaming] + ChunkUpdates(streaming, chunks) + [streamed + [Disrupted]]);
        assert typingAt == flags + [t] + Flags(t, |chunks|) + [t];
      } else {
        assert updates == old(updates) + ([streaming] + ChunkUpdates(streaming, chunks) + []);
        assert typingAt == flags + [t] + Flags(t, |chunks|) + [];
      }
    }

    /**
     * The `try`/`catch` of `handleSend` once the user's message is in: with
     * no stream the failure notice is appended at once; otherwise the reply
     * is streamed.
     */
    method Respond(reply: Reply)
      requires Valid()
      modifies this
      ensures Valid()
      ensures messages == Answered(old(messages), reply)
      ensures updates == old(updates) + ReplyUpdates(old(messages), reply)
      ensures typingAt == old(typingAt) + Flags(isTyping, |ReplyUpdates(old(messages), reply)|)
      ensures input == old(input) && isTyping == old(isTyping)
    {
      match reply {
      case Unavailable =>
        SetMessages(messages + [Disrupted]);
        assert Flags(isTyping, 1) == [isTyping];
      case Streamed(chunks, ending) =>
        StreamReply(chunks, ending);
      }
    }

    /**
     * `handleSend` past its guard, for the trimmed input `userMessage`: the
     * input is cleared, the user message appended and the typing flag raised;
     * the reply is answered with the flag up at every transcript update, and
     * the `finally` block lowers the flag.
     */
    method Send(userMessage: string, reply: Reply)
      requires Valid()
      modifies this
      ensures Valid()
      ensures input == "" && !isTyping
      ensures messages == Answered(old(messages) + [Message(User, userMessage)], reply)
      ensures updates == old(updates) + SendUpdates(old(messages), userMessage, reply)
      ensures typingAt == old(typingAt) + [old(isTyping)]
        + Flags(true, |ReplyUpdates(old(messages) + [Message(User, userMessage)], reply)|)
    {
      ghost var before := updates;
      ghost var flags := typingAt;
      var sent := messages + [Message(User, userMessage)];
      input := "";
      SetMessages(sent);
      isTyping := true;
      Respond(reply);
      isTyping := false;
      ghost var rr := ReplyUpdates(sent, reply);
      assert updates == before + [sent] + rr;
      assert before + [sent] + rr == before + ([sent] + rr);
      assert typingAt == flags + [old(isTyping)] + Flags(true, |rr|);
    }

    /**
     * `handleSend`: with no visible input, or while a reply is in progress, it
     * changes nothing; otherwise it sends the trimmed input. The user's
     * message is set while the flag is still down, and every later update of
     * the send is made with the flag up.
     */
    method HandleSend(reply: Reply)
      requires Valid()
      modifies this
      ensures Valid()
      ensures !old(CanSend()) ==>
        && messages == old(messages) && input == old(input) && isTyping == old(isTyping)
        && updates == old(updates) && typingAt == old(typingAt)
      ensures old(CanSend()) ==>
        && input == "" && !isTyping
        && messages == Answered(old(messages) + [Message(User, Trim(old(input)))], reply)
        && updates == old(updates) + SendUpdates(old(messages), Trim(old(input)), reply)
        && typingAt == old(typingAt) + [false]
             + Flags(true, |ReplyUpdates(old(messages) + [Message(User, Trim(old(input)))], reply)|)
    {
      if Trim(input) == "" || isTyping {
        return;
      }
      var userMessage := Trim(input);
      Send(userMessage, reply);
    }
  }
}
