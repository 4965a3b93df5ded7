/**
 * The chat cog: the one conversation session shared by every request, the
 * `ask`, `reset` and `history` commands, and the listener that answers
 * mentions and direct messages. The generative model and the attachment
 * download are parameters; the session and the channel are objects whose
 * state the commands update in place.
 */
module GeminiCog {
  import opened Wrappers
  import opened PyStr
  import opened GeminiText

  // ---------------------------------------------------------------------------
  // Entities
  // ---------------------------------------------------------------------------

  datatype Role = User | Model

  function RoleName(role: Role): string
  {
    match role
    case User => "user"
    case Model => "model"
  }

  /** An entry of the session history. `Turn` is a `{"role": ..., "parts": [...]}`
    * dictionary the cog appends itself. `Foreign` is a content record the
    * generative-AI library's chat session keeps of each `send_message`
    * exchange (the prompt sent and the answer received); the library adds that
    * pair to the history the next time the history is read. */
  datatype Entry = Turn(role: Role, parts: seq<string>) | Foreign

  function UserTurn(text: string): Entry { Turn(User, [text]) }

  function ModelTurn(text: string): Entry { Turn(Model, [text]) }

  /** What a model call gives back: its text, the error it reports in the
    * response, or an exception it raises, which nothing in the cog catches.
    * After a chat-session call whose response carries an error, the session
    * raises as soon as its history is read again, before it moves its record
    * of the exchange in. */
  datatype Reply = Text(text: string) | Failed(detail: string) | Raised

  /** An HTTP response to the attachment download. */
  datatype Response = Response(status: int, body: seq<bv8>)

  datatype Attachment = Attachment(filename: string, url: string)

  /** A chat message as the listener sees it. */
  datatype Message = Message(
    fromSelf: bool,          // written by the bot itself
    mentionEveryone: bool,
    mentionsBot: bool,
    inDirectChannel: bool,
    content: string,
    attachments: seq<Attachment>)

  /** The chat model: the session history (with the new user turn already in
    * it) and the prompt, to a reply. */
  type TextModel = (seq<Entry>, string) -> Reply

  /** The single-shot image model: image bytes, MIME type and prompt. */
  type ImageModel = (seq<bv8>, string, string) -> Reply

  /** The attachment download: a URL to the HTTP response. */
  type Fetch = string -> Response

  const ErrorMark: string := "\U{274C}"
  const ResetNotice: string := "\U{1F916} Chat history has been reset."
  const NoHistoryNotice: string := "No conversation history available."
  const DownloadFailedNotice: string := "Unable to download the image."
  const DefaultCaption: string := "What is this a picture of?"
  const ImageMime: string := "image/jpeg"
  const StatusOk: int := 200
  const ReplyChunk: nat := 1700
  const HistoryChunk: nat := 2000

  // ---------------------------------------------------------------------------
  // The shared session and the channel
  // ---------------------------------------------------------------------------

  /** The chat session started with an empty history. */
  class ChatSession {
    var history: seq<Entry>

    constructor ()
      ensures history == []
    {
      history := [];
    }

    method Append(e: Entry)
      modifies this
      ensures history == old(history) + [e]
    {
      history := history + [e];
    }

    /** Assigning an empty list to the history. */
    method Clear()
      modifies this
      ensures history == []
    {
      history := [];
    }
  }

  /** The channel a command or message came from: what has been sent to it. */
  class Channel {
    var sent: seq<string>

    constructor ()
      ensures sent == []
    {
      sent := [];
    }

    method Send(text: string)
      modifies this
      ensures sent == old(sent) + [text]
    {
      sent := sent + [text];
    }
  }

  // ---------------------------------------------------------------------------
  // Generating replies
  // ---------------------------------------------------------------------------

  /** The text a reply turns into: the model's text, or the error detail
    * behind a cross mark. */
  function Relay(reply: Reply): string
    requires !reply.Raised?
  {
    if reply.Text? then reply.text else ErrorMark + reply.detail
  }

  /** The mark makes a failure recognisable: the model's text passes through
    * untouched, the error detail can be read back after the mark, and a
    * failure never looks like a text that does not itself start with the mark. */
  lemma RelayMarksFailures(d: string, e: string, t: string)
    ensures Relay(Text(t)) == t
    ensures var r := Relay(Failed(d)); |r| > 0 && r[1..] == d
    ensures Relay(Failed(d)) == Relay(Failed(e)) ==> d == e
    ensures (|t| == 0 || t[0] != ErrorMark[0]) ==> Relay(Failed(d)) != Relay(Text(t))
  {
    assert Relay(Failed(d))[0] == ErrorMark[0];
    assert Relay(Failed(d))[1..] == d;
    assert Relay(Failed(e))[1..] == e;
  }

  /** The text part of an image request: a newline, then the caption, or the
    * default question when the caption is empty. */
  function ImagePrompt(caption: string): string
  {
    "\n" + (if caption != [] then caption else DefaultCaption)
  }

  /** The image model is always asked a question: the text after the newline
    * is never empty, a non-empty caption is asked as it is, and an empty
    * caption is asked as the default question. */
  lemma ImagePromptAsks(caption: string)
    ensures var r := ImagePrompt(caption); |r| > 1 && r[0] == '\n'
    ensures caption != [] ==> ImagePrompt(caption)[1..] == caption
    ensures ImagePrompt([]) == ImagePrompt(DefaultCaption)
  {
    assert ImagePrompt(caption)[1..] == if caption != [] then caption else DefaultCaption;
  }

  function ImageReply(image: seq<bv8>, caption: string, im: ImageModel): Reply
  {
    im(image, ImageMime, ImagePrompt(caption))
  }

  /** The first attachment whose name has an image extension, if any. */
  function FirstImage(atts: seq<Attachment>): (r: Option<nat>)
    ensures r.Some? ==> r.value < |atts| && IsImage(atts[r.value].filename)
    ensures r.Some? ==> forall j :: 0 <= j < r.value ==> !IsImage(atts[j].filename)
    ensures r.None? <==> forall j :: 0 <= j < |atts| ==> !IsImage(atts[j].filename)
  {
    if |atts| == 0 then None
    else if IsImage(atts[0].filename) then Some(0)
    else
      match FirstImage(atts[1..])
      case None => None
      case Some(k) => Some(k + 1)
  }

  /** Sending `text` in pieces of at most `maxLength` characters, in order. */
  method SplitAndSend(channel: Channel, text: string, maxLength: nat)
    requires maxLength > 0
    modifies channel
    ensures channel.sent == old(channel.sent) + Chunks(text, maxLength)
  {
    var messages := Chunks(text, maxLength);
    for i := 0 to |messages|
      invariant channel.sent == old(channel.sent) + messages[..i]
    {
      channel.Send(messages[i]);
      assert messages[..i + 1] == messages[..i] + [messages[i]];
    }
    assert messages[..|messages|] == messages;
  }

  // ---------------------------------------------------------------------------
  // What a request does: the new history and the messages it sends
  // ---------------------------------------------------------------------------

  datatype Outcome = Outcome(history: seq<Entry>, sent: seq<string>)

  /** A chat-model exchange on a history that already ends with the user's
    * turn: the library's record of the exchange, then the model's turn. A
    * call that raises ends the command there, and so does an error reply,
    * because reading the history to append the marked error raises: the
    * history keeps the user's turn and nothing is sent. */
  function TextExchange(h: seq<Entry>, prompt: string, tm: TextModel): Outcome
  {
    var reply := tm(h, prompt);
    if !reply.Text? then Outcome(h, [])
    else Outcome(h + [Foreign, Foreign, ModelTurn(reply.text)], Chunks(reply.text, ReplyChunk))
  }

  /** An image-model exchange on a history that already ends with the user's
    * turn: only the model's turn is added, or nothing when the call raises. */
  function ImageExchange(h: seq<Entry>, caption: string, image: seq<bv8>, im: ImageModel): Outcome
  {
    var reply := ImageReply(image, caption, im);
    if reply.Raised? then Outcome(h, [])
    else
      var t := Relay(reply);
      Outcome(h + [ModelTurn(t)], Chunks(t, ReplyChunk))
  }

  /** The `ask` command on history `h`. Without attachments the cleaned query
    * goes to the chat model. With attachments only the first image counts:
    * a failed download is reported and nothing is recorded; when no
    * attachment is an image nothing happens at all. */
  function AskOutcome(h: seq<Entry>, query: string, atts: seq<Attachment>,
                      fetch: Fetch, tm: TextModel, im: ImageModel): Outcome
  {
    var q := Clean(query);
    if |atts| == 0 then TextExchange(h + [UserTurn(q)], q, tm)
    else
      match FirstImage(atts)
      case None => Outcome(h, [])
      case Some(i) =>
        var resp := fetch(atts[i].url);
        if resp.status != StatusOk then Outcome(h, [DownloadFailedNotice])
        else ImageExchange(h + [UserTurn(q)], q, resp.body, im)
  }

  /** The listener answers a message that mentions the bot or comes in a
    * direct channel, unless the bot wrote it or it mentions everyone. */
  predicate Addressed(msg: Message)
  {
    !msg.fromSelf && !msg.mentionEveryone && (msg.mentionsBot || msg.inDirectChannel)
  }

  /** The listener on history `h`. Unlike `ask` it records the user's turn
    * before looking at the attachments. */
  function OnMessageOutcome(h: seq<Entry>, msg: Message,
                            fetch: Fetch, tm: TextModel, im: ImageModel): Outcome
  {
    if !Addressed(msg) then Outcome(h, [])
    else
      var q := Clean(msg.content);
      var h1 := h + [UserTurn(q)];
      if |msg.attachments| == 0 then TextExchange(h1, q, tm)
      else
        match FirstImage(msg.attachments)
        case None => Outcome(h1, [])
        case Some(i) =>
          var resp := fetch(msg.attachments[i].url);
          if resp.status != StatusOk then Outcome(h1, [DownloadFailedNotice])
          else ImageExchange(h1, q, resp.body, im)
  }

  // ---------------------------------------------------------------------------
  // The commands and the listener
  // ---------------------------------------------------------------------------

  /** `reset`: empty the history, then acknowledge. */
  method Reset(session: ChatSession, channel: Channel)
    modifies session, channel
    ensures session.history == []
    ensures channel.sent == old(channel.sent) + [ResetNotice]
  {
    session.Clear();
    channel.Send(ResetNotice);
  }

  /** The attachment loop of `ask` and of the listener: the first attachment
    * that passes the extension test, the only one handled. */
  method FindFirstImage(atts: seq<Attachment>) returns (r: Option<nat>)
    ensures r == FirstImage(atts)
  {
    for i := 0 to |atts|
      invariant forall j :: 0 <= j < i ==> !IsImage(atts[j].filename)
    {
      if IsImage(atts[i].filename) {
        return Some(i);
      }
    }
    return None;
  }

  /** `ask`: the state it leaves is the one `AskOutcome` describes. */
  method Ask(session: ChatSession, channel: Channel, query: string, atts: seq<Attachment>,
             fetch: Fetch, tm: TextModel, im: ImageModel)
    modifies session, channel
    ensures var o := AskOutcome(old(session.history), query, atts, fetch, tm, im);
      session.history == o.history && channel.sent == old(channel.sent) + o.sent
  {
    var q := Clean(query);
    if |atts| > 0 {
      var found := FindFirstImage(atts);
      if found.Some? {
        var resp := fetch(atts[found.value].url);
        if resp.status != StatusOk {
          channel.Send(DownloadFailedNotice);
          return;
        }
        session.Append(UserTurn(q));
        var answer := ImageReply(resp.body, q, im);
        if answer.Raised? {
          return;
        }
        var reply := Relay(answer);
        session.Append(ModelTurn(reply));
        SplitAndSend(channel, reply, ReplyChunk);
      }
    } else {
      session.Append(UserTurn(q));
      var answer := tm(session.history, q);
      if answer.Raised? {
        return;
      }
      var reply := Relay(answer);
      if answer.Failed? {
        // reading the history to append `reply` raises
        return;
      }
      // the library's record of the exchange, flushed when the history is read
      session.Append(Foreign);
      session.Append(Foreign);
      session.Append(ModelTurn(reply));
      SplitAndSend(channel, reply, ReplyChunk);
    }
  }

  /** The message listener: the state it leaves is the one `OnMessageOutcome`
    * describes. */
  method OnMessage(session: ChatSession, channel: Channel, msg: Message,
                   fetch: Fetch, tm: TextModel, im: ImageModel)
    modifies session, channel
    ensures var o := OnMessageOutcome(old(session.history), msg, fetch, tm, im);
      session.history == o.history && channel.sent == old(channel.sent) + o.sent
  {
    if msg.fromSelf || msg.mentionEveryone {
      return;
    }
    if msg.mentionsBot || msg.inDirectChannel {
      var q := Clean(msg.content);
      session.Append(UserTurn(q));
      var atts := msg.attachments;
      if |atts| > 0 {
        var found := FindFirstImage(atts);
        if found.Some? {
          var resp := fetch(atts[found.value].url);
          if resp.status != StatusOk {
            channel.Send(DownloadFailedNotice);
            return;
          }
          var answer := ImageReply(resp.body, q, im);
          if answer.Raised? {
            return;
          }
          var reply := Relay(answer);
          session.Append(ModelTurn(reply));
          SplitAndSend(channel, reply, ReplyChunk);
        }
      } else {
        var answer := tm(session.history, q);
        if answer.Raised? {
          return;
        }
        var reply := Relay(answer);
        if answer.Failed? {
          return;
        }
        session.Append(Foreign);
        session.Append(Foreign);
        session.Append(ModelTurn(reply));
        SplitAndSend(channel, reply, ReplyChunk);
      }
    }
  }

  // ---------------------------------------------------------------------------
  // Rendering the history
  // ---------------------------------------------------------------------------

  /** The line a dictionary turn contributes: the capitalized role in bold,
    * a colon, then the stripped concatenation of its parts. */
  function TurnLine(role: Role, parts: seq<string>): string
  {
    "**" + RoleLabel(role) + ":** " + Strip(Flatten(parts)) + "\n"
  }

  /** The role as the history shows it. */
  function RoleLabel(role: Role): string
  {
    match role
    case User => "User"
    case Model => "Model"
  }

  /** The label is the stored role name, capitalized. */
  lemma RoleLabelCapitalized(role: Role)
    ensures RoleLabel(role) == Capitalize(RoleName(role))
  {
    var n := RoleName(role);
    assert n[1..] == Lower(n[1..]);
  }

  /** The lines of the dictionary turns, in order; library records have none. */
  function Lines(h: seq<Entry>): seq<string>
  {
    if |h| == 0 then []
    else
      var e := h[|h| - 1];
      Lines(h[..|h| - 1]) + (if e.Turn? then [TurnLine(e.role, e.parts)] else [])
  }

  /** The rendered history before the final strip. */
  function Transcript(h: seq<Entry>): string
  {
    Flatten(Lines(h))
  }

  /** The dictionary turns of a history, in order. */
  function Turns(h: seq<Entry>): (r: seq<Entry>)
    ensures |r| <= |h|
    ensures forall k :: 0 <= k < |r| ==> r[k].Turn?
  {
    if |h| == 0 then []
    else Turns(h[..|h| - 1]) + (if h[|h| - 1].Turn? then [h[|h| - 1]] else [])
  }

  /** The messages the `history` command sends for history `h`. */
  function HistoryMessages(h: seq<Entry>): seq<string>
  {
    if |h| == 0 then [NoHistoryNotice] else Chunks(Strip(Transcript(h)), HistoryChunk)
  }

  /** `history`: the history is read, not changed; what is sent is
    * `HistoryMessages` of it. */
  method ShowHistory(session: ChatSession, channel: Channel)
    modifies channel
    ensures channel.sent == old(channel.sent) + HistoryMessages(session.history)
  {
    var h := session.history;
    if |h| == 0 {
      channel.Send(NoHistoryNotice);
      return;
    }
    var output := "";
    for i := 0 to |h|
      invariant output == Transcript(h[..i])
      invariant channel.sent == old(channel.sent)
    {
      assert h[..i + 1] == h[..i] + [h[i]];
      TranscriptSnoc(h[..i], h[i]);
      if h[i].Turn? {
        output := output + TurnLine(h[i].role, h[i].parts);
      }
    }
    assert h[..|h|] == h;
    SplitAndSend(channel, Strip(output), HistoryChunk);
  }

  // ---------------------------------------------------------------------------
  // Properties of the history
  // ---------------------------------------------------------------------------

  lemma TurnsSnoc(h: seq<Entry>, e: Entry)
    ensures Turns(h + [e]) == Turns(h) + (if e.Turn? then [e] else [])
  {
    assert (h + [e])[..|h|] == h;
  }

  /** Keeping the dictionary turns distributes over concatenation. */
  lemma {:induction false} TurnsAppend(a: seq<Entry>, b: seq<Entry>)
    ensures Turns(a + b) == Turns(a) + Turns(b)
    decreases |b|
  {
    if |b| == 0 {
      assert a + b == a;
    } else {
      var init, last := b[..|b| - 1], b[|b| - 1];
      assert a + b == (a + init) + [last];
      assert b == init + [last];
      TurnsSnoc(a + init, last);
      TurnsSnoc(init, last);
      TurnsAppend(a, init);
    }
  }

  lemma LinesSnoc(h: seq<Entry>, e: Entry)
    ensures Lines(h + [e]) == Lines(h) + (if e.Turn? then [TurnLine(e.role, e.parts)] else [])
  {
    assert (h + [e])[..|h|] == h;
  }

  lemma {:induction false} LinesAppend(a: seq<Entry>, b: seq<Entry>)
    ensures Lines(a + b) == Lines(a) + Lines(b)
    decreases |b|
  {
    if |b| == 0 {
      assert a + b == a;
    } else {
      var init, last := b[..|b| - 1], b[|b| - 1];
      assert a + b == (a + init) + [last];
      assert b == init + [last];
      LinesSnoc(a + init, last);
      LinesSnoc(init, last);
      LinesAppend(a, init);
    }
  }

  /** Rendering one more entry appends its line, if it has one. */
  lemma TranscriptSnoc(h: seq<Entry>, e: Entry)
    ensures Transcript(h + [e]) == Transcript(h) + (if e.Turn? then TurnLine(e.role, e.parts) else "")
  {
    LinesSnoc(h, e);
    FlattenAppend(Lines(h), if e.Turn? then [TurnLine(e.role, e.parts)] else []);
    if e.Turn? {
      FlattenOne(TurnLine(e.role, e.parts));
    }
  }

  /** The transcript of a concatenation is the concatenation of transcripts. */
  lemma TranscriptAppend(a: seq<Entry>, b: seq<Entry>)
    ensures Transcript(a + b) == Transcript(a) + Transcript(b)
  {
    LinesAppend(a, b);
    FlattenAppend(Lines(a), Lines(b));
  }

  /** Library records are skipped: the rendering depends only on the
    * dictionary turns. */
  lemma {:induction false} LinesOfTurns(h: seq<Entry>)
    ensures Lines(Turns(h)) == Lines(h)
    decreases |h|
  {
    if |h| > 0 {
      var init, last := h[..|h| - 1], h[|h| - 1];
      assert h == init + [last];
      LinesOfTurns(init);
      TurnsSnoc(init, last);
      LinesSnoc(init, last);
      if last.Turn? {
        LinesSnoc(Turns(init), last);
      } else {
        assert Turns(init) + [] == Turns(init);
        assert Lines(init) + [] == Lines(init);
        assert Turns(h) == Turns(init);
        assert Lines(h) == Lines(init);
      }
    }
  }

  /** A history with at least one dictionary turn renders as text that starts
    * with the bold role marker. */
  lemma TranscriptStartsWithRole(h: seq<Entry>)
    requires |Turns(h)| > 0
    ensures var s := Transcript(h); |s| > 0 && s[0] == '*'
  {
    var ts := Turns(h);
    TranscriptFirstTurn(h);
    TurnLineBold(ts[0].role, ts[0].parts);
  }

  /** The rendering of a history opens with the line of its first dictionary turn. */
  lemma TranscriptFirstTurn(h: seq<Entry>)
    requires |Turns(h)| > 0
    ensures var ts := Turns(h); Transcript(h) == TurnLine(ts[0].role, ts[0].parts) + Transcript(ts[1..])
  {
    var ts := Turns(h);
    LinesOfTurns(h);
    assert ts == [ts[0]] + ts[1..];
    TranscriptCons(ts[0], ts[1..]);
  }

  lemma TranscriptCons(e: Entry, rest: seq<Entry>)
    requires e.Turn?
    ensures Transcript([e] + rest) == TurnLine(e.role, e.parts) + Transcript(rest)
  {
    TranscriptAppend([e], rest);
    assert [] + [e] == [e];
    TranscriptSnoc([], e);
  }

  lemma TurnLineBold(role: Role, parts: seq<string>)
    ensures |TurnLine(role, parts)| > 0 && TurnLine(role, parts)[0] == '*'
  {
  }

  /** An `ask` text exchange shows in the history as the user's line followed
    * by the model's line; the library's records add nothing. */
  lemma TranscriptOfExchange(h: seq<Entry>, q: string, t: string)
    ensures Transcript(h + [UserTurn(q), Foreign, Foreign, ModelTurn(t)])
         == Transcript(h) + TurnLine(User, [q]) + TurnLine(Model, [t])
  {
    TranscriptAppend(h, [UserTurn(q), Foreign, Foreign, ModelTurn(t)]);
    TranscriptOfTextRecords(q, t);
  }

  lemma TranscriptOfTextRecords(q: string, t: string)
    ensures Transcript([UserTurn(q), Foreign, Foreign, ModelTurn(t)])
         == TurnLine(User, [q]) + TurnLine(Model, [t])
  {
    var a, b := TurnLine(User, [q]), TurnLine(Model, [t]);
    LinesOfTextRecords(q, t);
    FlattenAppend([a], [b]);
    FlattenOne(a);
    FlattenOne(b);
  }

  lemma LinesOfTextRecords(q: string, t: string)
    ensures Lines([UserTurn(q), Foreign, Foreign, ModelTurn(t)])
         == [TurnLine(User, [q]), TurnLine(Model, [t])]
  {
    var u, m := UserTurn(q), ModelTurn(t);
    LinesOfUserRecords(q);
    LinesSnoc([u, Foreign, Foreign], m);
    assert [u, Foreign, Foreign] + [m] == [u, Foreign, Foreign, m];
  }

  lemma LinesOfUserRecords(q: string)
    ensures Lines([UserTurn(q), Foreign, Foreign]) == [TurnLine(User, [q])]
  {
    var u := UserTurn(q);
    LinesSnoc([], u);
    assert [] + [u] == [u];
    LinesSnoc([u], Foreign);
    assert [u] + [Foreign] == [u, Foreign];
    LinesSnoc([u, Foreign], Foreign);
    assert [u, Foreign] + [Foreign] == [u, Foreign, Foreign];
  }

  /** The line of a one-part turn shows that part, stripped. */
  lemma TurnLineOfText(role: Role, text: string)
    ensures TurnLine(role, [text]) == "**" + RoleLabel(role) + ":** " + Strip(text) + "\n"
  {
    FlattenOne(text);
  }

  /** What `history` sends: the no-history notice for an empty history;
    * otherwise the stripped transcript in pieces of at most 2000 characters,
    * which is non-empty when there is a dictionary turn and empty (nothing is
    * sent at all) when the history holds only library records. */
  lemma HistoryMessagesSpec(h: seq<Entry>)
    ensures |h| == 0 ==> HistoryMessages(h) == [NoHistoryNotice]
    ensures |h| > 0 ==> Flatten(HistoryMessages(h)) == Strip(Transcript(Turns(h)))
    ensures |h| > 0 ==> forall k :: 0 <= k < |HistoryMessages(h)| ==> 0 < |HistoryMessages(h)[k]| <= HistoryChunk
    ensures |Turns(h)| > 0 ==> |HistoryMessages(h)| > 0 && HistoryMessages(h)[0][0] == '*'
    ensures |h| > 0 && |Turns(h)| == 0 ==> HistoryMessages(h) == []
  {
    LinesOfTurns(h);
    ChunksSpec(Strip(Transcript(h)), HistoryChunk);
    if |Turns(h)| > 0 {
      TranscriptStartsWithRole(h);
      StripKeepsFirst(Transcript(h));
      ChunksFirst(Strip(Transcript(h)), HistoryChunk);
    } else if |h| > 0 {
      assert Lines(Turns(h)) == [];
    }
  }

  // ---------------------------------------------------------------------------
  // Properties of the requests
  // ---------------------------------------------------------------------------

  /** The dictionary turns alternate user, model, user, model, ... and come in
    * complete pairs. */
  predicate Alternating(ts: seq<Entry>)
  {
    && |ts| % 2 == 0
    && forall i :: 0 <= i < |ts| ==> ts[i].Turn? && ts[i].role == (if i % 2 == 0 then User else Model)
  }

  lemma AlternatingPair(ts: seq<Entry>, q: string, t: string)
    requires Alternating(ts)
    ensures Alternating(ts + [UserTurn(q), ModelTurn(t)])
  {
  }

  lemma AlternatingUnmatched(ts: seq<Entry>, q: string)
    requires Alternating(ts)
    ensures !Alternating(ts + [UserTurn(q)])
  {
  }

  lemma TurnsOfTextExchange(h: seq<Entry>, q: string, t: string)
    ensures Turns(h + [UserTurn(q), Foreign, Foreign, ModelTurn(t)]) == Turns(h) + [UserTurn(q), ModelTurn(t)]
  {
    var u, m := UserTurn(q), ModelTurn(t);
    var h1 := h + [u];
    var h2 := h1 + [Foreign];
    var h3 := h2 + [Foreign];
    TurnsSnoc(h, u);
    TurnsSnoc(h1, Foreign);
    TurnsSnoc(h2, Foreign);
    TurnsSnoc(h3, m);
    assert h3 + [m] == h + [u, Foreign, Foreign, m];
  }

  lemma TurnsOfImageExchange(h: seq<Entry>, q: string, t: string)
    ensures Turns(h + [UserTurn(q), ModelTurn(t)]) == Turns(h) + [UserTurn(q), ModelTurn(t)]
  {
    var u, m := UserTurn(q), ModelTurn(t);
    TurnsSnoc(h, u);
    TurnsSnoc(h + [u], m);
    assert h + [u] + [m] == h + [u, m];
  }

  /** A chat-model exchange after the user's turn adds exactly that turn and
    * the model's turn to the dictionary entries, and sends the model's text;
    * when the call raises or reports an error, only the user's turn is left
    * and nothing is sent. */
  lemma TextExchangeTurns(h: seq<Entry>, q: string, tm: TextModel)
    ensures var reply := tm(h + [UserTurn(q)], q);
      var o := TextExchange(h + [UserTurn(q)], q, tm);
      && (!reply.Text? ==> o == Outcome(h + [UserTurn(q)], []))
      && (reply.Text? ==>
            && Turns(o.history) == Turns(h) + [UserTurn(q), ModelTurn(reply.text)]
            && o.sent == Chunks(reply.text, ReplyChunk))
  {
    var reply := tm(h + [UserTurn(q)], q);
    if reply.Text? {
      var t := reply.text;
      assert h + [UserTurn(q)] + [Foreign, Foreign, ModelTurn(t)] == h + [UserTurn(q), Foreign, Foreign, ModelTurn(t)];
      TurnsOfTextExchange(h, q, t);
    }
  }

  /** The same for an image-model exchange. */
  lemma ImageExchangeTurns(h: seq<Entry>, q: string, image: seq<bv8>, im: ImageModel)
    ensures var reply := ImageReply(image, q, im);
      var o := ImageExchange(h + [UserTurn(q)], q, image, im);
      && (reply.Raised? ==> o == Outcome(h + [UserTurn(q)], []))
      && (!reply.Raised? ==>
            && Turns(o.history) == Turns(h) + [UserTurn(q), ModelTurn(Relay(reply))]
            && o.sent == Chunks(Relay(reply), ReplyChunk))
  {
    var reply := ImageReply(image, q, im);
    if !reply.Raised? {
      var t := Relay(reply);
      assert h + [UserTurn(q)] + [ModelTurn(t)] == h + [UserTurn(q), ModelTurn(t)];
      TurnsOfImageExchange(h, q, t);
    }
  }

  /** The exchange a request reaches ends in an exception: the chat model
    * when there are no attachments, which raises or reports an error, or the
    * image model when the first image downloads, which raises. `h1` already
    * ends with the user's turn. */
  predicate ExchangeRaises(h1: seq<Entry>, q: string, atts: seq<Attachment>,
                           fetch: Fetch, tm: TextModel, im: ImageModel)
  {
    if |atts| == 0 then !tm(h1, q).Text?
    else
      match FirstImage(atts)
      case None => false
      case Some(i) =>
        var resp := fetch(atts[i].url);
        resp.status == StatusOk && ImageReply(resp.body, q, im).Raised?
  }

  /** On alternating turns `ask` keeps them alternating exactly when the
    * exchange it reaches does not raise: it adds a user turn and a model turn
    * together, or nothing, except that a raising exchange leaves the user's
    * turn it has already recorded. */
  lemma AskAlternation(h: seq<Entry>, query: string, atts: seq<Attachment>,
                       fetch: Fetch, tm: TextModel, im: ImageModel)
    requires Alternating(Turns(h))
    ensures var q := Clean(query);
      (Alternating(Turns(AskOutcome(h, query, atts, fetch, tm, im).history))
       <==> !ExchangeRaises(h + [UserTurn(q)], q, atts, fetch, tm, im))
  {
    var q := Clean(query);
    if ExchangeRaises(h + [UserTurn(q)], q, atts, fetch, tm, im) {
      if |atts| == 0 {
        TextExchangeTurns(h, q, tm);
      } else {
        ImageExchangeTurns(h, q, fetch(atts[FirstImage(atts).value].url).body, im);
      }
      TurnsSnoc(h, UserTurn(q));
      AlternatingUnmatched(Turns(h), q);
    } else if |atts| == 0 {
      TextExchangeTurns(h, q, tm);
      AlternatingPair(Turns(h), q, tm(h + [UserTurn(q)], q).text);
    } else if FirstImage(atts).Some? {
      var resp := fetch(atts[FirstImage(atts).value].url);
      if resp.status == StatusOk {
        ImageExchangeTurns(h, q, resp.body, im);
        AlternatingPair(Turns(h), q, Relay(ImageReply(resp.body, q, im)));
      }
    }
  }

  /** The listener leaves a user turn without its answer exactly when it is
    * addressed and then either has attachments none of which is an image,
    * fails to download the first image, or reaches an exchange that raises. */
  predicate LeavesUnanswered(h: seq<Entry>, msg: Message, fetch: Fetch, tm: TextModel, im: ImageModel)
  {
    && Addressed(msg)
    && var q := Clean(msg.content);
       || ExchangeRaises(h + [UserTurn(q)], q, msg.attachments, fetch, tm, im)
       || (&& |msg.attachments| > 0
           && match FirstImage(msg.attachments)
              case None => true
              case Some(i) => fetch(msg.attachments[i].url).status != StatusOk)
  }

  /** On an alternating history the listener keeps the turns alternating if
    * and only if it does not leave the user's turn unanswered. */
  lemma OnMessageAlternation(h: seq<Entry>, msg: Message, fetch: Fetch, tm: TextModel, im: ImageModel)
    requires Alternating(Turns(h))
    ensures Alternating(Turns(OnMessageOutcome(h, msg, fetch, tm, im).history))
        <==> !LeavesUnanswered(h, msg, fetch, tm, im)
  {
    var q := Clean(msg.content);
    var atts := msg.attachments;
    if !Addressed(msg) {
    } else if LeavesUnanswered(h, msg, fetch, tm, im) {
      if ExchangeRaises(h + [UserTurn(q)], q, atts, fetch, tm, im) {
        if |atts| == 0 {
          TextExchangeTurns(h, q, tm);
        } else {
          ImageExchangeTurns(h, q, fetch(atts[FirstImage(atts).value].url).body, im);
        }
      }
      TurnsSnoc(h, UserTurn(q));
      AlternatingUnmatched(Turns(h), q);
    } else if |atts| == 0 {
      TextExchangeTurns(h, q, tm);
      AlternatingPair(Turns(h), q, tm(h + [UserTurn(q)], q).text);
    } else {
      var resp := fetch(atts[FirstImage(atts).value].url);
      ImageExchangeTurns(h, q, resp.body, im);
      AlternatingPair(Turns(h), q, Relay(ImageReply(resp.body, q, im)));
    }
  }

  /** `h` is an initial part of `g`. */
  predicate IsPrefix(h: seq<Entry>, g: seq<Entry>)
  {
    |h| <= |g| && g[..|h|] == h
  }

  /** What `ask` sends and records: the history only grows. A raising
    * exchange leaves just the user's turn and sends nothing. Otherwise, when the
    * history grows its last entry is the model's turn, whose text is exactly
    * what is sent, in non-empty pieces of at most 1700 characters; when it
    * does not grow, at most the download-failure notice is sent. */
  lemma AskDelivery(h: seq<Entry>, query: string, atts: seq<Attachment>,
                    fetch: Fetch, tm: TextModel, im: ImageModel)
    ensures var q := Clean(query);
      var o := AskOutcome(h, query, atts, fetch, tm, im);
      && IsPrefix(h, o.history)
      && (ExchangeRaises(h + [UserTurn(q)], q, atts, fetch, tm, im) ==> o == Outcome(h + [UserTurn(q)], []))
      && (!ExchangeRaises(h + [UserTurn(q)], q, atts, fetch, tm, im) && o.history != h ==>
            && o.history[|o.history| - 1] == ModelTurn(Flatten(o.sent))
            && forall k :: 0 <= k < |o.sent| ==> 0 < |o.sent[k]| <= ReplyChunk)
      && (o.history == h ==> o.sent == [] || o.sent == [DownloadFailedNotice])
  {
    var o := AskOutcome(h, query, atts, fetch, tm, im);
    var q := Clean(query);
    var u := UserTurn(q);
    if |atts| == 0 {
      var reply := tm(h + [u], q);
      if !reply.Text? {
        assert o.history == h + [u];
      } else {
        var t := reply.text;
        assert o.history == h + [u, Foreign, Foreign, ModelTurn(t)];
        ChunksSpec(t, ReplyChunk);
      }
      assert o.history[..|h|] == h;
    } else if FirstImage(atts).Some? {
      var resp := fetch(atts[FirstImage(atts).value].url);
      if resp.status == StatusOk {
        var reply := ImageReply(resp.body, q, im);
        if reply.Raised? {
          assert o.history == h + [u];
        } else {
          var t := Relay(reply);
          assert o.history == h + [u, ModelTurn(t)];
          ChunksSpec(t, ReplyChunk);
        }
        assert o.history[..|h|] == h;
      }
    }
  }

  /** When the first image of an `ask` does not download, only the notice is
    * sent and the history is left as it was. */
  lemma AskDownloadFailed(h: seq<Entry>, query: string, atts: seq<Attachment>,
                          fetch: Fetch, tm: TextModel, im: ImageModel)
    requires |atts| > 0 && FirstImage(atts).Some?
    requires fetch(atts[FirstImage(atts).value].url).status != StatusOk
    ensures AskOutcome(h, query, atts, fetch, tm, im) == Outcome(h, [DownloadFailedNotice])
  {
  }

  /** A text-only `ask` records exactly two turns, the cleaned query and then
    * the model's text, and sends that text in 1700-character pieces; a call
    * that raises or reports an error records the query alone. */
  lemma AskTextTurns(h: seq<Entry>, query: string, fetch: Fetch, tm: TextModel, im: ImageModel)
    ensures var q := Clean(query);
      var reply := tm(h + [UserTurn(q)], q);
      var o := AskOutcome(h, query, [], fetch, tm, im);
      && (!reply.Text? ==> o == Outcome(h + [UserTurn(q)], []))
      && (reply.Text? ==>
            && Turns(o.history) == Turns(h) + [UserTurn(q), ModelTurn(reply.text)]
            && o.sent == Chunks(reply.text, ReplyChunk))
  {
    TextExchangeTurns(h, Clean(query), tm);
  }

  /** An `ask` whose attachments include no image does nothing: no turn is
    * recorded and no reply is sent, not even one to the text. */
  lemma AskIgnoresNonImageAttachments(h: seq<Entry>, query: string, atts: seq<Attachment>,
                                      fetch: Fetch, tm: TextModel, im: ImageModel)
    requires |atts| > 0 && forall j :: 0 <= j < |atts| ==> !IsImage(atts[j].filename)
    ensures AskOutcome(h, query, atts, fetch, tm, im) == Outcome(h, [])
  {
  }

  /** The listener ignores the bot's own messages, messages that mention
    * everyone, and messages that neither mention the bot nor come in a direct
    * channel; every other message records the user's cleaned text. */
  lemma OnMessageRecordsUser(h: seq<Entry>, msg: Message, fetch: Fetch, tm: TextModel, im: ImageModel)
    ensures var o := OnMessageOutcome(h, msg, fetch, tm, im);
      && (!Addressed(msg) ==> o == Outcome(h, []))
      && (Addressed(msg) ==> |o.history| > |h| && o.history[..|h| + 1] == h + [UserTurn(Clean(msg.content))])
  {
    var o := OnMessageOutcome(h, msg, fetch, tm, im);
    if Addressed(msg) {
      var h1 := h + [UserTurn(Clean(msg.content))];
      var rest :| o.history == h1 + rest;
      assert o.history[..|h1|] == h1;
    }
  }

  /** An addressed message with attachments whose first image is missing or
    * does not download leaves exactly the user's turn, unanswered; the
    * failed download also sends the notice. */
  lemma OnMessageUnanswered(h: seq<Entry>, msg: Message, fetch: Fetch, tm: TextModel, im: ImageModel)
    requires Addressed(msg) && |msg.attachments| > 0
    ensures var q := Clean(msg.content);
      var atts := msg.attachments;
      var o := OnMessageOutcome(h, msg, fetch, tm, im);
      && (FirstImage(atts).None? ==> o == Outcome(h + [UserTurn(q)], []))
      && ((FirstImage(atts).Some? && fetch(atts[FirstImage(atts).value].url).status != StatusOk)
          ==> o == Outcome(h + [UserTurn(q)], [DownloadFailedNotice]))
  {
  }
}
