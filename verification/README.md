# Gemini chat cog and slide-outline parser, modelled in Dafny

This project models the two parts of the Discord bot that hold self-contained
logic:

- **The Gemini chat cog** (`cogs/Gemini.py`). It covers:
  - the shared chat session whose history `ask`, the message listener and
    `reset` change;
  - the rendering of that history by the `history` command;
  - the cleaning of `<...>` mention tokens out of a message;
  - the image-attachment filter by file extension;
  - the `❌` error prefix and the default image caption;
  - the cutting of a reply into fixed-size messages sent in order.
- **The slide-outline parser** (`cogs/slide.py`). It covers:
  - the hand-written `str.find` scanning loop that collects the text between
    two tags;
  - the lazy `[IMAGE]…[/IMAGE]` removal;
  - the slide-type test;
  - the `[SLIDEBREAK]` split and the dispatch loop that turns the model's
    outline into slide records;
  - the file name made from the first slide's title.

The code is in these modules:

- `PyStr` (`pystr.dfy`) holds the Python string primitives the code relies on:
  - `str.find` with its start index normalised as Python does;
  - slicing that clamps (`text[a:b]` with `b < a` is `""`);
  - `split`/`join`, `strip` over Python's whitespace set;
  - `lower`/`capitalize`;
  - character deletion.
- `GeminiText` (`gemini_text.dfy`) holds `clean_discord_message`, the chunking
  of `split_and_send_messages` and the extension test.
- `GeminiCog` (`gemini_cog.dfy`) holds the history and channel objects, the
  commands, the listener and the history rendering.
  - The session and the channel are classes whose methods append to their
    `seq` fields.
  - Each command is a method proved against a function of the old history
    that gives the new history and the messages sent.
  - The chat model, the image model and the download are function-typed
    parameters.
- `SlideOutline` (`slide_outline.dfy`) holds the scanning loop, the image-span
  removal, the slide type, the deck (a class holding a `seq` of slide
  records) and the file title.

The genai `ChatSession` keeps its own record of each `send_message` exchange.
It moves that record into the same history list the cog appends to the next
time the list is read, which is the model-turn append right after the call.
So a text exchange leaves four entries:

- the cog's user dict;
- two library entries;
- the cog's model dict.

The same read raises instead when the last response carries an error, and
it raises before it moves anything. So on the chat path an error reply, which
the cog's helper turns into `❌` and the error, is never recorded or sent: the
model-turn append raises, and the user's dict is left alone.

The image path calls `generate_content` on the model and leaves only the two
dicts. The model represents the library entries as `Entry.Foreign`. The
`history` command skips them, as its `isinstance(entry, dict)` test does. The
alternation of user and model turns is stated over the dict entries only
(`Turns`).

The code keeps no lock around the session, and the user and model turns do
not always alternate:

- The listener records the user's turn before it looks at the attachments.
  So a message whose attachments hold no image, or whose image download
  fails, leaves that turn unanswered (`OnMessageAlternation`).
- `ask` records nothing when no attachment is an image or when the image
  download fails; in the second case it sends only the failure notice
  (`AskIgnoresNonImageAttachments`, `AskDownloadFailed`).
- Both `ask` and the listener record the user's turn before they call the
  model, and nothing catches an exception. A model call that raises, or a
  chat reply that carries an error, leaves the user's turn unanswered and
  sends nothing (`Reply.Raised`, `Reply.Failed`; `ExchangeRaises`,
  `AskAlternation`, `OnMessageAlternation`).
- Only the first image attachment is handled, because both loops return after
  it.

## Model

| member | source | states |
|---|---|---|
| PyStr.Find | cogs/slide.py:120-127 | `str.find(sub, start)`: the result is -1 or an occurrence at or after the normalised start, and no occurrence lies between the start and the result |
| PyStr.FindIs | cogs/slide.py:126-127 | the first occurrence at or after the start is what `find` returns |
| PyStr.Contains | cogs/slide.py:137 | `sub in s`: `find` gives an index; `ContainsIff` states what that means |
| PyStr.ContainsIff | cogs/slide.py:137 | `sub in s` holds exactly when `sub` occurs at some index of `s` |
| PyStr.Slice | cogs/slide.py:124 | a slice with ordered bounds inside the text is the subsequence between them; an end past the text is clamped to its length; with the end not after the start, or the start at or past the end of the text, it is empty |
| PyStr.Split | cogs/slide.py:76 | `str.split(sep)` with a non-empty separator: the pieces between successive occurrences, found left to right; its meaning is carried by `SplitSpec`, `SplitWithoutSeparator` and `SplitJoin` |
| PyStr.Join | cogs/slide.py:76 | `sep.join(parts)`: the parts with the separator between each two; `SplitJoin` proves it undoes `Split` |
| PyStr.Flatten | cogs/slide.py:128 | `"".join(parts)`: the parts in order with nothing between them; `SplitFlattenSubseq` and `TranscriptAppend` rely on it |
| PyStr.SplitSpec | cogs/slide.py:76 | `split` gives at least one piece and no piece contains the separator |
| PyStr.SplitWithoutSeparator | cogs/slide.py:76 | a text without the separator splits into itself alone, so an outline with no `[SLIDEBREAK]` is one piece |
| PyStr.SplitJoin | cogs/slide.py:76 | joining the pieces with the separator gives back the text, so the dispatch loop sees all of the reply |
| PyStr.SplitFlattenSubseq | cogs/slide.py:97 | joining the pieces with `""` only deletes characters |
| PyStr.Lower | cogs/Gemini.py:59 | lower-casing keeps the length, leaves no upper-case ASCII letter, turns each one into the letter 32 code points on, and keeps every other character in place |
| PyStr.LowerIdempotent | cogs/Gemini.py:59 | lower-casing a lower-cased name changes nothing |
| PyStr.EndsWith | cogs/Gemini.py:59 | `s.endswith(suffix)`: the suffix is no longer than `s` and equals its last characters; `EndsWithAt` lines them up and `ImageByExtension` uses it |
| PyStr.Capitalize | cogs/Gemini.py:92 | capitalising keeps the length, leaves no lower-case letter first and no upper-case letter after it, and keeps every character that is not an ASCII letter |
| PyStr.IsSpace | cogs/Gemini.py:93 | the characters `str.isspace()` accepts and `strip()` with no argument removes: space, tab, the line and page breaks `\n` `\r` `\x0b` `\x0c`, `\x1c`–`\x1f`, `\x85`, no-break space `\xa0`, `\u1680`, `\u2000`–`\u200a`, `\u2028`, `\u2029`, `\u202f`, `\u205f` and `\u3000` |
| PyStr.Strip | cogs/Gemini.py:93 | `str.strip()` with no argument: the text between its leading and trailing whitespace; its meaning is carried by `StripSpec`, `StripBounds` and `StripKeepsFirst` |
| PyStr.StripSpec | cogs/Gemini.py:93 | `strip` returns the infix left after dropping whitespace at both ends: no whitespace at either end, empty exactly when the text is all whitespace, the text itself when neither end is whitespace |
| PyStr.StripBounds | cogs/Gemini.py:93 | the stripped window starts after the leading whitespace and ends before the trailing whitespace, its first and last characters are not whitespace, and it is empty exactly when the text is all whitespace |
| PyStr.StripKeepsFirst | cogs/Gemini.py:97 | stripping a text that does not start with whitespace keeps its first character |
| PyStr.RemoveChars | cogs/slide.py:98 | the result holds no deleted character and only characters of the input, and a text with none of them is unchanged |
| PyStr.RemoveCharsKeepsOthers | cogs/slide.py:98 | every character outside the deleted set is kept as many times as it occurs, so `a?b` becomes `ab` |
| PyStr.RemoveCharsSubseq | cogs/slide.py:98 | deleting characters leaves a subsequence |
| GeminiText.Clean | cogs/Gemini.py:163-164 | `clean_discord_message`: `re.sub(r"<[^>]+>", "", s)` as a left-to-right scan that deletes each `<` with at least one non-`>` character up to the next `>`; its meaning is carried by the `Clean…` lemmas below |
| GeminiText.CleanShortens | cogs/Gemini.py:163-164 | the cleaned text is never longer than the message |
| GeminiText.CleanWithoutOpen | cogs/Gemini.py:163-164 | a message without `<` is returned unchanged |
| GeminiText.CleanSubseq | cogs/Gemini.py:164 | cleaning only deletes characters |
| GeminiText.CleanKeepsOnlyInputChars | cogs/Gemini.py:164 | cleaning introduces no character |
| GeminiText.CleanIsTokenFree | cogs/Gemini.py:164 | no `<…>` token with a non-empty inside is left in the result |
| GeminiText.CleanKeepsTokenFree | cogs/Gemini.py:164 | a text without such a token is returned unchanged |
| GeminiText.CleanIdempotent | cogs/Gemini.py:164 | cleaning twice is cleaning once, and a text is a fixed point exactly when it holds no token |
| GeminiText.CleanPlainPrefix | cogs/Gemini.py:164 | a prefix without `<` passes through unchanged |
| GeminiText.CleanToken | cogs/Gemini.py:164 | a `<m>` token with non-empty `m` free of `>` is deleted whole (`hi <@123> there` loses the mention) |
| GeminiText.CleanEmptyBrackets | cogs/Gemini.py:164 | `<>` is kept, because the pattern needs at least one character inside |
| GeminiText.Chunks | cogs/Gemini.py:157-158 | the comprehension `[text[i:i + n] for i in range(0, len(text), n)]`; its meaning is carried by `ChunksSpec`, `ChunkCount` and `ChunkAt` |
| GeminiText.ChunksSpec | cogs/Gemini.py:158 | the chunks concatenate back to the text; each is non-empty and at most the maximum; all but the last have exactly the maximum; there are none exactly when the text is empty |
| GeminiText.ChunkCount | cogs/Gemini.py:158 | the number of chunks is the ceiling of the length divided by the maximum |
| GeminiText.ChunkCountBounds | cogs/Gemini.py:158 | `c` chunks cover more than `(c - 1) * n` and at most `c * n` characters |
| GeminiText.ChunkAt | cogs/Gemini.py:158 | chunk `k` is the slice `text[k*n : k*n + n]`, clamped to the text |
| GeminiText.ChunksFirst | cogs/Gemini.py:158 | a non-empty text's first chunk starts with its first character |
| GeminiText.IsImage | cogs/Gemini.py:59 | `any(filename.lower().endswith(ext) for ext in [...])` over the five extensions; its meaning is carried by `IsImageIgnoresCase`, `ImageByExtension` and `ImageNameShape` |
| GeminiText.IsImageIgnoresCase | cogs/Gemini.py:59 | the extension test gives the same answer for a name and its lower-cased form (`A.PNG` is an image like `a.png`) |
| GeminiText.ImageByExtension | cogs/Gemini.py:59 | every name ending in `.png`, `.jpg`, `.jpeg`, `.gif` or `.webp` is an image |
| GeminiText.ImageNameShape | cogs/Gemini.py:112 | an image name has at least four characters and ends, case-insensitively, in `g`/`f`/`p` preceded by `n`/`p`/`e`/`i`/`b`, so `a.bmp` is not an image |
| GeminiCog.ChatSession.constructor | cogs/Gemini.py:33 | the session starts with an empty history |
| GeminiCog.ChatSession.Append | cogs/Gemini.py:68 | one entry is appended to the history and nothing else changes |
| GeminiCog.ChatSession.Clear | cogs/Gemini.py:46 | the history becomes empty |
| GeminiCog.Channel.Send | cogs/Gemini.py:160 | one message is appended to what the channel has received |
| GeminiCog.Relay | cogs/Gemini.py:137-154 | what the two response helpers return for a reply that did not raise: the text, or `❌` and the error (on the chat path the cog never records or sends the latter, see `TextExchange`); `RelayMarksFailures` states what this keeps |
| GeminiCog.RelayMarksFailures | cogs/Gemini.py:137-140 | the model's text passes through untouched; the error detail can be read back after the `❌` mark, so two failures relay alike only when their details agree; a failure never relays like a text that does not start with the mark |
| GeminiCog.ImagePrompt | cogs/Gemini.py:145 | the text part of the image request, a newline then the caption or the default question; `ImagePromptAsks` states it |
| GeminiCog.ImageReply | cogs/Gemini.py:143-147 | the image model is called with the image bytes, the `image/jpeg` type and `ImagePrompt` of the caption |
| GeminiCog.ImagePromptAsks | cogs/Gemini.py:145 | the image model is always asked a non-empty question after the newline: a non-empty caption as it is, an empty caption as `What is this a picture of?` |
| GeminiCog.FirstImage | cogs/Gemini.py:58-59 | the index of the first attachment that passes the extension test, none exactly when no attachment does |
| GeminiCog.FindFirstImage | cogs/Gemini.py:58-59 | the loop over the attachments stops at the first image and returns `FirstImage` |
| GeminiCog.SplitAndSend | cogs/Gemini.py:157-160 | the channel receives exactly the chunks of the text, in order |
| GeminiCog.Reset | cogs/Gemini.py:44-47 | the history is empty and the reset notice is sent |
| GeminiCog.TextExchange | cogs/Gemini.py:75-78 | after the user turn, the chat call; a text reply adds the library's two records and the model turn and is sent in 1700-character pieces; a raising call or an error reply adds nothing and sends nothing; `TextExchangeTurns` states it |
| GeminiCog.ImageExchange | cogs/Gemini.py:68-72 | after the user turn, the image call; a reply that does not raise adds the model turn with `Relay` of it and is sent in 1700-character pieces; `ImageExchangeTurns` states it |
| GeminiCog.AskOutcome | cogs/Gemini.py:53-78 | the history and messages `ask` leaves: a text exchange without attachments, nothing when no attachment is an image, the notice when the first image does not download, an image exchange otherwise; its meaning is carried by `AskAlternation`, `AskDelivery`, `AskTextTurns`, `AskDownloadFailed` and `AskIgnoresNonImageAttachments` |
| GeminiCog.Addressed | cogs/Gemini.py:101-105 | the listener answers a message not written by the bot, not mentioning everyone, and either mentioning the bot or in a direct channel |
| GeminiCog.OnMessageOutcome | cogs/Gemini.py:100-130 | the history and messages the listener leaves: the user turn is recorded first, then as `AskOutcome` except that a missing image or a failed download keeps that turn; its meaning is carried by `OnMessageRecordsUser`, `OnMessageUnanswered` and `OnMessageAlternation` |
| GeminiCog.Ask | cogs/Gemini.py:53-78 | the new history and the sent messages are those of `AskOutcome` on the old history |
| GeminiCog.OnMessage | cogs/Gemini.py:100-130 | the new history and the sent messages are those of `OnMessageOutcome` on the old history |
| GeminiCog.ShowHistory | cogs/Gemini.py:84-97 | the channel receives exactly `HistoryMessages` of the session's history; the history is unchanged |
| GeminiCog.RoleLabel | cogs/Gemini.py:92 | the role as the history prints it, `User` or `Model`; `RoleLabelCapitalized` ties it to `capitalize` |
| GeminiCog.TurnLine | cogs/Gemini.py:92-95 | the line of one dict entry, `**Role:** ` with the stripped joined parts and a newline; `TurnLineOfText` and `TranscriptStartsWithRole` state it |
| GeminiCog.Lines | cogs/Gemini.py:90-95 | the lines of the dict entries in history order, none for a library record; `LinesOfTurns` states the skipping |
| GeminiCog.Transcript | cogs/Gemini.py:89-95 | `history_output` before the final strip; `TranscriptAppend`, `TranscriptStartsWithRole` and `TranscriptOfExchange` state it |
| GeminiCog.HistoryMessages | cogs/Gemini.py:85-97 | the messages of the `history` command: the notice on an empty history, else 2000-character chunks of the stripped transcript; `HistoryMessagesSpec` states it |
| GeminiCog.Turns | cogs/Gemini.py:91 | the dict entries of the history, in order: never more than the history, and all of them turns |
| GeminiCog.RoleLabelCapitalized | cogs/Gemini.py:92 | the printed role is the capitalised role name |
| GeminiCog.TranscriptAppend | cogs/Gemini.py:90-95 | the transcript of two histories in a row is the two transcripts in a row |
| GeminiCog.LinesOfTurns | cogs/Gemini.py:91 | library entries contribute no line: the lines of a history are those of its turns |
| GeminiCog.TranscriptStartsWithRole | cogs/Gemini.py:94-95 | a history with a turn renders to text starting with the bold role marker |
| GeminiCog.TranscriptOfExchange | cogs/Gemini.py:75-77 | a text exchange adds exactly a user line and a model line to the transcript |
| GeminiCog.TurnLineOfText | cogs/Gemini.py:93-95 | a one-part turn renders as `**Role:** ` followed by its stripped text and a newline |
| GeminiCog.HistoryMessagesSpec | cogs/Gemini.py:85-97 | an empty history sends only the notice; otherwise the messages concatenate to the stripped transcript of the turns, each non-empty and at most 2000 characters; the first starts with `*` when there is a turn; nothing is sent when no entry is a turn |
| GeminiCog.TextExchangeTurns | cogs/Gemini.py:75-77 | after the user turn is recorded, a text exchange leaves the turns followed by the model's turn with its text and sends that text in 1700-character pieces; a raising call or an error reply leaves the user's turn alone and sends nothing |
| GeminiCog.ImageExchangeTurns | cogs/Gemini.py:68-72 | after the user turn is recorded, an image exchange leaves the turns followed by the model's turn with its text and sends that text in 1700-character pieces; a raising call leaves the user's turn alone and sends nothing |
| GeminiCog.TurnsOfTextExchange | cogs/Gemini.py:75-77 | a text exchange adds exactly the user turn and the model turn to the dict entries |
| GeminiCog.TurnsOfImageExchange | cogs/Gemini.py:68-71 | an image exchange adds exactly the user turn and the model turn |
| GeminiCog.AlternatingPair | cogs/Gemini.py:75-77 | a user turn followed by a model turn keeps the turns alternating |
| GeminiCog.AlternatingUnmatched | cogs/Gemini.py:108-118 | a lone user turn breaks the alternation |
| GeminiCog.AskAlternation | cogs/Gemini.py:53-78 | on alternating turns `ask` keeps them alternating exactly when the exchange it reaches does not raise: a raising model call, or an error reply on the chat path |
| GeminiCog.AskDownloadFailed | cogs/Gemini.py:57-64 | when the first image does not download, only the failure notice is sent and the history is unchanged |
| GeminiCog.AskTextTurns | cogs/Gemini.py:75-78 | a text-only `ask` records exactly the cleaned query and then the model's text and sends that text in 1700-character pieces; when the call raises or the reply carries an error it records the query alone and sends nothing |
| GeminiCog.AskDelivery | cogs/Gemini.py:53-78 | `ask` only extends the history; a raising exchange leaves just the user's turn and sends nothing; otherwise, when the history grows, the last entry is the model's turn holding exactly the sent text, in pieces of at most 1700 characters, and when it does not, at most the download-failure notice is sent |
| GeminiCog.AskIgnoresNonImageAttachments | cogs/Gemini.py:57-73 | attachments none of which is an image change nothing and send nothing |
| GeminiCog.OnMessageRecordsUser | cogs/Gemini.py:101-108 | messages from the bot, mentioning everyone, or not addressed to it change nothing; any other message first records the user's cleaned text |
| GeminiCog.OnMessageUnanswered | cogs/Gemini.py:108-118 | an addressed message with attachments none of which is an image leaves exactly the history plus the user's turn and sends nothing; when its first image does not download it leaves the same history and sends only the failure notice |
| GeminiCog.OnMessageAlternation | cogs/Gemini.py:108-130 | on alternating turns the listener keeps them alternating exactly when it does not leave the user's turn unanswered (no image among the attachments, a failed download, or an exchange that raises) |
| SlideOutline.Pieces | cogs/slide.py:123-127 | the texts the `while` loop appends from a given pair of positions on; `PiecesStep` and `StepAdvances` state one round |
| SlideOutline.AllPieces | cogs/slide.py:120-127 | the texts the loop appends from the first `find`s on; `CollectBetween`, `MissingTagGivesEmpty` and `PiecesOfLayout` state them |
| SlideOutline.TextBetweenTags | cogs/slide.py:119-133 | the result of `find_text_in_between_tags`: the joined texts with image spans removed, or `""` when none was collected; `BetweenTagsOfLayout` and `BetweenSinglePair` state it |
| SlideOutline.CollectBetween | cogs/slide.py:120-127 | the `while` loop collects exactly the between-texts `AllPieces`, in order |
| SlideOutline.PiecesStep | cogs/slide.py:124-127 | one round adds the slice between the current tags and moves to the next start tag after the end tag and the next end tag after that; a round that goes on moves the end position forward |
| SlideOutline.FindTextBetweenTags | cogs/slide.py:119-133 | the scanner returns `TextBetweenTags`: the collected between-texts joined with image spans removed, or `""` when nothing was collected |
| SlideOutline.StepAdvances | cogs/slide.py:126-127 | each round that goes on puts the end position at least one end-tag length further on, which is why the loop stops |
| SlideOutline.EmptyEndTagStalls | cogs/slide.py:126-127 | with an empty end tag the state after the first round maps to itself, so the loop would not stop |
| SlideOutline.MissingTagGivesEmpty | cogs/slide.py:120-123 | the loop collects something exactly when both tags occur; a missing tag gives `""` |
| SlideOutline.EndTagFirstGivesEmptyPiece | cogs/slide.py:124 | an end tag before the first start tag's text makes the first between-text empty |
| SlideOutline.LayoutStep | cogs/slide.py:126-127 | on well-formed pairs one round moves from pair `k` to pair `k + 1`, or finds no further start tag after the last |
| SlideOutline.PiecesOfLayout | cogs/slide.py:123-127 | on well-formed pairs the loop from pair `k` collects the between-texts of pairs `k`, `k + 1`, … |
| SlideOutline.BetweenTagsOfLayout | cogs/slide.py:123-129 | on well-formed pairs the result is the between-texts in document order, concatenated, with image spans removed |
| SlideOutline.PairTextsAt | cogs/slide.py:124 | the `i`-th collected text is the slice strictly between the `i`-th pair of tags |
| SlideOutline.BetweenSinglePair | cogs/slide.py:119-133 | one well-formed pair with no image span inside gives exactly the text between the tags |
| SlideOutline.ImageSpanEnd | cogs/slide.py:129 | a match at the front is -1 or ends after both image tags, within the text |
| SlideOutline.StripImageSpans | cogs/slide.py:129 | the substitution never lengthens the text |
| SlideOutline.StripImageSpansSubseq | cogs/slide.py:129 | the substitution only deletes characters |
| SlideOutline.NoImageSpanKept | cogs/slide.py:129 | a text without `[IMAGE]` is unchanged |
| SlideOutline.ImageSpanRemoved | cogs/slide.py:129 | an `[IMAGE]…[/IMAGE]` span on one line, closed by the first `[/IMAGE]` after its opening, is deleted whole |
| SlideOutline.ImageSpansPlainPrefix | cogs/slide.py:129 | text in which no `[IMAGE]` starts passes through unchanged, whatever brackets it holds |
| SlideOutline.ImageSpanRemovedAfter | cogs/slide.py:129 | such a span is deleted whole wherever it stands after text in which no span starts |
| SlideOutline.ImageSpanAfterBracketedWord | cogs/slide.py:129 | `[x] [IMAGE]cat[/IMAGE]!` becomes `[x] !`: the span goes and the bracketed word before it stays |
| SlideOutline.ImageSpanAcrossLineKept | cogs/slide.py:129 | a span whose text up to the first `[/IMAGE]` crosses a newline is not matched: its `[` stays |
| SlideOutline.SlideType | cogs/slide.py:135-138 | `search_for_slide_type`: the first of `[L_TS]`, `[L_CS]`, `[L_IS]`, `[L_THS]` the text contains, or none; `SlideTypePriority` states the list order |
| SlideOutline.FirstContained | cogs/slide.py:136-137 | the index of the first tag in list order that occurs in the text, none exactly when no tag occurs |
| SlideOutline.SlideTagsDistinct | cogs/slide.py:136 | the four slide-type tags are pairwise different |
| SlideOutline.SlideTypePriority | cogs/slide.py:135-138 | a text holding a tag has a slide type, and that type comes no later in the list than the tag, wherever the tags stand in the text |
| SlideOutline.SlideFor | cogs/slide.py:80-93 | the slide one piece makes, with the tag texts its layout needs, or none; `SlideForLayout` states the layouts |
| SlideOutline.SlidesFor | cogs/slide.py:79-93 | the slides of the pieces in order; `SlidesForAppend` and `SlidesForCount` state it |
| SlideOutline.SlideForLayout | cogs/slide.py:80-93 | a piece makes a slide exactly when it has a slide type, with layout 0, 1, 8 or 2 for title, content, image or thanks |
| SlideOutline.SlidesForAppend | cogs/slide.py:79-93 | the slides of consecutive pieces come in the order of the pieces |
| SlideOutline.SlidesForCount | cogs/slide.py:79-93 | there are never more slides than pieces, and pieces with no tag make none |
| SlideOutline.Deck.constructor | cogs/slide.py:38 | the presentation opens with the theme's slides |
| SlideOutline.Deck.RemoveAllSlides | cogs/slide.py:109-114 | removing slides from the last to the first leaves none |
| SlideOutline.Deck.AddTitleSlide | cogs/slide.py:140-144 | appends a layout-0 slide with the title and the subtitle in placeholder 1 |
| SlideOutline.Deck.AddSectionHeaderSlide | cogs/slide.py:146-149 | appends a layout-2 slide with only the title |
| SlideOutline.Deck.AddTitleAndContentSlide | cogs/slide.py:151-155 | appends a layout-1 slide with the content in placeholder 1 |
| SlideOutline.Deck.AddTitleContentImageSlide | cogs/slide.py:157-165 | appends a layout-8 slide with the content in placeholder 2 and the image query |
| SlideOutline.Deck.AddSlideFor | cogs/slide.py:80-93 | one piece adds exactly the slide `SlideFor` gives, or nothing |
| SlideOutline.Deck.AddOutline | cogs/slide.py:76-93 | the deck gains the slides of the `[SLIDEBREAK]` pieces, in order |
| SlideOutline.Deck.GeneratePpt | cogs/slide.py:41-107 | the deck holds exactly the outline's slides and the file is named after the first slide's title, or fails when there is none |
| SlideOutline.FindTitle | cogs/slide.py:116-117 | there is a title exactly when there is a slide, and it is the first slide's title |
| SlideOutline.FileTitle | cogs/slide.py:96-101 | the file-name title: colons joined away, stripped, forbidden characters deleted, the fallback when empty; `FileTitleSpec` and `FileTitleKeepsSafeTitle` state it |
| SlideOutline.PptFileName | cogs/slide.py:96-104 | the saved file is `FileTitle` of the first slide's title with `.pptx`, or an error without slides |
| SlideOutline.FileTitleSpec | cogs/slide.py:96-101 | the file-name title is never empty, holds none of `<>:"/\|?*`, and is the fallback or what is left of the title after deleting characters |
| SlideOutline.FallbackIsSafe | cogs/slide.py:100-101 | the fallback title is non-empty and holds no forbidden character |
| SlideOutline.FileTitleKeepsSafeTitle | cogs/slide.py:96-101 | a title that is already a safe name is used as it is |

## Left out

- The voice cog and the server-setup cog are not part of this model. They are
  Discord and speech I/O with no logic of their own.
- The network is not modelled:
  - the Gemini `send_message`/`generate_content` calls;
  - the aiohttp attachment download;
  - the Pexels search and the `requests` image download.
  The two models and the download are function-typed parameters. A reply the
  library reports as an error is `Reply.Failed`. An exception from a model
  call is `Reply.Raised`: the command stops there, and what the bot framework
  then does with the exception is not modelled. An exception from the
  download itself (a connection error rather than a status code) is not
  modelled.
- GeminiCog.TextExchange: after an error reply on the chat path, the session
  raises on every later read of its history until `reset` assigns a new one.
  The model records no such state: each later command starts from the
  history as it was left. The library's behaviour behind this is described
  above, not modelled.
- The text model receives the history and the prompt. The library's own use
  of its history is not modelled.
- The python-pptx layer is not modelled: placeholders, `add_picture`, saving,
  and the hard-coded Windows paths. A slide is a record of its layout index,
  title, placeholder texts and image query. The picture itself is not
  represented.
- SlideOutline.FindTitle: reading the title back from the first slide is
  taken to return the text that was set. Any normalisation python-pptx applies
  to text frames is not modelled.
- The random image file name and the floating-point generation configuration
  are left out.
- Typing indicators, reactions, `print` logging and the `slide` command's
  working and edit messages are left out. So is the prompt text sent to the
  model.
- Concurrency is not modelled. Each command runs to completion on the shared
  session, and interleaved commands are not modelled.
- PyStr.Lower: only ASCII letters are mapped. Python's full Unicode case
  mapping is not modelled.
- PyStr.Capitalize: only ASCII letters are mapped, for the same reason.
- SlideOutline.FindTextBetweenTags: requires a non-empty end tag. Every caller
  passes a constant non-empty tag, and with an empty one the loop would not
  stop (`EmptyEndTagStalls`).
