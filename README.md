# Wikipedia quiz generator — a Dafny model

This project models the core of a web application that turns an English Wikipedia
article into a multiple-choice quiz, together with proofs of properties of that model.
It has two parts.

- **The server function** (`supabase/functions/generate-quiz/index.ts`):
  - the HTTP handler checks the request's `url`;
  - `scrapeWikipedia` extracts the article title from the URL and the section headings
    and plain text from the fetched page;
  - `generateQuizWithAI` maps the completion service's failures to messages, takes the
    reply text, strips a Markdown fence and defaults the missing fields of the parsed
    reply;
  - the handler stores the quiz and answers with 200, 400 or 500 and a JSON payload.
- **The quiz page** (`src/components/QuizDisplay.tsx`, `src/components/QuizCard.tsx`):
  - each card's answered/revealed state;
  - the page's quiz mode and score tally;
  - the option labels and difficulty badges;
  - the links to related topics.

Modules, one per file:

| file | module | models |
|---|---|---|
| `text.dfy` | `Text` | JavaScript whitespace, `trim`, `includes`, `startsWith`/`endsWith`, single-character `replace`, decimal rendering of numbers |
| `js_value.dfy` | `JsValue` | JSON values, JavaScript truthiness, `x \|\| d`, property reads (which throw on `null`) |
| `errors.dfy` | `Errors` | every failure the server raises and its exact message |
| `cleanup.dfy` | `Cleanup` | the regular-expression clean-up of the page text, each global `replace` written as the scan the engine performs, and the length limit |
| `scrape.dfy` | `Scrape` | the article title, the section headings, `scrapeWikipedia` |
| `generate.dfy` | `Generate` | the status mapping, the reply text, removing the fence, defaulting fields, `generateQuizWithAI` |
| `handler.dfy` | `Handler` | the URL check, the order of failures, status codes and payloads |
| `quiz_card.dfy` | `Card` | `QuizCard` as a class with its three state cells |
| `quiz_display.dfy` | `Display` | `QuizDisplay` as a class holding its cards, the score tally, related-topic links |

The environment, the remote services and the library calls the model cannot see are
parameters:

- `decodeURIComponent` is `decode: string -> Option<string>`, where `None` means it
  throws.
- `encodeURIComponent` is `encode: string -> string`.
- `JSON.parse` is `parse: string -> Option<Json>`.
- The fetched page is a `Page`. It holds:
  - the status;
  - the HTML;
  - the headline texts: what line 65 captures from each match of the headline matcher (line 62);
  - where the main-content matcher's capture lies.
- The completion response is an `AiResponse`: its status and its parsed body.
- The database insert is a `DbOutcome`.
- The API key is `Option<string>`.

`resetQuiz` (QuizDisplay.tsx lines 23-27) clears only the page's mode and counters.
Each card keeps its own state, so an answered card stays answered.

## Model

| member | source | states |
|---|---|---|
| Text.Contains | supabase/functions/generate-quiz/index.ts:223 | `includes`: `p` occurs at some index of `s`, the empty string included |
| Text.StartsWith | supabase/functions/generate-quiz/index.ts:186 | `startsWith`: the first `|p|` characters of `s` are `p` |
| Text.EndsWith | supabase/functions/generate-quiz/index.ts:187 | the `$`-anchored closing fence: the last `|p|` characters of `s` are `p` |
| Text.Trim | supabase/functions/generate-quiz/index.ts:82 | the result has no whitespace at either end and is the slice of the input left after removing leading and trailing whitespace (JavaScript's whitespace set) |
| Text.TrimOfTrimmed | supabase/functions/generate-quiz/index.ts:82 | trimming a string with no whitespace at either end returns it unchanged |
| Text.ReplaceChar | supabase/functions/generate-quiz/index.ts:38 | a global single-character replace keeps the length and changes exactly the occurrences of that character |
| Text.ReplaceCharRoundTrip | src/components/QuizDisplay.tsx:166 | replacing `x` by `y` and then `y` by `x` restores a string that did not contain `y` |
| Text.DecimalString | supabase/functions/generate-quiz/index.ts:170 | a number is rendered as a non-empty string of decimal digits whose value is the number, with no leading zero |
| Text.DecimalStringInjective | supabase/functions/generate-quiz/index.ts:170 | different numbers render differently |
| JsValue.Truthy | supabase/functions/generate-quiz/index.ts:195-199 | JavaScript truthiness: false exactly for a missing value, `null`, `false`, `0` and `""`; every array and object is truthy |
| JsValue.OrDefault | supabase/functions/generate-quiz/index.ts:195-199 | `x \|\| d` is `x` when `x` is truthy and `d` otherwise |
| JsValue.Property | supabase/functions/generate-quiz/index.ts:213 | reading a property throws exactly on `null`; an object's own key gives its value |
| Errors.IsOkStatus | supabase/functions/generate-quiz/index.ts:47 | `response.ok`: a status from 200 to 299 |
| Errors.Message | supabase/functions/generate-quiz/index.ts:271-278 | a failure has a message exactly when the server raises it itself; runtime errors have none in the model |
| Cleanup.BlockMatch | supabase/functions/generate-quiz/index.ts:56-59 | the match length of `/<name[^>]*>[\s\S]*?<\/name>/i` at the start of the text: `<name` in any case, the opening tag up to its first `>`, then up to the earliest `</name>` in any case; a match is non-empty and fits the text (`BlockMatchOfBlock` and `NoBlockWithoutAngle` pin it) |
| Cleanup.RemoveBlocks | supabase/functions/generate-quiz/index.ts:56-59 | one global replace with `""`; its contract only bounds the length. Its meaning is carried by `RemoveBlocksKeepsChar` and `RemoveBlocksSkipsMatch` (one scan step each), `RemoveBlocksDropsBlock`, `RemoveBlocksKeepsUnopenedPrefix` and `RemoveBlocksWithoutOpening` |
| Cleanup.RemoveNonContentBlocks | supabase/functions/generate-quiz/index.ts:55-59 | removing the script, style, nav and footer blocks never lengthens the document |
| Cleanup.RemoveBlocksKeepsPlainText | supabase/functions/generate-quiz/index.ts:55-59 | text without `<` is left unchanged |
| Cleanup.BlockMatchOfBlock | supabase/functions/generate-quiz/index.ts:56-59 | a complete `<name ...>body</name>` block is matched exactly to its closing tag |
| Cleanup.NoBlockWithoutAngle | supabase/functions/generate-quiz/index.ts:56-59 | no block match starts at a character other than `<` |
| Cleanup.RemoveBlocksSkipsMatch | supabase/functions/generate-quiz/index.ts:56-59 | a block that matches at the start of the text is removed, and the scan continues after the match |
| Cleanup.RemoveBlocksDropsBlock | supabase/functions/generate-quiz/index.ts:56-59 | a complete block is removed when no block of its kind opens in the text before it (any other markup may be there) and its body does not contain its closing tag in any letter case. The text before it is kept, and the rest is processed in the same way |
| Cleanup.RemoveBlocksKeepsUnopenedPrefix | supabase/functions/generate-quiz/index.ts:56-59 | a prefix at none of whose positions a block opens is copied unchanged, and the scan continues after it |
| Cleanup.RemoveBlocksWithoutOpening | supabase/functions/generate-quiz/index.ts:56-59 | text in which `<name` never starts, in any letter case, is left unchanged by that block's replace |
| Cleanup.RemoveNonContentBlocksDropsBlock | supabase/functions/generate-quiz/index.ts:55-59 | the four replaces together remove one script, style, nav or footer block, body and all, and keep the text around it. Ordinary markup may surround the block. The conditions are: none of the four kinds opens in the surrounding text joined up, and no block of a kind removed earlier opens anywhere |
| Cleanup.SelectMainContent | supabase/functions/generate-quiz/index.ts:71-74 | with no capture the document is kept; otherwise the capture replaces it, and the result is always a contiguous piece of the document |
| Cleanup.TagFreeIsNoTag | supabase/functions/generate-quiz/index.ts:78 | the pointwise tag-free condition holds exactly when no substring is a tag (`<`, at least one character other than `>`, then `>`) |
| Cleanup.TagMatch | supabase/functions/generate-quiz/index.ts:78 | the match of `/<[^>]+>/` at the start of the text: at least three characters, and the matched piece is a tag (`<`, no `>` inside, `>`) |
| Cleanup.StripTags | supabase/functions/generate-quiz/index.ts:78 | every output character is a space or comes from the input |
| Cleanup.StripTagsLeavesNoTag | supabase/functions/generate-quiz/index.ts:78 | after replacing every tag with a space, no substring is a tag, including tags the replacements could have formed |
| Cleanup.StripTagsTagFree | supabase/functions/generate-quiz/index.ts:78 | the tag step's output satisfies the pointwise tag-free condition |
| Cleanup.CitationMatch | supabase/functions/generate-quiz/index.ts:79 | the match of `/\[\d+\]/` at the start of the text, at least three characters (`CitationMatchOfMarker` and `CitationMatchBeforeBracket` pin it) |
| Cleanup.RemoveCitations | supabase/functions/generate-quiz/index.ts:79 | removing citations never lengthens the text, and every output character comes from the input |
| Cleanup.CitationMatchOfMarker | supabase/functions/generate-quiz/index.ts:79 | a `[digits]` marker is matched exactly |
| Cleanup.RemoveCitationsDropsMarker | supabase/functions/generate-quiz/index.ts:79 | a citation marker is removed, and the scan continues after it, when no marker starts in the text before it; that text may hold other brackets such as `[edit]` |
| Cleanup.RemoveCitationsKeepsUnmatchedPrefix | supabase/functions/generate-quiz/index.ts:79 | a prefix at none of whose positions a marker matches is copied unchanged, and the scan continues after it |
| Cleanup.CitationMatchBeforeBracket | supabase/functions/generate-quiz/index.ts:79 | a `[` right after a text does not change what matches at the text's start, so no marker straddles a text and a following marker |
| Cleanup.CitationRemovalIsSinglePass | supabase/functions/generate-quiz/index.ts:79 | the replace makes a single pass: removing `[1]` from `[[1]2]` leaves a new citation `[2]` in place |
| Cleanup.RemoveCitationsKeepsTagFree | supabase/functions/generate-quiz/index.ts:79 | removing citations keeps text tag-free |
| Cleanup.EntityMatch | supabase/functions/generate-quiz/index.ts:80 | the match of `/&[a-z]+;/i` at the start of the text: at least three characters, and the matched piece is `&`, ASCII letters, `;` |
| Cleanup.RemoveEntities | supabase/functions/generate-quiz/index.ts:80 | every output character is a space or comes from the input |
| Cleanup.EntityBodyComesFromInput | supabase/functions/generate-quiz/index.ts:80 | the entity step never creates the letters-then-`;` that would complete an entity |
| Cleanup.RemoveEntitiesLeavesNoEntity | supabase/functions/generate-quiz/index.ts:80 | after the step no substring is an entity (`&`, ASCII letters, `;`) |
| Cleanup.RemoveEntitiesKeepsTagFree | supabase/functions/generate-quiz/index.ts:80 | replacing entities with spaces keeps text tag-free |
| Cleanup.CollapseWhitespace | supabase/functions/generate-quiz/index.ts:81 | the result is empty exactly when the input is, and starts with whitespace exactly when the input does |
| Cleanup.CollapseSpacing | supabase/functions/generate-quiz/index.ts:81 | after the collapse every whitespace character is a plain space and no two are adjacent |
| Cleanup.CollapseFromInput | supabase/functions/generate-quiz/index.ts:81 | every character the collapse leaves is a space or a character of the input |
| Cleanup.CollapseKeepsNonSpace | supabase/functions/generate-quiz/index.ts:81 | collapsing keeps the sequence of non-whitespace characters |
| Cleanup.CollapseKeepsNormalText | supabase/functions/generate-quiz/index.ts:81 | text that already has only single plain spaces is unchanged |
| Cleanup.CollapseRunBetween | supabase/functions/generate-quiz/index.ts:81 | a whitespace run between a non-space character and a non-space character or the end becomes exactly one space, and both sides are collapsed on their own |
| Cleanup.CollapseRunFront | supabase/functions/generate-quiz/index.ts:81 | a leading whitespace run becomes exactly one space |
| Cleanup.CollapseKeepsTagFree | supabase/functions/generate-quiz/index.ts:81 | collapsing keeps text tag-free |
| Cleanup.TrimKeepsSpacing | supabase/functions/generate-quiz/index.ts:82 | trimming keeps single plain spacing |
| Cleanup.TrimKeepsNonSpace | supabase/functions/generate-quiz/index.ts:82 | trimming keeps the sequence of non-whitespace characters |
| Cleanup.NormalizeWhitespace | supabase/functions/generate-quiz/index.ts:81-82 | the result is trimmed, uses only plain spaces and never two in a row |
| Cleanup.NormalizeRunBetween | supabase/functions/generate-quiz/index.ts:81-82 | two trimmed, non-empty words joined by any whitespace run come out joined by exactly one space |
| Cleanup.NormalizeKeepsNonSpace | supabase/functions/generate-quiz/index.ts:81-82 | normalizing whitespace keeps the sequence of non-whitespace characters |
| Cleanup.NormalizeFixesNormalText | supabase/functions/generate-quiz/index.ts:81-82 | already-normal text is a fixed point |
| Cleanup.NormalizeIdempotent | supabase/functions/generate-quiz/index.ts:81-82 | normalizing twice is the same as normalizing once |
| Cleanup.NormalizeKeepsTagFree | supabase/functions/generate-quiz/index.ts:81-82 | normalizing keeps text tag-free |
| Cleanup.Truncate | supabase/functions/generate-quiz/index.ts:85-88 | text of at most 15000 characters is kept; longer text becomes its first 15000 characters followed by `...` |
| Cleanup.TruncateKeepsShape | supabase/functions/generate-quiz/index.ts:85-88 | truncating keeps normal whitespace and keeps text tag-free |
| Cleanup.CleanText | supabase/functions/generate-quiz/index.ts:77-88 | the five replaces and the trim in source order, then the length limit; what the result promises is `CleanTextShape` |
| Cleanup.CleanTextShape | supabase/functions/generate-quiz/index.ts:77-88 | the cleaned text has no tag, normal whitespace and at most 15003 characters |
| Scrape.PathMatchAt | supabase/functions/generate-quiz/index.ts:33 | `/\/wiki\/(.+)$/` matches at index `i`: `/wiki/` there, followed by at least one character and no line terminator up to the end |
| Scrape.FindPath | supabase/functions/generate-quiz/index.ts:33 | the leftmost position where `/wiki/` is followed, up to the end, by at least one character other than a line terminator |
| Scrape.ArticlePath | supabase/functions/generate-quiz/index.ts:33 | no match exactly when no position matches; otherwise the capture starts after the leftmost match of `/wiki/`, is non-empty, has no line terminator and runs to the end of the URL |
| Scrape.ArticleTitle | supabase/functions/generate-quiz/index.ts:33-38 | "Invalid Wikipedia URL format" exactly when there is no match; a runtime error exactly when decoding fails; when decoding succeeds, `Ok` of the decoded capture with `_` read as a space |
| Scrape.NoPathInHost | supabase/functions/generate-quiz/index.ts:33 | `/wiki/` does not occur inside `https://en.wikipedia.org` |
| Scrape.ArticlePathOfArticleUrl | supabase/functions/generate-quiz/index.ts:33-38 | the capture of `https://en.wikipedia.org/wiki/<e>` is `<e>` |
| Scrape.BareArticleBaseHasNoTitle | supabase/functions/generate-quiz/index.ts:33-36 | `https://en.wikipedia.org/wiki/` passes the URL check but fails with "Invalid Wikipedia URL format" |
| Scrape.TrimAll | supabase/functions/generate-quiz/index.ts:64-67 | every headline is trimmed, and order and count are kept |
| Scrape.KeepSections | supabase/functions/generate-quiz/index.ts:68 | the filter keeps only non-empty headings outside the stop list, taken from its input |
| Scrape.Sections | supabase/functions/generate-quiz/index.ts:62-68 | at most one section per headline; every section is a trimmed headline that is non-empty and not in the stop list |
| Scrape.SectionsTrimmed | supabase/functions/generate-quiz/index.ts:64-68 | every section has no whitespace at either end |
| Scrape.TrimAllAppend | supabase/functions/generate-quiz/index.ts:64-67 | trimming distributes over concatenation |
| Scrape.KeepSectionsAppend | supabase/functions/generate-quiz/index.ts:68 | the filter distributes over concatenation, so it keeps order |
| Scrape.SectionsAppend | supabase/functions/generate-quiz/index.ts:63-68 | the sections of two runs of headlines are the sections of each, in order |
| Scrape.KeepSectionsComplete | supabase/functions/generate-quiz/index.ts:68 | every heading that passes the filter is kept |
| Scrape.SectionsComplete | supabase/functions/generate-quiz/index.ts:63-68 | every headline whose trimmed text passes the filter appears among the sections |
| Scrape.KeepSectionsOfKept | supabase/functions/generate-quiz/index.ts:68 | a list in which every heading passes is unchanged |
| Scrape.SectionsOfCleanHeadlines | supabase/functions/generate-quiz/index.ts:63-68 | headlines that are trimmed and pass the filter come back unchanged, duplicates included |
| Scrape.StopListedHeadlineDropped | supabase/functions/generate-quiz/index.ts:68 | a headline whose trimmed text is in the stop list is dropped |
| Scrape.MainText | supabase/functions/generate-quiz/index.ts:55-74 | the text handed to clean-up is a contiguous piece of the page with its non-content blocks removed |
| Scrape.ScrapeWikipedia | supabase/functions/generate-quiz/index.ts:29-93 | a title error comes first, then "Failed to fetch Wikipedia page: <status>" for a status outside 200-299, otherwise success. On success: the decoded title, the filtered sections, and the cleaned main text, which has no tag, normal whitespace and at most 15003 characters |
| Generate.StatusFailure | supabase/functions/generate-quiz/index.ts:164-170 | 429 means rate limited, 402 means credits exhausted, and any other status means "AI generation failed: <status>" |
| Generate.StatusFailureMessages | supabase/functions/generate-quiz/index.ts:170 | two different other statuses give two different messages |
| Generate.OptionalProperty | supabase/functions/generate-quiz/index.ts:174 | `?.` gives something exactly on an object that has the key, and then the key's value; a missing key, a missing or `null` value and any non-object give nothing |
| Generate.OptionalFirst | supabase/functions/generate-quiz/index.ts:174 | `?.[0]` gives something exactly for a non-empty array (its first element), an object with key `"0"` (that field) or a non-empty string (its first character); nothing otherwise |
| Generate.CompletionContent | supabase/functions/generate-quiz/index.ts:173-174 | reading the reply throws exactly when the body is `null` |
| Generate.CompletionContentOfBody | supabase/functions/generate-quiz/index.ts:174 | a well-formed completion body yields its first choice's message content |
| Generate.CompletionContentWithoutChoices | supabase/functions/generate-quiz/index.ts:174 | an object without `choices` yields nothing rather than an error |
| Generate.ReplyText | supabase/functions/generate-quiz/index.ts:160-178 | a non-2xx status maps to its failure; "No response from AI" exactly when a 2xx body's content is falsy; a runtime error exactly for a missing or `null` body or truthy content that is not a string; non-empty string content is returned as it is |
| Generate.DropLeadingFence | supabase/functions/generate-quiz/index.ts:187 | the longest of the openings ```` ```json\n ````, ```` ```json ````, ```` ```\n ````, ```` ``` ```` that the text starts with is removed, and the rest is kept |
| Generate.DropTrailingFence | supabase/functions/generate-quiz/index.ts:187 | a closing ```` ``` ````, with its preceding newline if there is one, is removed; the text is unchanged exactly when it does not end with a fence |
| Generate.Unfence | supabase/functions/generate-quiz/index.ts:186-188 | text starting with a fence loses its opening and then its closing fence; other text is kept; the result is never longer |
| Generate.DropJsonOpening | supabase/functions/generate-quiz/index.ts:187 | the opening ```` ```json\n ```` is removed whole |
| Generate.DropPlainOpening | supabase/functions/generate-quiz/index.ts:187 | the opening ```` ```\n ```` is removed whole |
| Generate.StripFence | supabase/functions/generate-quiz/index.ts:183-188 | an unfenced reply is just trimmed; a fenced one is trimmed, then loses its opening and then its closing fence; removal only shortens |
| Generate.FencedIsTrimmed | supabase/functions/generate-quiz/index.ts:183-186 | a fenced block is already trimmed |
| Generate.DropClosingFence | supabase/functions/generate-quiz/index.ts:187 | `c` followed by a newline and a fence gives back `c` |
| Generate.StripJsonFence | supabase/functions/generate-quiz/index.ts:183-188 | ```` ```json\n<c>\n``` ```` gives back `c` |
| Generate.StripPlainFence | supabase/functions/generate-quiz/index.ts:183-188 | ```` ```\n<c>\n``` ```` gives back `c` |
| Generate.StripFenceOnce | supabase/functions/generate-quiz/index.ts:183-188 | only one fence is removed at each end |
| Generate.FieldOr | supabase/functions/generate-quiz/index.ts:195-199 | a truthy field is kept; otherwise the default is used |
| Generate.BuildQuizData | supabase/functions/generate-quiz/index.ts:190-204 | "Failed to parse AI response as JSON" exactly when parsing fails or gives `null`; otherwise title and sections come from the caller, and summary, key entities, quiz and related topics are each the parsed field when truthy and its default otherwise |
| Generate.BuiltFieldsSettled | supabase/functions/generate-quiz/index.ts:195-199 | every field of a built quiz is truthy, or is the empty summary |
| Generate.BuildQuizDataIdempotent | supabase/functions/generate-quiz/index.ts:193-200 | building again from a built quiz gives it back |
| Generate.EmptyReplyGetsDefaults | supabase/functions/generate-quiz/index.ts:193-200 | an empty object gives the documented defaults |
| Generate.QuestionsNotChecked | supabase/functions/generate-quiz/index.ts:193-200 | a question whose answer is not among its options, with an unknown difficulty, is passed through unchanged |
| Generate.GenerateQuizWithAI | supabase/functions/generate-quiz/index.ts:95-205 | a missing or empty key comes first, then the reply's failure, and then the built quiz from the fence-stripped reply; title and sections are preserved |
| Handler.RequestUrl | supabase/functions/generate-quiz/index.ts:213 | an unreadable body or a `null` body throws; otherwise the result is the body's `url` property, present exactly when an object body has that key |
| Handler.Gate | supabase/functions/generate-quiz/index.ts:215-228 | "Wikipedia URL is required" exactly for a falsy `url`. A non-empty string fails with "Please provide a valid Wikipedia URL" exactly when it lacks `wikipedia.org/wiki/`. The check passes exactly for a string containing the marker. A truthy array gets the 400 "Please provide a valid Wikipedia URL" when no element equals the marker. Otherwise, like any other truthy non-string, it fails with the runtime's TypeError (line 223, or line 33 for an array holding the marker) |
| Handler.GateOnStrings | supabase/functions/generate-quiz/index.ts:215-228 | for string URLs, each of the three outcomes happens exactly under its condition |
| Handler.ArticleUrlPassesGate | supabase/functions/generate-quiz/index.ts:223 | every `https://en.wikipedia.org/wiki/...` URL passes |
| Handler.FailureReply | supabase/functions/generate-quiz/index.ts:271-278 | a failure is answered with 500 and its message |
| Handler.ExpectedRow | supabase/functions/generate-quiz/index.ts:233-255 | a row exists exactly when title, reply and parsing succeed; it holds the URL, the id, the timestamp, the sections, the decoded title, and summary, key entities, quiz and related topics defaulted from the parsed reply |
| Handler.Answers | supabase/functions/generate-quiz/index.ts:233-278 | the reference outcome of the handler after the gate: the failure of the first stage that fails (title, page status, key, reply, parse, insert) answered with 500 and its message, otherwise 200 with the saved row |
| Handler.Process | supabase/functions/generate-quiz/index.ts:233-278 | the status is 200 or 500, and 200 exactly when a row is saved. The answer is fixed for every input: the first failing stage among title, page status, API key, completion reply, parsing and insert gives a 500 with its message; when all succeed, 200 with the expected row |
| Handler.Serve | supabase/functions/generate-quiz/index.ts:207-280 | `OPTIONS` requests get the preflight answer. A 400 comes exactly for a URL rejected by the check, with that message. Every 500 carries an error, and a 200 carries the expected row for the checked URL. For an admitted URL the answer is the one the pipeline's stages fix, failure by failure, with 200 and the row when all succeed |
| Card.QuizCard.constructor | src/components/QuizCard.tsx:14-16 | nothing is selected; explanation and answer are shown exactly when the card is mounted outside quiz mode |
| Card.QuizCard.HandleOptionClick | src/components/QuizCard.tsx:18-27 | a click counts exactly in quiz mode on a card whose buttons are enabled. It then selects the option, reveals the card, shows the explanation and reports once whether the option is the answer. Otherwise nothing changes |
| Card.QuizCard.OptionsDisabled | src/components/QuizCard.tsx:75 | the option buttons are disabled exactly when the card is revealed in quiz mode; `HandleOptionClick` counts a click exactly when they are not |
| Card.QuizCard.OptionMark | src/components/QuizCard.tsx:66-96 | the mark before an option: a tick on the answer once shown, a cross on a wrong selection once shown, otherwise the option's letter (`MarksAfterAnswer`, `MarksOutsideQuizMode`) |
| Card.QuizCard.ToggleExplanation | src/components/QuizCard.tsx:112-114 | outside quiz mode the explanation's visibility flips; nothing else changes |
| Card.MarksAfterAnswer | src/components/QuizCard.tsx:66-96 | once answered in quiz mode, the chosen option shows a tick when correct and a cross otherwise, and other wrong options keep their letter |
| Card.MarksOutsideQuizMode | src/components/QuizCard.tsx:69-96 | outside quiz mode every option shows its letter |
| Card.OptionLabel | src/components/QuizCard.tsx:95 | the label of option `i` is the character with code 65 + `i` |
| Card.OptionLabels | src/components/QuizCard.tsx:95 | the first four options are A to D, and the first 26 labels are capital letters |
| Card.OptionLabelsOrdered | src/components/QuizCard.tsx:95 | labels follow the option order, so no two options share a label |
| Card.DifficultyStyles | src/components/QuizCard.tsx:29-40 | each of `easy`, `medium` and `hard` gets its own badge class; anything else gets the muted default |
| Card.DifficultyStylesDistinct | src/components/QuizCard.tsx:29-40 | the three badges differ from each other and from the default, and the match is case-sensitive |
| Display.MountCards | src/components/QuizDisplay.tsx:144-152 | one fresh card per question, in order, each a distinct object mounted in the given mode |
| Display.QuizDisplay.constructor | src/components/QuizDisplay.tsx:14-16 | the page starts outside quiz mode with score and answered count zero, and every card is mounted outside quiz mode and already revealed |
| Display.QuizDisplay.HandleAnswer | src/components/QuizDisplay.tsx:18-21 | the answered count rises by one, the score rises by one exactly for a correct answer, and `0 <= score <= answeredCount` is kept |
| Display.QuizDisplay.ResetQuiz | src/components/QuizDisplay.tsx:23-27 | quiz mode is off and the counters are zero; the cards are untouched |
| Display.QuizDisplay.TakeQuiz | src/components/QuizDisplay.tsx:134 | quiz mode is on; counters and cards are untouched |
| Display.QuizDisplay.ClickOption | src/components/QuizDisplay.tsx:144-151 | a click on card `k` is counted exactly in quiz mode on an unrevealed card. The score rises exactly for the answer, and the card shows the option selected, revealed and explained and joins the answered cards. Otherwise nothing is counted and the card is unchanged |
| Display.QuizDisplay.ClickCard | src/components/QuizCard.tsx:18-27 | only card `k` changes; it joins the answered cards exactly when it reports, and it was not among them before |
| Display.QuizDisplay.StartQuiz | src/components/QuizDisplay.tsx:134 | the corrected button: quiz mode is on, the counters are zero, and every card is fresh and unrevealed |
| Display.QuizDisplay.AllAnswered | src/components/QuizDisplay.tsx:29 | `allAnswered`: the answered count equals the number of questions (`AllAnsweredMeansEveryCardReported`) |
| Display.AnsweredBounded | src/components/QuizDisplay.tsx:29 | while the cards stay mounted, `0 <= score <= answeredCount <= number of questions` |
| Display.AllAnsweredMeansEveryCardReported | src/components/QuizDisplay.tsx:29 | when `allAnswered` holds, every card has reported its answer |
| Display.AnswerAfterTakeQuiz | src/components/QuizDisplay.tsx:134 | as written: after "Take Quiz" a click on any card is ignored, and the score and answered count stay zero |
| Display.AnswerAfterStartQuiz | src/components/QuizDisplay.tsx:134 | corrected: after entering quiz mode, the first click on a card is counted and scored by whether it is the answer |
| Display.RelatedTopicLink | src/components/QuizDisplay.tsx:166 | the link is the article base followed by the encoded topic, with spaces turned into underscores |
| Display.RelatedTopicTitle | src/components/QuizDisplay.tsx:166 | the server reads a related-topic link back as that topic, with underscores as spaces |
| Display.RelatedTopicRoundTrip | src/components/QuizDisplay.tsx:166 | a topic without underscores comes back exactly |

## Left out

- Network, database and environment access are not modelled. The fetches, the insert,
  `Deno.env` and `console` logging are replaced by the parameters listed above.
- The request headers and CORS headers, the prompts, the model name, `temperature` and
  `max_tokens` are not modelled. They do not affect any decision the code makes.
- `decodeURIComponent`, `encodeURIComponent` and `JSON.parse` are abstract functions.
  - Their own algorithms are not modelled.
  - `Display.UriCodec` lists the properties of the two URI functions that the
    related-topic lemmas use.
- The headline matcher (line 62) and the main-content matcher (line 71) are inputs: the
  page's captures. Their regular expressions are not modelled.
  - The second match of each headline (line 65, `/>([^<]+)<\/span>/`) is assumed to
    succeed, giving the same text. That match is case-sensitive, while line 62 ignores
    case. So a headline closed by `</SPAN>`, or by `</span>` in any other case, becomes
    `""` at line 66 and is dropped at line 68. The model keeps it.
  - `Scrape.WellFormedPage` requires only that the main-content capture lies within the
    document.
  - Modelling these two expressions would mean modelling lazy matching across the whole
    page, which adds nothing to the properties above.
- A fetch that rejects (a network failure at index.ts line 41 or line 143) is not
  expressible: `Page` and `AiResponse` always carry a status. In the source such a
  rejection reaches the `catch` of line 271 and is answered with 500 and the runtime's
  message.
- Message texts of runtime errors (`TypeError`, `URIError`, unreadable request bodies)
  are not modelled: they come from the JavaScript engine. `Errors.ThrownByRuntime`
  stands for them. The model still gives their status, 500.
- Strings are sequences of Unicode scalar values. JavaScript counts UTF-16 code units,
  so `Cleanup.Truncate` and the `String.fromCharCode` label differ from the source for
  text outside the Basic Multilingual Plane.
- Card.OptionLabel: requires `i < 0xD800 - 65` so that the code is not a surrogate. No
  card has that many options.
- The rendering markup, CSS classes other than the difficulty badges, animations and
  the key-entity badges are not modelled.
- The conversion of quiz JSON into `Question` values on the page is not modelled. Only
  `types/quiz.ts` describes that shape.
- The other UI files and the client library are not modelled: `Index.tsx`,
  `HistoryTab.tsx`, `GenerateQuizTab.tsx` and `api.ts`.
- The database row is only the inserted fields plus the id and timestamp the
  database returns. Database-side defaults and column types are not modelled.
- React's batching of state updates is not modelled. Each handler's updates are applied
  in order, which gives the same result for these handlers.

## Findings

| source | as written | input that shows it | evidently intended | confidence | as-written member | corrected member |
|---|---|---|---|---|---|---|
| src/components/QuizDisplay.tsx:134 | React mounts the cards (lines 144-151) while `isQuizMode` is still false. Each card initialises `isRevealed` to `!isQuizMode`, which is true (QuizCard.tsx line 16). Pressing "Take Quiz" only sets the page's flag, and `handleOptionClick` returns early on a revealed card (QuizCard.tsx line 19). | any quiz with at least one question: press "Take Quiz", then click any option of any card | entering quiz mode lets each question be answered once and scored: a question goes from unanswered to answered | high (not executed) | Display.AnswerAfterTakeQuiz | Display.AnswerAfterStartQuiz |
