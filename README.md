# cleu inbox browser and composer, in Dafny

This project models the local logic of the `cleu` terminal mail client. That logic lives in two
files.

`cmd/read.go` is the inbox browser. The model covers:
- how a page number becomes a range of IMAP message sequence numbers, taken from the newest end of the mailbox;
- how fetched envelopes become list entries, sorted newest first;
- the `App` state machine, which reacts to page loads, body loads, errors and keys;
- the list rows with their trailing "Load More" row;
- how a fetched body is classified into plain text and HTML;
- the whitespace clean-up applied before a body is shown;
- the list title truncation.

`cmd/send.go` is the composer. The model covers:
- recipient parsing;
- the form validators;
- the confirm gate and the envelope recipients of `sendEmail`;
- the message text built by `buildEmailMessage`.

Modules, one concern each:

| file | module | models |
|---|---|---|
| wrappers.dfy | Wrappers | `Option` and `Result` |
| go_strings.dfy | GoStrings | the Go `strings` functions the source calls: TrimSpace (`unicode.IsSpace`), TrimRight, Split on one character, Join, ReplaceAll, Contains, HasPrefix |
| pagination.dfy | Pagination | the page range in `fetchEmails`, both as written in `uint32` and as intended |
| inbox.dfy | Inbox | `Email`, the envelope-to-`Email` mapping, the newest-first sort, `fetchEmails` |
| titles.dfy | Titles | `Email.Title` over the UTF-8 bytes of the subject |
| mime_body.dfy | MimeBody | `parseEmailBody` and `fetchEmailBodyParsed` |
| cleanup.dfy | Cleanup | `cleanupWhitespace` |
| browser.dfy | Browser | `App`, `updateEmailList`, `App.Update` |
| message.dfy | OutgoingMessage | `EmailForm`, `buildEmailMessage` and a reader for its output |
| compose.dfy | Compose | `parseRecipients`, the validators, `sendEmail` up to the network |

A few modelling choices:
- Dates are integers.
- The IMAP server's answers are inputs: the SELECT outcome, the fetched records, the raw body and what Go's MIME parsers make of it.
- Commands that the state machine issues are values: `LoadPage`, `LoadBody`, `Quit`.
- Go `uint32` arithmetic is written out as arithmetic modulo 2^32.

Two notes on the code:
- The client has no delete/trash flow and no confirm-delete state, so neither is modelled.
- The page range in `fetchEmails` is meant to lie in `[1, total]`; its `uint32` arithmetic does not ensure that (see Findings). The model keeps the arithmetic as written and states the intended range separately.

## Model

| member | source | states |
|---|---|---|
| Pagination.PageRangeAsWritten | cmd/read.go:416-429 | the range as computed in `uint32`: the two clamps guarantee only start >= 1 and end <= total, not start <= end |
| Pagination.Wrap | cmd/read.go:418-419 | Go's conversion to `uint32`: values in range are kept, and a negative value down to -2^32 gains 2^32 |
| Pagination.AsWrittenExactPage | cmd/read.go:416-429 | when page*perPage <= total, the as-written range is exactly [total-page*perPage+1, total-(page-1)*perPage] |
| Pagination.AsWrittenLastPageWraps | cmd/read.go:418-424 | on a last, short page, end is right; start is clamped to 1 only when it wrapped to exactly 0; otherwise start is 2^32 + end - perPage + 1, above end |
| Pagination.AsWrittenEndClampOnlyOnWrap | cmd/read.go:418-429 | the clamp `end > totalMessages` fires exactly when the skipped count exceeds the total, that is, when the subtraction wrapped |
| Pagination.AsWrittenAgreesWithoutWrap | cmd/read.go:416-429 | wherever the whole page lies in the mailbox, the as-written range equals the intended one |
| Pagination.AsWrittenLastPageCounterexample | cmd/read.go:416-429 | with 120 messages and 50 per page, page 3 is 4294967267..20 as written but 1..20 as intended; with 20 messages, page 1 gives the same |
| Pagination.PageRange | cmd/read.go:416-429 | the intended range exists iff (page-1)*perPage < total; it lies in [1, total] and holds min(perPage, end) messages |
| Pagination.FirstPagesAreNewest | cmd/read.go:416-429 | pages 1..k together are the newest min(total, k*perPage) sequence numbers, newest first, each exactly once: no overlap, no gap |
| Pagination.PaginationComplete | cmd/read.go:416-429 | fewer than total messages are loaded iff k*perPage < total; once k*perPage >= total, every message 1..total has been loaded exactly once |
| Pagination.PagesDisjoint | cmd/read.go:416-429 | two different pages share no sequence number |
| Pagination.PaginationExample | cmd/read.go:416-429 | 120 messages, 50 per page: 71..120, 21..70, 1..20; "more" holds after page 2 and not after page 3 |
| Inbox.DisplayAddress | cmd/read.go:453-469 | the fallback when the list is empty or its first entry is nil; else the personal name when set, else mailbox@host; never empty when an address is present |
| Inbox.ToEmail | cmd/read.go:471-490 | subject is the envelope's or "(No Subject)" and never empty; from is the first From address or "Unknown", to the first To address or ""; seen iff the flags hold \Seen; uid and date copied; body fields empty |
| Inbox.Batch | cmd/read.go:447-492 | exactly as many entries as records with an envelope (so all records when none is nil) |
| Inbox.BatchPosition | cmd/read.go:447-492 | the record at index i, when it has an envelope, is mapped to the entry at the position counting the earlier records with an envelope: arrival order is kept and nothing else is in the batch |
| Inbox.BatchEntries | cmd/read.go:447-492 | every entry has a subject, a sender and no body yet, and is the mapping of some record that has an envelope |
| Inbox.HasFlag | cmd/read.go:471-477 | the flag loop reports \Seen iff it is among the message's flags |
| Inbox.MakeEmail | cmd/read.go:449-490 | the loop body turns a record with an envelope into exactly its list entry |
| Inbox.BatchHasEveryEnvelope | cmd/read.go:447-492 | every record with an envelope yields its own entry in the batch |
| Inbox.Insert | cmd/read.go:495-497 | inserting into a newest-first list keeps it newest first and adds exactly that message; the new head is that message or the old head |
| Inbox.SortNewestFirst | cmd/read.go:495-497 | the result is newest first and a permutation of the input; any order of equal dates is allowed, as sort.Slice is not stable |
| Inbox.FetchEmails | cmd/read.go:406-499 | a SELECT error is returned; an empty mailbox gives no messages and total 0; otherwise the FETCH range is the intended page range, the total is passed through, and the result is newest first and a permutation of the batch |
| Titles.TitleAsWritten | cmd/read.go:60-65 | the source's byte title: a subject of at most 60 bytes is its own encoding; a longer one gives its first 57 bytes plus "...", 60 bytes in all |
| Titles.TitleAsWrittenSplitsCharacter | cmd/read.go:60-65 | 56 ASCII letters, then "é", then more text: the 57-byte cut keeps half of "é", and the title is not the UTF-8 encoding of any string |
| Titles.Title | cmd/read.go:60-65 | a subject of at most 60 bytes is kept; otherwise the longest character prefix that fits in 57 bytes, plus "..."; never more than 60 bytes |
| Titles.TitleKeepsWholeCharacters | cmd/read.go:60-65 | on 56 letters + "é" + more, the corrected title is the 56 letters + "...": the "é" that does not fit whole is dropped |
| Titles.TitleAgreesAtBoundary | cmd/read.go:60-65 | when byte 57 falls on a character boundary, the corrected title is byte for byte the source's title |
| MimeBody.LastPartBodyNone | cmd/read.go:551-570 | with no part of the kind, that body stays empty |
| MimeBody.LastPartBodyAt | cmd/read.go:551-570 | the body chosen for a kind is that of the last part of that kind |
| MimeBody.MergedBody | cmd/read.go:583-589 | the display body is the text body when it is not empty, else the HTML body; it is empty only when both are |
| MimeBody.ParseEmailBody | cmd/read.go:536-591 | fails iff the message is unreadable, or is not multipart and its body is unreadable; the content type is the media type or "text/plain"; multipart takes the last text/html and the last text/plain part; otherwise the body goes to HTML iff the type is text/html |
| MimeBody.FetchEmailBodyParsed | cmd/read.go:503-533 | no body section is an error, and so is a read error; an unparseable message is shown raw as text/plain; else the parsed fields |
| MimeBody.ClassificationExamples | cmd/read.go:536-591 | a multipart plain+html message, a text/html message and a message without a parseable Content-Type are classified as described |
| Cleanup.Collapse | cmd/read.go:398-400 | the collapse loop ends, and leaves no four line feeds in a row |
| Cleanup.CleanupWhitespace | cmd/read.go:390-403 | the trimmed lines are kept in an array; the result has no CR, no four line feeds in a row, no line ending in a space or a tab, no white space at either end, and the input's non-space characters in order |
| Cleanup.CleanedHasNoCarriageReturn | cmd/read.go:391-392 | the output has no CR |
| Cleanup.CleanedHasNoQuad | cmd/read.go:398-402 | the output never has four line feeds in a row |
| Cleanup.CleanedHasNoTrailingBlanks | cmd/read.go:393-397 | no line of the output ends in a space or a tab |
| Cleanup.CleanedKeepsNonSpace | cmd/read.go:390-403 | only white space is removed or changed: the non-space characters survive in order |
| Cleanup.CleanedIdempotent | cmd/read.go:390-403 | cleaning a cleaned text changes nothing |
| Browser.ListItems | cmd/read.go:180-192 | the rows are the messages in order, then one "Load More" row iff more remain, so len(emails) + (hasMore ? 1 : 0) rows |
| Browser.WithBody | cmd/read.go:237-242 | a body load sets the four body fields and leaves uid, subject, from, to, date and seen alone |
| Browser.FirstWithUid | cmd/read.go:236-244 | the search finds the first message with the UID, or reports that none has it |
| Browser.ApplyBody | cmd/read.go:234-244 | a body load gives the first message with that UID the four body fields; it keeps every header and every other message; with no such message the list is unchanged |
| Browser.App.constructor | cmd/read.go:122-141 | a new App is loading, in list view, on page 1, with nothing loaded |
| Browser.App.Init | cmd/read.go:143-145 | start by loading page 1, replacing |
| Browser.App.UpdateEmailList | cmd/read.go:180-192 | the rows, built in an array, are the list rows of the current messages and nothing else changes |
| Browser.App.HandleEmailsLoaded | cmd/read.go:208-231 | both loading flags drop; the total is the event's; load-more appends the batch after the old list, a first load replaces the list; hasMore iff uint32(len) < total; the rows are rebuilt |
| Browser.App.HandleBodyLoaded | cmd/read.go:234-252 | the search loop changes the list exactly as ApplyBody; all other state is unchanged |
| Browser.App.HandleError | cmd/read.go:254-257 | the error is kept and both loading flags drop |
| Browser.App.HandleEnter | cmd/read.go:267-293 | on "Load More" when no load-more is running: set loadingMore, page + 1, issue LoadPage(page, true); when one is running, nothing; on a message: email view, and LoadBody(uid) iff its body is empty |
| Browser.App.HandleBack | cmd/read.go:295-298 | esc and backspace return to the list view; in the list view nothing changes |
| Browser.App.HandleRefresh | cmd/read.go:300-307 | r acts only in the list view with no load running: loading set, page 1, LoadPage(1, false) |
| Browser.App.Update | cmd/read.go:194-318 | each event has its handler's full effect: page and body loads, errors, enter (Load More or open a message), esc/backspace and r as in the handler rows; ctrl+c and q issue Quit, and other keys and resizes change no modelled state; the App invariant holds after every event |
| OutgoingMessage.PriorityHeaders | cmd/send.go:281-291 | "high" gives X-Priority 1 / High, "low" gives 5 / Low, and every other value gives 3 / Normal, each iff |
| OutgoingMessage.WriteAddressHeaders | cmd/send.go:267-273 | the builder gains From, To, and Cc only when there is a Cc recipient, each line ending in CR LF |
| OutgoingMessage.WriteDescriptionHeaders | cmd/send.go:275-278 | the builder gains Subject, Date, MIME-Version 1.0 and the text/plain UTF-8 Content-Type, each line ending in CR LF |
| OutgoingMessage.WritePriorityHeaders | cmd/send.go:280-291 | the builder gains the two priority lines that PriorityHeaders gives for the form's priority |
| OutgoingMessage.BuildEmailMessage | cmd/send.go:264-304 | the builder writes the address, description and priority sections and the User-Agent line in that order, each line ending in CR LF, then an empty line, the body and a final CR LF |
| OutgoingMessage.MessageStartsWithFrom | cmd/send.go:268 | the message opens with "From: " + the sender it was given + CR LF |
| OutgoingMessage.ReadAssembled | cmd/send.go:266-303 | a reader that takes CR LF header lines up to the empty line and then a CR LF-terminated body recovers exactly the header lines and the body |
| OutgoingMessage.MessageReadsBack | cmd/send.go:264-304 | when sender, recipients, subject and date hold no CR, a reader that splits at CR LF gets back exactly the header lines and the body |
| OutgoingMessage.CcHeaderIffCc | cmd/send.go:271-273 | a Cc header line is present iff there is a Cc recipient |
| Compose.RecipientsWellFormed | cmd/send.go:248-261 | every parsed recipient is non-empty, has no white space at either end, and has no comma |
| Compose.ParseRecipients | cmd/send.go:248-261 | the loop builds the parsed list; empty input gives nothing; every element is well formed |
| Compose.RecipientsOfJoin | cmd/send.go:248-261 | well-formed recipients joined with ", " parse back to the same list, in order |
| Compose.ValidateTo | cmd/send.go:72-85 | accepts iff the field is not blank and every trimmed comma piece holds '@' and '.'; a blank field reports "recipient is required"; otherwise the first failing piece is named |
| Compose.TrailingCommaRejected | cmd/send.go:72-85 | empty pieces are not skipped, so a To field ending in a comma is rejected |
| Compose.AcceptedToParsesEveryPiece | cmd/send.go:72-85 | for an accepted To field, parsing keeps every piece, in order, each with '@' and '.' |
| Compose.ValidateSubject | cmd/send.go:92-97 | rejects exactly the subjects made only of white space, with "subject is required" |
| Compose.ValidateBody | cmd/send.go:133-138 | rejects exactly the bodies made only of white space, with "email body is required" |
| Compose.SendEmail | cmd/send.go:162-182 | unconfirmed: nothing is built or sent; otherwise the recipients are to ++ cc ++ bcc, each well formed; with none it fails with "no valid recipients found"; else it delivers from the SMTP user the message built with the To and Cc lists |
| Compose.MessageIgnoresBcc | cmd/send.go:169-182 | the message text does not depend on the Bcc field, and its From line is the SMTP user name, not FROM_EMAIL |

## Left out

- Invalid UTF-8: Go strings are byte strings and may hold invalid UTF-8 (a Latin-1 body passed through `string(rawBody)`, for one); the model's strings are sequences of Unicode scalar values, so `TrimSpace`, `cleanupWhitespace` and `Email.Title` are modelled for valid UTF-8 text only.
- Network and session plumbing is not modelled. This covers `connectToServer`, the lazy connect in `loadEmails`, `loadEmailBody`, IMAP Select/Fetch/UidFetch/Logout, and the goroutine and channel pairs. Their results are inputs and their invocations are command values.
- Go's `net/mail`, `mime` and `mime/multipart` parsers and `io.ReadAll` are not modelled. Their results are inputs: the media type, the sequence of parts and the body. The parts sequence is finite. `parseEmailBody` skips a failed `NextPart` with `continue`. Whether the library can repeat such an error forever, which would keep the loop from ending, depends on code that is not part of this model.
- Rendering is not modelled: `View`, `formatEmailForView` (glamour, lipgloss, regular expressions), `Description`, the list title text and the viewport refresh after a body load.
- Window-size handling and the forwarding of messages to the list and viewport widgets change no modelled state and are not modelled. The command those widgets return (cursor blinking, filtering) is not modelled either: `Update` returns `NoCommand` where the source returns the widget's command. The same holds for the widget's filtering, which could make the selected row differ from the position in `emails`.
- OutgoingMessage.MessageReadsBack: requires no CR in the header values; the source checks nothing, so a CR LF in the subject or a recipient would inject a header line (not a guarantee the source gives).
- The SMTP conversation in `sendEmail` is not modelled: TLS dial, AUTH, MAIL, RCPT, DATA and the printed messages. The model stops at the sender, the recipient list and the message text.
- The huh form construction is not modelled. Only its validator closures are. The CLI actions and environment variables are configuration only and are not modelled either.
- `time.Now()` in `buildEmailMessage` is a date string parameter. `time.Time` values are integers, and `Date.After` is `>` on them.
- Inbox.SortNewestFirst: sort.Slice sorts the Go slice in place; the model sorts a sequence by insertion and promises only what sort.Slice promises (ordered, a permutation).
- Inbox.FetchEmails: fetches the intended page range, not the as-written one (see Findings). What the IMAP library does with a range whose start exceeds its end is not visible here.
- Browser.App.Update: the error state only records the error; the full-screen error display is rendering.
- The delete/trash flow and confirm-delete state are not in the source and are not modelled.

## Findings

| source | as written | input that shows it | evidently intended | confidence | as-written member | corrected member |
|---|---|---|---|---|---|---|
| cmd/read.go:418-424 | `start := end - uint32(perPage) + 1` in `uint32` wraps when fewer than perPage messages remain; the `start < 1` clamp only catches start == 0 | 120 messages, 50 per page, page 3 (or 20 messages, page 1): start = 4294967267, end = 20 | start clamped to 1: page 3 is messages 1..20 | high for the arithmetic; what the server then returns is not visible; not executed | Pagination.AsWrittenLastPageCounterexample | Pagination.FirstPagesAreNewest |
| cmd/read.go:60-65 | `len` and slicing count bytes, so the 57-byte cut can split a multi-byte UTF-8 character | a subject of 56 ASCII letters followed by "é" and five more letters | cut at the last character boundary within 57 bytes | high for the byte arithmetic; how the terminal shows the broken byte is not visible; not executed | Titles.TitleAsWrittenSplitsCharacter | Titles.TitleKeepsWholeCharacters |
