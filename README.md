# Vacation auto-reply: a Dafny model

The script (`index.js`) runs against a Gmail mailbox. It makes sure a label
named `Vacation` exists. It then repeats one cycle on a timer:

1. list the unread inbox messages;
2. send each one a fixed "on vacation" reply, threaded to the original;
3. move the message to the `Vacation` label.

This project models that core and proves properties of it:

- `text.dfy`: the JavaScript primitives the reply derivation uses. These are
  `find`, `startsWith`, `join('\n')` with its inverse `split('\n')`, global
  one-character `replace`, and `replace(/=+$/, '')`.
- `base64.dfy`: `toString('base64')` and the URL-safe rewriting of
  `index.js:105`. It also holds a base64url decoder, the way the provider reads
  the `raw` field back.
- `bytes.dfy`: the octet type shared by the two encoders.
- `utf8.dfy`: `Buffer.from(string)`, which is UTF-8 (section 3 of RFC 3629).
- `reply.dfy`: `sendReply`'s pure part: header lookup, the `/<(.*)>/`
  recipient extraction, the `Re:` subject rule, the raw message, and the
  whole derivation (`ComposeReply`).
- `labels.dfy`: `createLabel`, with the 409-conflict fallback. It also holds a
  small label store that shows what two runs do.
- `provider.dfy`: the provider's error value and two status codes. The script
  tests only for 409, a name already taken (`index.js:129`). The 404 is the
  model's own answer when a call names a message the mailbox does not hold
  (`ApplyModify`, `ReplyFor`); the script never checks for it.
- `mailbox.dfy`: one timer cycle. The specification functions `Step`,
  `Handle` and `Cycle` describe it over values. The class `Account` holds the
  mutable mailbox state:
  - a map from message id to its label set;
  - the log of accepted state-changing requests.

  Its methods are `SendReply`, `AddLabel` and `RunCycle`. `RunCycle` is the
  `for` loop of `index.js:172-182`, proved equal to `Cycle`.

How failures behave in the script, and so in the model:

- The script has no per-message failure isolation. A failure while handling
  one message rejects the interval callback and skips the rest of that
  cycle's messages (`HandleStopsAtFirstFailure`, `SecondFailureSkipsThird`).
- A missing `Subject` or `From` header makes `find(...).value` throw. The model
  names this failure `HeaderMissing`, and it stops the cycle like any other
  failure.
- When the 409 fallback finds no label named `Vacation`, `label.id` throws a
  `TypeError`. The model names this `VacationLabelMissing`.

## Model

| member | source | states |
|---|---|---|
| Reply.FindHeader | index.js:81-88 | `None` exactly when no header has that name; otherwise the value of the first header with exactly that name |
| Reply.MatchFrom | index.js:91 | the regex search from `start` finds the leftmost `<` that can match, paired with the last `>` before the next line terminator; `None` exactly when no bracket pair can match |
| Reply.Recipient | index.js:91 | for the match the engine reports: the captured text when it is non-empty, otherwise (empty capture, or no match) `from` itself |
| Reply.RegexMatchExists | index.js:91 | whenever some `<…>` pair can match, a leftmost-greedy match exists, so `Recipient`'s first clause covers every matching input |
| Reply.RecipientOfDisplayForm | index.js:91 | `name <addr>`, with no `<` in the name and a non-empty address without line breaks, gives back the address |
| Reply.RecipientOfJaneDoe | index.js:91 | `"Jane Doe <jane@example.com>"` gives `"jane@example.com"` |
| Reply.RecipientOfBareAddress | index.js:91 | a bare address without brackets is its own recipient |
| Reply.RecipientOfEmptyBrackets | index.js:91 | `"<>"` has an empty, falsy capture and falls back to `"<>"` |
| Reply.ReplySubject | index.js:92 | the result starts with `Re:`; it equals the subject exactly when the subject starts with `Re:`; otherwise it is `"Re: "` followed by the subject |
| Reply.ReplySubjectIdempotent | index.js:92 | rewriting an already rewritten subject changes nothing |
| Reply.ReplySubjectExamples | index.js:92 | `Hello` becomes `Re: Hello`; `Re: Hello` and `Re:Hello` stay as they are; the test is case-sensitive, so `re: Hello` becomes `Re: re: Hello` |
| Reply.RawMessageShape | index.js:94-102 | when the recipient, subject and id hold no `\n`: split at `\n`, the raw message gives the five header lines in order and then an empty line; the remaining lines join back to the body |
| Text.SplitJoinSnoc | index.js:94-102 | splitting a join gives back every line before the last, as long as those lines hold no newline, followed by the split of the last line |
| Text.SplitJoin | index.js:102 | `split('\n')` undoes `join('\n')` on a non-empty list of lines none of which holds a newline (the empty list joins to `""`, which splits to `[""]`) |
| Text.JoinSplit | index.js:102 | `join('\n')` undoes `split('\n')` for every string |
| Text.StripTrailing | index.js:105 | `replace(/=+$/, '')`: the result is a prefix of the input, does not end in the character, and only that character was removed |
| Base64.UrlSafe | index.js:105 | the two `replace` calls keep the length and map `+` to `-` and `/` to `_` at every position, changing nothing else |
| Base64.UrlSafeEncodeStd | index.js:105 | URL-safe rewriting of standard padded base64 gives unpadded base64url followed by the padding |
| Base64.StripPadding | index.js:105 | stripping the trailing `=` run removes exactly the padding, when the text before it does not end in `=` |
| Base64.TransportEncodeIsBase64Url | index.js:105 | the whole chain of `index.js:105` is unpadded base64url (RFC 4648, sections 3.2 and 5); the output uses only `[A-Za-z0-9_-]` and has 4 characters per 3 bytes plus 2 or 3 for a final 1 or 2 bytes |
| Base64.EncodeUrlAlphabet | index.js:105 | every output character is in the URL-safe alphabet |
| Base64.EncodeUrlLength | index.js:105 | the output length is `4 * (n / 3)` plus 0, 2 or 3 |
| Base64.DecodeEncodeUrl | index.js:105-110 | decoding the encoded message gives back exactly its bytes |
| Utf8.EncodeChar | index.js:105 | each character takes one to four bytes, and exactly one byte when it is ASCII |
| Utf8.EncodeAppend | index.js:105 | `Buffer.from` distributes over concatenation |
| Utf8.EncodeLength | index.js:105 | a string of `n` characters takes between `n` and `4n` bytes |
| Utf8.EncodeAscii | index.js:105 | an ASCII string encodes to its own code points, one byte each |
| Reply.ComposeReply | index.js:81-105 | a missing `Subject` fails first, then a missing `From`; the result is `Ok` exactly when both are present, and then it is the base64url of the UTF-8 bytes of the raw message built from the recipient, the rewritten subject, the id and the fixed body |
| Reply.ComposeReplyDecodes | index.js:105-110 | what is sent as `raw` decodes to exactly the UTF-8 bytes of the raw reply |
| Labels.FindLabel | index.js:133 | `None` exactly when no label is named that; otherwise the id of the first label with exactly that name |
| Labels.ResolveLabel | index.js:116-140 | a created label gives its id; a non-409 error is rethrown; after a 409, a failing list call is rethrown; otherwise the result is `Ok` exactly when some label is named `Vacation`, and then it is the first such id; when no label is named `Vacation` the failure is `VacationLabelMissing`, which happens only after a 409 |
| Labels.ListOnlyOnConflict | index.js:128-138 | unless the create call failed with 409, the answer to the list call does not matter |
| Labels.CaseVariantIsMissing | index.js:129-134 | a 409 followed by a list holding only `vacation` (lower case) fails with `VacationLabelMissing`: the lookup is exact |
| Labels.EnsureLabelTwice | index.js:116-140 | two runs in a row resolve to the same id, and the second leaves the store unchanged; the first adds a `Vacation` label only when none existed, and otherwise returns the existing one |
| Mailbox.UnrepliedMessages | index.js:58-67 | a failed list call is the only error; an absent `messages` field gives `[]`, and a present one is returned unchanged |
| Mailbox.AddLabelRequest | index.js:144-154 | the modify request adds exactly the handled label and removes exactly `INBOX` for that message |
| Mailbox.ApplyModify | index.js:146-153 | an unknown id gives 404; otherwise no id is added or removed and other messages keep their labels; a label ends up on the message exactly when it was there or is added, and is not removed |
| Mailbox.RelabelEffect | index.js:144-154 | afterwards the message carries the label and not `INBOX` and keeps its other labels; no other message changes; relabelling again changes nothing |
| Mailbox.ReplyFor | index.js:71-88 | an unknown id fails with 404; otherwise the result is the composed reply or its header failure |
| Mailbox.Step | index.js:172-182 | a message without a reply fails and changes nothing; a reply to a message that then cannot be relabelled stays sent, and the failure is 404; otherwise the send and the relabel are logged in that order and the labels are updated |
| Mailbox.HandleAppend | index.js:172-182 | handling `ids + more` handles `ids` first and goes on to `more` only when nothing in `ids` failed |
| Mailbox.HandleInOrder | index.js:172-182 | a cycle without failure logs, for each listed message in list order, its reply and then its relabel, after the earlier log |
| Mailbox.HandleStopsAtFirstFailure | index.js:172-182 | a failed cycle failed at some message `k`: every message before it was fully handled, and the cycle's outcome is message `k`'s step, so later messages are untouched |
| Mailbox.HandleFrame | index.js:172-182 | a cycle adds or removes no message ids and leaves unlisted messages' labels unchanged |
| Mailbox.HandledAreRelabelled | index.js:172-182 | after a cycle without failure, every listed message carries the label and is out of the inbox |
| Mailbox.SecondFailureSkipsThird | index.js:172-182 | with three candidates where the second has no reply, the first is replied to and relabelled and the cycle stops with the second's failure; the third is not touched |
| Mailbox.EmptyScanChangesNothing | index.js:58-67 | an absent or empty `messages` list sends nothing and relabels nothing |
| Mailbox.IntervalMs | index.js:183 | the timer period is a whole number of seconds between 45 s and 120 s |
| Text.StartsWith | index.js:92 | `s.startsWith(p)`: `p` is a prefix of `s`; used by `ReplySubject`, whose contract states the rule |
| Text.FindFirst | index.js:81-88 | `xs.find(p)` as an index: `None` exactly when no element satisfies `p`, otherwise the first element that does |
| Text.JoinLines | index.js:102 | `lines.join('\n')`; `SplitJoin` and `JoinSplit` prove it and `SplitLines` inverse to each other |
| Text.ReplaceAll | index.js:105 | `s.replace(/c/g, d)`: same length, every `c` becomes `d` and every other character stays |
| Reply.ReplyBody | index.js:93 | the fixed reply text; `RawMessageShape` proves it is what the lines after the blank line join back to |
| Reply.HeaderLines | index.js:94-99 | the five header lines in order; `RawMessageShape` proves they are the first lines of the raw reply |
| Reply.RawMessage | index.js:94-102 | the header lines, an empty line and the body joined by `\n`; `RawMessageShape` proves how it splits back |
| Base64.EncodeStd | index.js:105 | `toString('base64')`: padded standard base64; `UrlSafeEncodeStd` proves its URL-safe rewriting is base64url plus the padding |
| Base64.TransportEncode | index.js:105 | the whole replace chain after `toString('base64')`; `TransportEncodeIsBase64Url` proves it equals `EncodeUrl` |
| Utf8.Encode | index.js:105 | `Buffer.from(rawMessage)`; `EncodeAppend`, `EncodeLength` and `EncodeAscii` prove its properties |
| Labels.EnsureLabel | index.js:116-140 | one run of `createLabel` against a label store that conflicts on exact names; `EnsureLabelTwice` proves two runs agree |
| Mailbox.Handle | index.js:172-182 | the loop over the listed messages, stopping at the first failure; `HandleAppend`, `HandleInOrder`, `HandleStopsAtFirstFailure`, `HandleFrame` and `HandledAreRelabelled` prove its properties |
| Mailbox.Cycle | index.js:165-182 | one interval callback: the scan, then `Handle`; `EmptyScanChangesNothing` and `Account.RunCycle` are stated against it |
| Mailbox.Account.SendReply | index.js:71-112 | appends one send of the composed reply to the log, or fails with the reply's failure and changes nothing |
| Mailbox.Account.AddLabel | index.js:144-154 | applies the relabel and logs the request, or fails with 404 and changes nothing |
| Mailbox.Account.RunCycle | index.js:165-182 | the loop leaves the mailbox's labels and log, and returns the failure, exactly as `Cycle` describes |

## Left out

- The Express server, OAuth flow, credential files and client construction are
  left out. This is I/O outside the core.
- `console.log` output is left out. It has no effect on the mailbox.
- The label listing after the OAuth callback (`index.js:42-44`, read at
  `index.js:189`) is left out. Its result is never used.
- The provider's query (`is:unread` in `INBOX`) is a parameter: the scan
  answer is given to the cycle. Pagination of `messages.list` is not modelled.
  Only the first page is ever read.
- The timer is left out beyond one cycle. `setInterval` fires one callback per
  period without waiting for the previous one, so cycles can overlap. After a
  rejected callback, what happens next depends on Node's unhandled-rejection
  policy.
- Mailbox.IntervalMs: `Math.random()` is a floating-point draw. It is reduced
  to the integer `k = Math.floor(Math.random() * 76)`, which is passed in.
- Send failures, authentication failures and network failures are not modelled
  separately. In the model, `messages.get` and `messages.modify` fail with 404
  for an unknown id, and sending always succeeds. Any other rejection would
  end the cycle the same way.
- Label names are compared exactly, as the script does. The provider's
  case-insensitive handling of label names is not modelled.
- Labels.EnsureLabelTwice: holds only for a label store that answers 409 on
  an exact name match, as `ProviderCreate` does. A provider that also
  answers 409 for a label differing only in case, such as `vacation`, makes
  every run of `createLabel` fail: the exact lookup at `index.js:133` finds
  nothing and `label.id` throws (`CaseVariantIsMissing`).
- Utf8.EncodeChar: lone UTF-16 surrogates, which `Buffer.from` replaces with
  U+FFFD, cannot occur. Dafny characters are Unicode scalar values.
- An absent `labels` field in the list answer reads as an empty list, which
  ends in `VacationLabelMissing`. The script throws a `TypeError` at the
  `find` instead. Both are failures of `createLabel`; only the failure's
  name differs.
- Base64.DecodeEncodeUrl: the decoder is only a reference partner. It does not
  reject non-zero trailing bits, so it is not a full validator.
