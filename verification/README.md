# Bulk-sender core of whatsapp-server-schedule, modelled in Dafny

The service reads a contact list, fills in a message template for each contact,
and hands the contacts one by one to a WhatsApp client. The loop stops when a
`stop` event sets a shared flag. Scheduled sends are stored as cron expressions
built from a form date. An incoming message is normalised and looked up
among the stored auto-reply rules. The lookup is meant to find a rule whose
trigger equals the normalised text. When that text is a column name, the
query can instead match other rules, or miss the rule saved under that very
trigger (see "## Findings").

This project models the pure logic of that flow in `server.js` and proves
properties about it:

| file | module | models |
|---|---|---|
| `strings.dfy` | `Strings` | JavaScript `split`/`join` with a one-character separator; the decimal text that `parseInt` reads and a template literal prints |
| `contacts.dfy` | `Contacts` | `handleNumbers`: contact text to positional records |
| `template.dfy` | `Template` | the key/value table built in `sendProcess` and the global regex replace that applies it |
| `schedule.dfy` | `Schedule` | `YYYY-MM-DDTHH:MM` to `minute hour day month *` |
| `dispatch.dfy` | `Dispatch` | `startLoop` and the stop flag |
| `autoreply.dfy` | `AutoReply` | trigger normalisation, shared by `savebot` and the `message` handler, and the lookup query as SQLite reads it |
| `options.dfy` | `Options` | an optional value |

A record is a `seq<string>`. The source turns each line into an object with keys
`"0"`, `"1"`, … through `Object.assign` and a JSON round trip. Those keys
enumerate in numeric order, so a record is just its list of fields.

The renderer is modelled as a left-to-right scan. At each position it takes the
first key, in table order, that is a prefix of the remaining text. It then emits
that key's value and skips past the key. If no key matches, it copies one
character. This is how a JavaScript regex alternation `k1|k2|…` behaves under a
global `replace` with a callback. Values are inserted literally and are never
scanned again.

The dispatch loop gets the flag from its environment. `flagSeen[i]` is the value
of `stopFlag` at the check before index `i`. `RunCampaign` derives those values
from the `stop` events that arrive during each iteration's pause. The flag starts
as `false`, the reset the source does when a run starts.

## Model

| member | source | states |
|---|---|---|
| `Strings.Split` | server.js:327-328 | `split` with a one-character separator yields at least one piece. No piece contains the separator. The first piece is the text up to the first separator. |
| `Strings.JoinSplit` | server.js:327-328 | Joining the pieces of a split with the separator gives back the original text, so splitting loses nothing. |
| `Strings.SplitJoin` | server.js:327-328 | Splitting a join of separator-free pieces gives back exactly those pieces. |
| `Strings.SplitCount` | server.js:327 | A split has exactly one more piece than the text has separators. |
| `Strings.Decimal` | server.js:263 | A natural number, such as a month or a `&var` index, prints as canonical decimal text: non-empty, digits only, and no leading zero unless it is `0`. |
| `Strings.DecimalValue` | server.js:263 | Reading back the printed decimal of `n` gives `n`. |
| `Strings.DecimalOfDigits` | server.js:263 | For digit strings as short as a month, `String(parseInt(d))` is `d` with its leading zeros removed, keeping at least one digit. |
| `Contacts.NormalizeFields` | server.js:329-354 | Every coerced line has at least two fields, and field 1 has at least ten characters. A line with two or more fields keeps its length and every field except field 1. |
| `Contacts.ParseLine` | server.js:328-354 | Every line, including an empty one, yields a record with a name field and a phone field of at least ten characters. |
| `Contacts.ParseLines` | server.js:327-355 | Exactly one record per line, in line order. |
| `Contacts.HandleNumbers` | server.js:325-357 | The record count is the number of newlines plus one, so no line is dropped. Every record has a name field and a phone field of at least ten characters. |
| `Contacts.RecordOfLine` | server.js:327-355 | Record `i` comes from line `i`. |
| `Contacts.ParseLineKeepsWellFormed` | server.js:329-334 | A line whose second field has ten or more characters is kept field for field. |
| `Contacts.ParseLineShortPhone` | server.js:335-340 | A second field shorter than ten characters becomes `0000000000`, and every other field is unchanged. |
| `Contacts.ParseLineNameOnly` | server.js:341-348 | A non-empty line without a comma becomes `[line, "0000000000"]`. |
| `Contacts.ParseLineEmpty` | server.js:349-354 | An empty line becomes `["undefined", "0000000000"]`. |
| `Contacts.ParseLineLossless` | server.js:329-354 | A record joined back with commas equals its line exactly when the line had a second field of ten or more characters. Every other line is altered. |
| `Contacts.HandleNumbersLossless` | server.js:325-357 | When every line is well formed, joining the records back gives the original contact list. |
| `Template.FirstMatchFrom` | server.js:402-403 | The chosen key is a prefix of the text and no earlier key is. No key is chosen only when none is a prefix. This is how the alternation picks a key. |
| `Template.RenderDrawsOnTemplateAndValues` | server.js:402-403 | Every output character comes from the template or from a table value. |
| `Template.RenderNoKeys` | server.js:402-403 | A template in which no key occurs is returned unchanged. |
| `Template.RenderLongestNoKeys` | server.js:402-403 | The corrected renderer also returns a template in which no key occurs unchanged. |
| `Template.RenderIdempotentWithoutKeys` | server.js:402-403 | Rendering a template with no keys a second time changes nothing. |
| `Template.RenderLiteral` | server.js:403 | Text containing no key's first character is copied through verbatim. |
| `Template.RenderKey` | server.js:403 | The first matching key is replaced by its value and the scan resumes after the key. The value is not rescanned. |
| `Template.FirstName` | server.js:395 | `&firstname` is the prefix of field 0 before its first space, or all of field 0 when it has no space. |
| `Template.VarKey` | server.js:399 | The key of extra field k is `&var` followed by k in decimal. For k below 10 the key is five characters long. |
| `Template.RecordTable` | server.js:391-400 | The table maps `&fullname` to field 0, `&firstname` to the first name and `&whatsapp` to field 1. For a one-field record, `&whatsapp` maps to the text `undefined`. `&var{k}` maps to field k+1 for every extra field. The keys appear in that order. |
| `Template.RecordTableDistinct` | server.js:394-400 | The keys of a record's table are pairwise different. |
| `Template.RecordTablePrefixFree` | server.js:394-400 | With at most nine extra fields, no key of the table is a prefix of another key. |
| `Template.LongestMatchIn` | server.js:402-403 | For the corrected matcher, the chosen key is a prefix of the text and no matching key is longer. No key is chosen only when none matches. |
| `Template.RenderWithoutAmp` | server.js:402-403 | First-match substitution over a record's table leaves a template without `&` unchanged, because every key begins with `&`. |
| `Template.RenderLongestWithoutAmp` | server.js:402-403 | Longest-match substitution over a record's table also leaves a template without `&` unchanged. |
| `Template.RenderAsWritten` | server.js:402-403 | Every key begins with `&`, so the source sends a template without `&` unchanged. |
| `Template.RenderMessage` | server.js:402-403 | The corrected renderer also sends a template without `&` unchanged. |
| `Template.AsWrittenNamedKeys` | server.js:394-403 | With the source's alternation, `&fullname`, `&firstname` and `&whatsapp` each render as their field. |
| `Template.AsWrittenSingleDigitVar` | server.js:398-403 | With the source's alternation, `&var1` … `&var9` render as fields 2 … 10. |
| `Template.AsWrittenVar10IsVar1` | server.js:398-403 | With the source's alternation and twelve or more fields, `&var10` renders as field 2 followed by `0`. |
| `Template.MessageNamedKeys` | server.js:394-396 | With longest-match substitution, each named key renders as its field. |
| `Template.MessageVarKey` | server.js:398-400 | With longest-match substitution, `&var{k}` renders as field k+1 for every extra field. |
| `Template.RenderAgreesWhenPrefixFree` | server.js:402-403 | When no key is a prefix of another, first-match and longest-match rendering agree on every template. |
| `Template.AsWrittenIsIntendedForShortRecords` | server.js:398-403 | For records with at most nine extra fields, the source's renderer gives the intended message for every template. |
| `Template.RenderLongestKey` | server.js:402-403 | With distinct keys and longest-match substitution, a key on its own renders as its value. |
| `Template.ExampleGreeting` | server.js:391-403 | `Hi &firstname, your code is &var1` with record `[first + " " + last, phone, code]` renders as `Hi <first>, your code is <code>`. |
| `Schedule.SplitOnT` | server.js:260 | A form schedule splits on `T` into its date and its time. |
| `Schedule.SplitDate` | server.js:261 | The date splits on `-` into year, month and day. |
| `Schedule.SplitTime` | server.js:262 | The time splits on `:` into hour and minute. |
| `Schedule.CronOf` | server.js:260-263 | The cron string is the minute, hour and day copied verbatim, then the month's decimal value, then `*`, separated by spaces. |
| `Schedule.CronMonthDropsLeadingZero` | server.js:263 | The month field is the form's month without a leading zero, so `05` becomes `5` and `10` stays `10`. |
| `Schedule.CronFields` | server.js:263 | Splitting the cron string on spaces gives five fields. The first three are the minute, hour and day, the fourth denotes the month's number, and the fifth is `*`. |
| `Dispatch.FirstSet` | server.js:476-479 | The loop reaches its first set flag only after seeing every earlier flag clear. When no flag is set, it runs through all of them. |
| `Dispatch.StartLoop` | server.js:475-491 | Dispatches the prefix `0 … k-1` in strictly increasing order, where `k` is the first index whose check sees the flag set. Nothing is dispatched after that. All `n` are dispatched when the flag is never seen set. The flag is `true` on exit. |
| `Dispatch.FlagFrom` | server.js:545-546 | At the first check the flag has its starting value. Once set, it stays set. A `stop` during iteration j is seen at every later check. The flag is set only by its starting value or an earlier `stop`. |
| `Dispatch.FlagTimeline` | server.js:545-546 | From the reset on: the flag is clear at the first check. Once set, it stays set. A `stop` during iteration j is seen at every later check. The flag is never set without an earlier `stop`. |
| `Dispatch.RunCampaign` | server.js:231-233 | After the reset, a run over at least one contact dispatches the first contact. A first `stop` during iteration `j` leaves exactly `j + 1` contacts dispatched. With no `stop`, every contact is dispatched. The flag ends `true`. |
| `AutoReply.Normalize` | server.js:149 | The normal form never lengthens the text. It contains no `'`, `"` or `;` and no upper-case letter. |
| `AutoReply.NormalizeConcat` | server.js:149 | Normalisation works one character at a time: it distributes over concatenation. |
| `AutoReply.NormalizeIdempotent` | server.js:614 | Normalising an already normalised trigger changes nothing. |
| `AutoReply.NormalizeLength` | server.js:149 | The output is shorter than the input by exactly the number of quotes and semicolons. |
| `AutoReply.StrippedCharIgnored` | server.js:149 | A quote or semicolon anywhere in a message does not change its normal form. |
| `AutoReply.CaseIgnored` | server.js:149 | An upper-case letter has the same normal form as its lower-case letter. |
| `AutoReply.NormalizePlain` | server.js:149 | Text without quotes, semicolons or upper-case letters is its own normal form. |
| `AutoReply.SaveBot` | server.js:612-616 | The new row holds the given id, the normalised input trigger and the reply. The stored trigger is its own normal form and holds no quote that could end the SQL string literal. Earlier rows are unchanged. |
| `AutoReply.WhereOperand` | server.js:150 | The double-quoted key is read as a column exactly when it is `id`, `trigger` or `message`, or one of the rowid names `rowid`, `oid` and `_rowid_`. The rowid names denote `id`. Otherwise the key is read as a string. |
| `AutoReply.FindRow` | server.js:150 | Finds the first row that satisfies the WHERE clause, or reports that none does. |
| `AutoReply.Lookup` | server.js:149-157 | There is a reply exactly when some row satisfies `trigger == "key"` as SQLite reads it. The reply is the first such row's reply. |
| `AutoReply.LookupByValue` | server.js:149-157 | Corrected lookup: there is a reply exactly when some stored trigger equals the message's normal form. The reply is the first such rule's reply. |
| `AutoReply.LookupAgreesOnOrdinaryText` | server.js:150 | When the normal form is neither a column name nor a rowid name, the source's lookup and the corrected lookup give the same answer. |
| `AutoReply.LookupColumnNames` | server.js:150 | A message that normalises to `trigger` gets the first row's reply, whatever the triggers. One that normalises to `message` gets a reply exactly when some row's trigger equals its own reply. |
| `AutoReply.SavedColumnNameUnreachable` | server.js:150 | A rule saved as `message` -> `hi` is never found by the message `message`, because the query compares each trigger with its own reply. The corrected lookup answers `hi`. |
| `AutoReply.SavedRowidNameUnreachable` | server.js:150 | A rule saved as `id` -> `hi` in row 5 is never found by the message `id`, because the query compares each trigger with the row id. The corrected lookup answers `hi`. |
| `AutoReply.TriggerMessageMisfires` | server.js:150 | With the single rule `hi` -> `hello`, the message `Trigger` is answered `hello` by the source, and not at all by the corrected lookup. |
| `AutoReply.IdMessageMisfires` | server.js:150 | With the single rule `1` -> `one` in row 1, the message `I'd` is answered `one` by the source, and not at all by the corrected lookup. |
| `AutoReply.RowidMessageMisfires` | server.js:150 | With the single rule `1` -> `one` in row 1, the message `rowid` is answered `one` by the source, and not at all by the corrected lookup. |
| `AutoReply.SaveThenLookup` | server.js:612-616 | With the corrected lookup: after a trigger is saved, any message with the same normal form gets a reply. That reply is the saved one unless an earlier rule matches too, in which case the answer is unchanged. Messages with any other normal form are answered as before. |

## Findings

| source | as written | input that shows it | evidently intended | confidence | as-written member | corrected member |
|---|---|---|---|---|---|---|
| server.js:402-403 | The keys go into one regex alternation in insertion order. At each position the first alternative that matches wins. `&var1` precedes `&var10`, so `&var1` matches first. | A record with twelve or more fields and the template `&var10` renders as field 2 followed by `0`. | `&var10` stands for field 11, just as `&var1` … `&var9` stand for fields 2 … 10. | high; not executed | `Template.AsWrittenVar10IsVar1` | `Template.MessageVarKey` |
| server.js:150 | The normalised message is spliced into `WHERE trigger == "..."` between double quotes. SQLite reads a double-quoted word that names a column of the table as that column. | The rule `hi` -> `hello` and the message `Trigger`: the query becomes `WHERE trigger == trigger`, every row qualifies, and the reply is `hello`. The message `I'd` normalises to `id`, and `rowid`, `oid` and `_rowid_` name the same column. Such a message is answered by a rule whose trigger is its own row id. The same reading also misses rules: the rule `Message` -> `hi` is stored as `message`, and the message `message` runs `WHERE trigger == message`, which no row satisfies, so it gets no reply. Likewise a rule saved as `id` in row 5 is never found by `id`. | The message is compared as text with each trigger, as a bound parameter would be. `Trigger` then gets no reply here, and `message` gets `hi`. | medium; not executed | `AutoReply.TriggerMessageMisfires` | `AutoReply.LookupByValue` |

The corrected renderer is `Template.RenderMessage`. It uses longest-match
substitution, so every key stands for its own value. `Template.AsWrittenIsIntendedForShortRecords`
proves the two renderers agree on every template when a record has at most nine
extra fields.

The corrected auto-reply lookup is `AutoReply.LookupByValue`, and
`AutoReply.SaveThenLookup` is stated about it. `AutoReply.LookupAgreesOnOrdinaryText`
proves the source's query gives the same answer unless the normalised message
is `id`, `trigger`, `message`, `rowid`, `oid` or `_rowid_`. For those six words
the source can answer from the wrong rule (`AutoReply.TriggerMessageMisfires`)
or miss the right one (`AutoReply.SavedColumnNameUnreachable`).

## Left out

- The whatsapp-web.js client is a browser-automation library with side effects, so it is left out. That covers `isRegisteredUser`, `sendMessage`, `MessageMedia` and the QR and session events.
- `phoneNumberFormatter` and `apiHistoryDatabase` are left out: `helpers/formatter.js` is not part of this model.
- SQLite statements are persistence I/O and are left out, except the auto-reply table, which is modelled as a list of rules. The history rows written by `sendProcess` and the schedules table are not modelled.
- socket.io events, Express routes, the axios POST to the history API and `node-cron` scheduling are network and framework plumbing. Only their effect on the stop flag is modelled.
- The 1.2 s pause and the 2 s completion notice are timing, and are left out.
- `sendProcess` is not awaited, so deliveries and their progress events can finish out of order. Only the order in which dispatches start is modelled. The `percent` events are not modelled.
- `startSendingProcess`, `extractDataFromRequestBody` and `resetVariables` are left out. They rely on implicit globals, and the first calls `startLoop` with a missing argument.
- Template: the named keys and `&var{k}` keys contain no regex metacharacters, so the pattern is treated as plain text alternatives. A zero-field record, on which `split` would throw, is excluded by `requires`; the parser never produces one.
- Template.FirstName: splits on the space character only, as the code does.
- Schedule.CronOf: models only the `YYYY-MM-DDTHH:MM` form that a date-time form field submits. Other input is not modelled: without a `T` the handler throws and reports an error, a non-digit month prints `NaN`, and a missing part prints `undefined`.
- AutoReply.Normalize: requires ASCII input. JavaScript's `toLowerCase` also folds non-ASCII letters, which the model does not attempt.
- AutoReply.Lookup: models the `id` comparison only for triggers that are plain digit strings. Under numeric affinity, SQLite also converts forms such as ` 1`, `+1`, `1.0` and `1e0`, and those are not modelled. The column reading assumes SQLite's default build, which keeps the double-quoted string fallback.
- AutoReply.FindRow: returns the first matching rule in insertion order. SQLite's `LIMIT 1` without `ORDER BY` does not promise an order, though in practice it returns rowid order.
- AutoReply.SaveBot: stores the reply verbatim. The source splices the reply between double quotes into the INSERT. A reply containing `"` either makes the INSERT fail, for example `say "hi"`, which stores no row, or changes what is stored, for example `a" || "b`, which stores `ab`. Neither effect is modelled.
- Strings.Decimal: models the printing of unbounded natural numbers. A JavaScript template literal prints a double, which takes exponent form from 1e21 on. The source prints only months and small `&var` indices, where the two agree.
- Strings.DecimalOfDigits: assumes `parseInt` is exact. JavaScript parses into a double and loses precision beyond 2^53, so for example `9007199254740993` reads as `9007199254740992`. The source parses only two-digit months, where it is exact.
- Contacts.NormalizeFields: the ten-character test counts Unicode scalar values, while JavaScript's `length` counts UTF-16 code units. The two differ only for characters outside the Basic Multilingual Plane.
- Dispatch.StartLoop: models one run at a time. A second run started while one is active resets the shared flag and un-cancels the first; that is not modelled. The flag is set to `true` on exit and cleared only when a run starts.
