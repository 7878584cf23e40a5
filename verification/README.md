# pdfnest daily usage quota — a Dafny model

pdfnest is a small Flask application that merges PDF files or protects one
with a password. Both actions draw on one daily budget of `USAGE_LIMIT = 5`.
That budget is kept in a JSON file that maps calendar dates (`YYYY-MM-DD`) to
counts. This project models that quota machinery and the request handlers
built on it:

- `UsageStore` (usage_store.dfy) models the usage file. It is `Absent` until the
  first write, `Written(map)` once saved, or `Malformed` when it does not
  parse. It also has the reads and writes of `load_usage`, `get_usage_count`,
  `update_usage_count` and the reset.
- `QuotaGate` (quota_gate.dfy) holds the shared limit and the gate
  `count >= USAGE_LIMIT` that refuses an action.
- `Handlers` (handlers.dfy) models each route as a pure step. A step takes the
  usage file, today's date, the request, and the outcome of the PDF work, and
  returns a response and the next usage file.
- `Sessions` (sessions.dfy) handles sequences of requests. It proves that the
  quota holds over any sequence, that untouched dates never change, and that
  the counter counts exactly the successful actions.

The host clock becomes a `today` parameter. Everything PyPDF2 and the upload
saving do becomes one boolean, `pdfOk`: true when the output file was written,
false when something on the way raised. Such a failure escapes the handler as
a server error, before the usage count is raised.

Two behaviours of the code are easy to misread:

- A usage file that does not parse is not read as empty. `json.load` raises,
  so every handler that reads the file fails with a server error. Nothing is
  written, and the file stays unreadable.
- On protect, a form field that was not sent at all (`pdf` or `password`) is a
  400 from the framework, raised before validation. Only a sent but empty file
  name or password gets the "Please upload a PDF and enter a password." message.
  That message goes out with status 200. The 400 is how Flask answers without
  debug mode. The program's own entry point runs `app.run(debug=True)`
  (app.py:131-132), and there Flask traps the missing-key error instead, so
  it escapes as an unhandled exception (a 500 page from the debugger). Either
  way the usage file is unchanged; the model's `BadRequest` stands for both.

## Model

| member | source | states |
|---|---|---|
| UsageStore.LoadUsage | app.py:33-37 | a missing usage file reads as the empty store; a file that does not parse raises; otherwise its contents are returned |
| UsageStore.Lookup | app.py:42 | a date with no entry has count 0; otherwise its stored count |
| UsageStore.GetUsageCount | app.py:39-42 | today's count is 0 when the file is missing, the stored count (0 if absent) when it parses, and an exception when it does not |
| UsageStore.Increment | app.py:47 | today's entry is created at 1 or raised by 1, the key set gains only today, and every other date keeps its count |
| UsageStore.UpdateUsageCount | app.py:44-49 | recording an action raises today's count by exactly one, writes the file, and changes no other date; an unreadable file raises and nothing is written |
| UsageStore.IncrementTimes | app.py:44-49 | n increments on one date raise its count by exactly n and leave other dates' entries and counts unchanged |
| UsageStore.ResetDay | app.py:124-125 | reset zeroes a date's entry only if it exists; a date without an entry stays without one; other dates keep their counts |
| UsageStore.ResetUsage | app.py:122-127 | with today's entry present, the file is rewritten with today at 0; with it absent, the file is left exactly as it was (not even created); other dates never change |
| Handlers.Commit | app.py:76-77 | once the output exists, the file is sent iff the usage file reads; then the action is counted exactly once; otherwise the result is a server error with the file unchanged |
| Handlers.MergeSubmitStep | app.py:59-77 | at or over the limit, the result is the 403 refusal with the file unchanged; when the gate allows but the PDF work raises, the result is a server error with no increment; a merge succeeds iff the file reads, the gate allows and the PDF work succeeds; success counts exactly one action for today; every failure leaves the file unchanged |
| Handlers.ValidateProtect | app.py:88-92 | protect inputs pass iff both fields were sent and neither the file name nor the password is empty; a missing field is a 400, an empty one the validation message |
| Handlers.ProtectSubmitStep | app.py:84-111 | the limit is checked before validation, so a refused request is refused even with bad input; invalid input leaves the file unchanged; valid input whose encryption or save raises gives a server error with no increment; success iff gate, validation and PDF work all pass; success counts exactly one action |
| Handlers.FormStep | app.py:79 | the merge and protect forms show `5 - count` remaining and never write (same code at app.py:113) |
| Handlers.ResetStep | app.py:116-128 | a wrong or missing key gives 403 with no change; the right key reports success whether or not anything changed, zeroes today only if it had an entry (the entry is kept, at 0, in a rewritten file), and never touches other dates |
| Handlers.Handle | app.py:57-128 | no request changes any date other than today, and no request makes a readable file unreadable or the reverse |
| Handlers.SharedBudget | app.py:26-28 | a merge and a valid protect made under the same conditions succeed or fail together and leave the same usage file, so both draw on one counter |
| Handlers.OnlySuccessWrites | app.py:57-128 | only a successful action or an authorised reset can change the usage file |
| Handlers.RefusalStatuses | app.py:85-92 | the quota refusal is 403 with the exact daily-limit text (also app.py:61), the admin-key refusal 403 with "Unauthorized" (app.py:120); the missing-input message and the reset confirmation (app.py:128) are sent as 200 with their texts |
| Sessions.Run | app.py:57-128 | a sequence of requests gets one response per request, and the file ends unreadable iff it started so |
| Sessions.HandleKeepsQuota | app.py:60-76 | one request of any kind keeps a day's count within [0, 5] if it started there |
| Sessions.RunKeepsQuota | app.py:26-28 | quota invariant: a day whose count starts in [0, 5] stays in [0, 5] after any sequence of merge, protect, reset and page requests on any dates |
| Sessions.RemainingWithinBounds | app.py:79 | after any such sequence, the form's remaining count lies in [0, 5], and showing it writes nothing |
| Sessions.RunLeavesOtherDays | app.py:44-49 | a day on which no request arrives keeps its count through the whole sequence |
| Sessions.HandleCountsSuccess | app.py:73-76 | apart from resets, one request raises a day's count by one iff it is a successful action on that day, and otherwise leaves it alone |
| Sessions.RunCountsSuccesses | app.py:105-110 | over a sequence with no reset on a day, its count rises by exactly the number of merges and protects that succeeded on that day |
| Sessions.RunNeverLowersWithoutReset | app.py:44-49 | without a reset, a day's count never decreases |
| Sessions.AtMostLimitSuccessesPerDay | app.py:26-28 | with no reset on a day, at most 5 minus its starting count actions succeed on it, whatever mix of merges and protects |
| Sessions.MergeOnDay | app.py:60-77 | a working merge below the limit succeeds and moves the day's count from n to n + 1 |
| Sessions.FiveActionsThenRefused | app.py:60-61 | on a fresh day, five working merges succeed and the sixth is refused with the count at 5, so the bound is reached |
| Sessions.ResetOnFreshDayWritesNothing | app.py:122-128 | an authorised reset before the day's first action reports success, writes no file, and the count stays 0 |

## Left out

- The PDF work (PyPDF2 merging, page copying, encryption; app.py:64-74 and app.py:99-108) is a foreign library. Every outcome of it, and of the upload saving before it, is one boolean per request. So page counts, page order and password checking of the output are not modelled.
- An empty `pdfs` upload list is not singled out. The merge handler does no validation, so what happens is whatever the PDF library does, and that is folded into the same boolean.
- The 413 handler and `MAX_CONTENT_LENGTH` (app.py:9-14) are not modelled. The framework raises the 413 lazily, when a handler first reads the form or the uploads (app.py:63, 88, 118). So an oversized merge or protect is still gated first: at the limit it gets the 403, below it the 413 with nothing counted; on reset the 413 comes before the key check. The usage file is unchanged in every one of these cases.
- Templates, `send_file` and the home page are out of scope. They appear only as response tags (`Landing`, `Form`, `Download`).
- Folder creation, `secure_filename` and output paths (app.py:17-24, 67-72, 94-97) are file-system work with no checkable logic. So are the overwrites caused by the shared output path.
- The usage file is one value, and requests are handled one at a time. The non-atomic read-modify-write in `update_usage_count` and the races between concurrent workers are not modelled.
- The second read of the usage file inside `update_usage_count` is not modelled separately. In a sequential model it returns what the gate read.
- A usage file that parses as JSON but holds non-integer counts is not modelled. The store maps dates to integers.
- A usage file that parses as JSON but is not an object (such as `[]`) is treated as `Malformed`. In the code, reading a count from it raises (a 500), as modelled. But a reset with the right key on `[]` reports success without writing, because `today in []` is false (app.py:124); the model answers a server error there.
- `datetime.now()` in `get_today` (app.py:30-31) is the clock, so each request carries its date instead.
- A merge or protect reads the clock twice: once in the gate (app.py:41) and once when counting (app.py:46). Each request carries a single date, so a request that crosses midnight, gated on one day and counted on the next, is not modelled. HandleCountsSuccess and RunCountsSuccesses credit every success to the day it was gated on.
