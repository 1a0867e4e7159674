# ImapPlayground drivers, modelled in Dafny

ImapPlayground is a set of small Go programs that exercise IMAP servers through
go-imap (v1 and v2) and parse the fetched messages with go-message. The logic
they add on top of those libraries is modelled here:

- the `NextPart` walks over a message's MIME parts (section 5.1 of RFC 2046) in
  three flavours: tolerant (`benchmark/large_payload`), more tolerant
  (`benchmark/sync_all_v2`) and strict (`benchmark/message`). Each decides, for
  every `(part, error)` pair the library returns, whether to go on, stop quietly
  or panic. Each also classifies parts as text, html or attachment;
- attachment metadata (`printAttachment`): the file ID, the file name taken by
  the regular expression `.*name="(\S+)"` from Content-Type, and the
  Content-Disposition; in large_payload the body is then written to `tmp.txt`
  with an EOF-tolerant copy;
- the fetch-item loops: sync_all_v2 keeps one mail reader, overwritten by every
  body section and parsed once at the end; fetch_uid_v2 folds each message's
  items into fresh per-message variables and skips unreadable bodies;
- the last-N sequence range of `listMessage` in uint32 arithmetic (a seq-range
  of section 9 of RFC 3501), the UID-match rule of `fetchMessageById`, and the
  buffered-channel collection of mailboxes and messages;
- the `SENTSINCE` search 90 days back (section 6.4.4 of RFC 3501);
- the operating-system name and version sent in the IMAP ID command (RFC 2971),
  read from `/etc/os-release` line by line.

Everything the programs receive from the network, the operating system or the
libraries is an input to the model. This covers NextPart results,
`mail.CreateReader` results, fetch responses, command output, the file system
and the current day.

Modules, one per file:

| file | module | models |
|---|---|---|
| wrappers.dfy | Wrappers | Option and Result |
| go_strings.dfy | GoStrings | `strings.Contains`, `HasPrefix`, `Trim`, `TrimSpace`, `unicode.IsSpace` |
| name_regex.dfy | NameRegex | the RE2 match of `.*name="(\S+)"` (leftmost-first, `.` stops at line feeds) |
| imap.dfy | Imap | go-imap values (fetch items, messages, mailboxes) and the 10-slot channel collection |
| mime.dfy | Mime | go-message values (parts, errors, headers), the actions a walk takes, and the generic walk `Run` |
| large_payload.dfy | LargePayload | benchmark/large_payload |
| sync_all_v2.dfy | SyncAllV2 | benchmark/sync_all_v2 |
| message.dfy | MessageBench | benchmark/message |
| client.dfy | Client | client |
| fetch_uid_v2.dfy | FetchUidV2 | benchmark/fetch_uid_v2 |
| imap_id.dfy | ImapId | benchmark/imap_id |
| triage_order.dfy | TriageOrder | how the three walks compare on one error |

A NextPart reader is the sequence of `(part, error)` results its calls return.
A loop body maps one result to a `Step`: go on with some actions, or leave the
loop with a status. The status is `Done` (EOF), `Stopped` (an error the driver
chose to stop on) or `Failed` (a panic or fatal exit). `Mime.Run` is the walk
these steps define. Each driver's loop is a `method` proved equal to `Run` with
that driver's step, and the lemmas state how walks end.

## Model

| member | source | states |
|---|---|---|
| Mime.InlineKind | benchmark/large_payload/main.go:147-156 | an inline part is text exactly when its Content-Type contains "text/plain", and html exactly when it does not but contains "text/html" |
| Mime.Describe | benchmark/large_payload/main.go:170-207 | attachment metadata: the given file ID, the Content-Type value, the file name the pattern captures, and the Content-Disposition value or "" when the field is absent |
| Mime.HaltIndex | benchmark/large_payload/main.go:122-160 | the first result whose step leaves the loop: every earlier step goes on and that one leaves |
| Mime.RunShape | benchmark/large_payload/main.go:122-160 | a walk consumes results up to and including the first that leaves the loop, ends with that step's status (Done if the results run out) and performs exactly the consumed steps' actions |
| Mime.HaltAt | benchmark/large_payload/main.go:139-141 | when step i is the first to leave, the walk ends after i+1 results with that status, and no later result is ever looked at |
| Mime.Run | benchmark/large_payload/main.go:122-160 | the NextPart loop of any driver, given its loop body as a step function: each result's step runs in turn until one leaves the loop; it never consumes more results than there are (its shape is proved in RunShape and HaltAt) |
| Mime.Get | benchmark/large_payload/main.go:146 | Header.Get for a key in canonical form: the field's value, or "" when the header has no such field |
| Mime.CanonicalKeyShape | benchmark/fetch_uid_v2/main.go:151 | the canonical form of a header key that Header.Get and Header.Has look up: same length; for a token-only key, upper case at the start and after each '-' and lower case elsewhere; any other key unchanged |
| Mime.DriverKeys | benchmark/fetch_uid_v2/main.go:151 | "Message-ID" is looked up as "Message-Id"; "Content-Type", "Content-Disposition" and "X-Attachment-Id" are already canonical |
| Mime.ReadAll | benchmark/large_payload/main.go:224-232 | readerToString and io.ReadAll: what the body delivered before it ended, with the read error dropped |
| NameRegex.CaptureEndMatches | benchmark/large_payload/main.go:22 | from a `name="` at k, the greedy capture ends at the last quote of the non-space run, and there is no match at k exactly when it returns none |
| NameRegex.FindFrom | benchmark/large_payload/main.go:187 | the match FindStringSubmatch reports, as the index of `name="` and of the closing quote, both at or after the search start and inside the string (leftmost-first semantics proved in FindFromSpec) |
| NameRegex.FindFromSpec | benchmark/large_payload/main.go:187 | the leftmost-first match: on the first line that has a match, the last `name="` whose capture succeeds, with the longest capture; none exactly when nothing matches |
| NameRegex.FileName | benchmark/large_payload/main.go:186-196 | fileName: the first submatch of `.*name="(\S+)"` over Content-Type, or "" when there is no match (proved in FileNameShape) |
| NameRegex.FileNameShape | benchmark/large_payload/main.go:186-196 | fileName is "" exactly when the pattern does not match; otherwise it is non-empty, has no white space, and `name="` + fileName + `"` occurs in Content-Type |
| GoStrings.Contains | benchmark/large_payload/main.go:131 | strings.Contains: the substring occurs at some index of the string |
| GoStrings.HasPrefix | benchmark/imap_id/main.go:89 | strings.HasPrefix: the string starts with the prefix |
| GoStrings.Trim | benchmark/imap_id/main.go:90 | strings.Trim: cutset characters removed from both ends (proved in TrimShape) |
| GoStrings.TrimShape | benchmark/imap_id/main.go:90 | the result neither starts nor ends with a cutset character, and is a slice of the input with only cutset characters before and after it |
| GoStrings.TrimSpace | benchmark/imap_id/main.go:116 | strings.TrimSpace: white space removed from both ends (proved in TrimSpaceShape) |
| GoStrings.IsSpace | benchmark/imap_id/main.go:116 | unicode.IsSpace: the Unicode White_Space characters, which TrimSpace removes |
| GoStrings.TrimSpaceShape | benchmark/imap_id/main.go:116 | the result neither starts nor ends with white space, and is a slice of the input with only white space around it |
| LargePayload.CopyError | benchmark/large_payload/main.go:241 | the error io.Copy reports into tmp.txt: with an empty body nothing is written and the body's own error is reported; a failing disk shows only when there was data to write |
| LargePayload.WriteToFile | benchmark/large_payload/main.go:234-249 | nil exactly when tmp.txt is created and the copy succeeds or fails with an error whose text contains "EOF"; any error returned is the create or the copy error |
| LargePayload.FileIdOf | benchmark/large_payload/main.go:174-183 | fileID: the X-Attachment-Id value whenever the header has the field, even empty, else a generated UUID (proved in AttachmentMetadata) |
| LargePayload.PrintAttachment | benchmark/large_payload/main.go:170-222 | printAttachment: the metadata and content logged, or a panic when writeToFile fails (proved in AttachmentMetadata and WriteFailurePanics) |
| LargePayload.Dispatch | benchmark/large_payload/main.go:144-159 | the type switch: text/plain, then text/html, then printAttachment for inline parts, printAttachment for attachment parts, a panic for a nil part (proved in Classification and DispatchNeverEnds) |
| LargePayload.Handle | benchmark/large_payload/main.go:123-159 | the loop body for one NextPart result: EOF ends the loop, then the charset, multipart and panic cases, then the type switch (proved in NoErrorIsDispatched, FinishStatus and UnknownCharsetIsDispatched) |
| LargePayload.Triage | benchmark/large_payload/main.go:128-137 | the error switch, first match wins: unknown charset ignored, then the multipart text stops, else panic (proved in FinishStatus, UnknownCharsetIsDispatched and TriageOrder.ToleranceOrder) |
| LargePayload.HandlePart | benchmark/large_payload/main.go:123-159 | one pass of the loop body: the error switch (EOF, then unknown charset, then the multipart text) and the type switch, as the step `Handle` describes |
| LargePayload.WalkParts | benchmark/large_payload/main.go:122-160 | the NextPart loop performs exactly the walk `Run` defines for large_payload's step |
| LargePayload.UnknownCharsetIsDispatched | benchmark/large_payload/main.go:128-144 | an unknown-charset error is logged and the part returned with it is dispatched, even if its text also names the multipart failure |
| LargePayload.WalkEnding | benchmark/large_payload/main.go:122-141 | a walk is Stopped exactly when it halts at a multipart error, Done exactly at EOF (wrapped or not) or when the results run out, and fails on any other error |
| LargePayload.FinishStatus | benchmark/large_payload/main.go:124-141 | a step leaves the loop as Stopped exactly on a multipart error and as Done exactly on EOF; other errors panic with their text |
| LargePayload.DispatchNeverEnds | benchmark/large_payload/main.go:144-159 | handling a part never ends or stops the walk; it can only panic (failed write), and a nil part panics |
| LargePayload.NoErrorIsDispatched | benchmark/large_payload/main.go:123-159 | a result without an error skips the error switch and goes straight to the type switch |
| LargePayload.MultipartErrorStopsWalk | benchmark/large_payload/main.go:131-141 | at the first multipart error the walk stops after exactly that result, and whatever NextPart would return later changes nothing |
| LargePayload.Classification | benchmark/large_payload/main.go:144-159 | inline parts: text/plain before text/html before attachment; attachment-header parts always go to printAttachment |
| LargePayload.AttachmentMetadata | benchmark/large_payload/main.go:170-222 | when the write succeeds: fileID is the X-Attachment-Id value whenever present, even empty, else generated; fileName follows the pattern rule; disposition is the value or ""; the content written is the body's data |
| LargePayload.WriteFailurePanics | benchmark/large_payload/main.go:217-221 | when writeToFile fails, printAttachment panics with that error |
| LargePayload.EmptyBodyIsNotWritten | benchmark/large_payload/main.go:234-249 | an empty body that ends cleanly is never written: writeToFile fails only if tmp.txt cannot be created, and otherwise printAttachment logs the attachment |
| SyncAllV2.Criteria | benchmark/sync_all_v2/main.go:100-103 | the search criteria: SentSince 90 days before today and no other bound (proved in SearchWindow) |
| SyncAllV2.SearchWindow | benchmark/sync_all_v2/main.go:100-103 | the criteria admit exactly the messages sent on or after the day 90 days before today |
| SyncAllV2.SearchOneFolder | benchmark/sync_all_v2/main.go:92-110 | a SELECT or search failure is the error; otherwise the result is every UID the server returned for the 90-day criteria |
| SyncAllV2.Triage | benchmark/sync_all_v2/main.go:171-185 | the five-way error switch, first match wins: unknown charset and malformed header line ignored, then multipart and encoding errors stop, else panic (proved in LeaveOnlyOnError, MalformedBeforeMultipart and TriageOrder.ToleranceOrder) |
| SyncAllV2.Dispatch | benchmark/sync_all_v2/main.go:192-211 | a nil part is skipped; inline parts give text, html or an inline-attachment warning; attachment parts give nothing (proved in DispatchRules) |
| SyncAllV2.Handle | benchmark/sync_all_v2/main.go:166-211 | the loop body for one NextPart result: EOF ends, the five-way error switch, then the nil-part skip and the type switch (proved in HandleDispatches, LeaveOnlyOnError and MalformedBeforeMultipart) |
| SyncAllV2.Parse | benchmark/sync_all_v2/main.go:164-213 | parseBody: a nil reader panics, otherwise the NextPart walk with Handle as its body (proved in WalkEnding) |
| SyncAllV2.HandlePart | benchmark/sync_all_v2/main.go:166-211 | one pass of the loop body: the five-way error switch, the nil-part skip and the inline-only type switch, as `Handle` describes |
| SyncAllV2.ParseBody | benchmark/sync_all_v2/main.go:164-213 | parseBody performs the walk `Parse` defines; a nil reader panics at once |
| SyncAllV2.LeaveOnlyOnError | benchmark/sync_all_v2/main.go:167-189 | only an error leaves the loop: EOF ends it, a multipart or encoding error stops it, an unrecognised error panics, charset and malformed-header errors never leave |
| SyncAllV2.WalkEnding | benchmark/sync_all_v2/main.go:165-190 | no result before the halting one stops or panics, and the walk's status is decided by the halting result's triage |
| SyncAllV2.MalformedBeforeMultipart | benchmark/sync_all_v2/main.go:171-178 | an error naming both a malformed header line and "multipart:" is ignored and its part handled |
| SyncAllV2.HandleDispatches | benchmark/sync_all_v2/main.go:166-211 | with no error the part goes to the type switch; after an unknown-charset or malformed-header error it goes there after the warning; so a nil part is skipped in both cases |
| SyncAllV2.DispatchRules | benchmark/sync_all_v2/main.go:192-211 | a nil part and attachment-header parts produce nothing; inline parts produce one action, text/plain before text/html before inline attachment |
| SyncAllV2.Request | benchmark/sync_all_v2/main.go:117-125 | the UID FETCH loadMsgs sends: the given UIDs with envelope, flags, UID and BODY.PEEK[] (its UIDs stated by LoadMsgs) |
| SyncAllV2.LoadSpec | benchmark/sync_all_v2/main.go:112-162 | loadMsgs: no fetch for no UIDs; otherwise a CreateReader panic, or parseBody on the reader the fetch loop kept (proved in LoadWalksLastReader) |
| SyncAllV2.Absorb | benchmark/sync_all_v2/main.go:143-158 | the switch on one fetch item: a body section replaces the reader or panics, the known kinds change nothing, others are logged |
| SyncAllV2.ScanAll | benchmark/sync_all_v2/main.go:131-160 | the two fetch loops over all items of all messages, in order (proved in ScanResult) |
| SyncAllV2.LoadMsgs | benchmark/sync_all_v2/main.go:112-162 | no fetch at all for an empty UID list, otherwise a fetch of exactly those UIDs; the loops compute what `LoadSpec` describes |
| SyncAllV2.LastBody | benchmark/sync_all_v2/main.go:146-148 | the literal of the last body-section item, none exactly when there is no body-section item |
| SyncAllV2.ScanResult | benchmark/sync_all_v2/main.go:131-160 | the fetch loop panics exactly when some body section cannot be opened; otherwise the reader comes from the last body section and unknown item types are only logged, in order |
| SyncAllV2.ScanSucceeds | benchmark/sync_all_v2/main.go:131-160 | the fetch loop ends without a panic exactly when every body section's CreateReader succeeds |
| SyncAllV2.ScanReader | benchmark/sync_all_v2/main.go:143-151 | without a panic, the reader kept is the one built from the last body section, or the starting one when none arrived |
| SyncAllV2.ScanUnknown | benchmark/sync_all_v2/main.go:143-158 | without a panic, the unknown item types are appended to the log in arrival order |
| SyncAllV2.LoadWalksLastReader | benchmark/sync_all_v2/main.go:129-161 | parseBody runs once, after the fetch loop, on the reader of the last body section of all messages, or on a nil reader when none arrived |
| MessageBench.PrintAttachment | benchmark/message/main.go:183-227 | printAttachment: a panic without X-Attachment-Id, else the metadata and content logged (proved in AttachmentMetadata) |
| MessageBench.Dispatch | benchmark/message/main.go:139-154 | the type switch: text/plain, then text/html, then printAttachment for inline parts, printAttachment for attachment parts (proved in Classification) |
| MessageBench.Handle | benchmark/message/main.go:132-154 | the strict loop body: io.EOF itself ends, any other error panics, then the type switch (proved in LeaveRules and Classification) |
| MessageBench.HandlePart | benchmark/message/main.go:132-154 | one pass of the strict loop body, as `Handle` describes |
| MessageBench.WalkParts | benchmark/message/main.go:131-155 | the strict NextPart loop performs exactly the walk `Run` defines for its step |
| MessageBench.LeaveRules | benchmark/message/main.go:132-154 | a step leaves the loop exactly on an error or a part it cannot handle; only io.EOF itself ends normally; every other error is fatal |
| MessageBench.Classification | benchmark/message/main.go:139-154 | for a result without an error: a nil part panics, attachment parts always go to printAttachment, and inline parts are text when Content-Type contains "text/plain", else html when it contains "text/html", else printAttachment |
| MessageBench.StrictWalk | benchmark/message/main.go:131-137 | every result before the halting one had no error, the walk never stops quietly, and it is Done exactly at io.EOF itself or when the results run out |
| MessageBench.AttachmentMetadata | benchmark/message/main.go:183-227 | an attachment without X-Attachment-Id is fatal; with it, fileID is its value, fileName follows the pattern rule, disposition is the value or "", and the content is what the body delivered |
| MessageBench.ListFolderAsWritten | benchmark/message/main.go:165-181 | listFolder as written hangs once more than 10 mailboxes are listed; otherwise it returns them all, in order, with a List error only logged |
| MessageBench.ListFolder | benchmark/message/main.go:165-181 | with the channel drained while List runs, every mailbox is returned in arrival order, whatever List reports |
| Imap.TypeName | benchmark/sync_all_v2/main.go:157 | reflect.TypeOf(item).String(): the go-imap type name of each known item kind, and the carried name for any other kind (logged by UnknownLogged and ScanUnknown) |
| Imap.CollectAfterDone | benchmark/message/main.go:166-179 | waiting for the command before draining a 10-slot channel returns every item in order when at most 10 are sent, and never returns otherwise |
| Imap.CollectWhileRunning | benchmark/message/main.go:166-180 | draining the channel while the command runs returns every item in the order sent |
| Client.Sub32 | client/main.go:221-223 | uint32 subtraction: exact when no underflow, else wrapped by 2^32 |
| Client.ListRange | client/main.go:218-224 | the range ends at the newest message and starts at 1 or above; it covers exactly min(Messages, lastN) messages for lastN >= 1; lastN = 0 wraps and gives 1..Messages |
| Client.ListMessage | client/main.go:218-242 | the request is that range; the result is one entry per received message in receipt order, a Fetch error is fatal, and more than 10 messages never return |
| Client.FetchMessageById | client/main.go:244-266 | requests UID id; a UidFetch error is fatal; returns the first message exactly when its UID is id; a mismatching first message or none at all is fatal; more than 10 messages never return |
| FetchUidV2.Collect | benchmark/fetch_uid_v2/main.go:86-120 | the per-message variables after the item loop, from their zero values (proved in FieldsFromLastItems) |
| FetchUidV2.MessageOutcome | benchmark/fetch_uid_v2/main.go:86-153 | one message: skipped on a body read error, fatal on a nil envelope or a failed CreateReader, else its Message-ID (proved in SkipRule and EnvelopeRequired) |
| FetchUidV2.FetchAll | benchmark/fetch_uid_v2/main.go:79-153 | the outer loop: one result per message until one ends the program (proved in PerMessage) |
| FetchUidV2.Apply | benchmark/fetch_uid_v2/main.go:99-119 | each item kind overwrites its own variable and leaves every other one alone; an unknown kind is only logged |
| FetchUidV2.LastEnvelope | benchmark/fetch_uid_v2/main.go:100-101 | the envelope is the one of the last envelope item, or nil |
| FetchUidV2.LastFlags | benchmark/fetch_uid_v2/main.go:102-103 | the flags are those of the last flags item, or nil |
| FetchUidV2.LastUid | benchmark/fetch_uid_v2/main.go:104-105 | the UID is that of the last UID item, or nil |
| FetchUidV2.LastDate | benchmark/fetch_uid_v2/main.go:106-107 | internalDate is the Unix seconds of the last internal-date item, or 0 |
| FetchUidV2.LastBody | benchmark/fetch_uid_v2/main.go:108-116 | emlStr and emlErr come from the last body-section item, or are "" and nil |
| FetchUidV2.UnknownLogged | benchmark/fetch_uid_v2/main.go:117-118 | the unknown item types are logged in order |
| FetchUidV2.FieldsFromLastItems | benchmark/fetch_uid_v2/main.go:86-120 | every per-message variable holds what the last item of its kind carried, or its zero value |
| FetchUidV2.ReadItems | benchmark/fetch_uid_v2/main.go:86-120 | the inner loop over one message's items, from fresh variables, leaves them as the last item of each kind set them |
| FetchUidV2.HandleMessage | benchmark/fetch_uid_v2/main.go:86-153 | one message: skipped on a body read error, ended on a nil envelope or a failed CreateReader, otherwise its Message-ID is read |
| FetchUidV2.FetchMessages | benchmark/fetch_uid_v2/main.go:79-153 | the outer loop, with per-message variables reset, produces the results `FetchAll` describes |
| FetchUidV2.PerMessage | benchmark/fetch_uid_v2/main.go:86-126 | each result is its own message's outcome from fresh variables, skipped messages do not stop the loop, and only the last result can end the program |
| FetchUidV2.SkipRule | benchmark/fetch_uid_v2/main.go:122-126 | a message is skipped exactly when its last body section failed to read; with no body section it is not skipped and emlStr is "" |
| FetchUidV2.EnvelopeRequired | benchmark/fetch_uid_v2/main.go:131-151 | a message that is not skipped panics exactly when no envelope item arrived; a processed message reports the value of the header field stored as "Message-Id", or "" |
| ImapId.Lines | benchmark/imap_id/main.go:86-88 | the scanner's lines hold no line feed, and there are none exactly for empty output |
| ImapId.LinesRoundTrip | benchmark/imap_id/main.go:86-88 | without carriage returns, joining the lines with line feeds gives back the output, less a final line feed |
| ImapId.LinuxOSName | benchmark/imap_id/main.go:87-94 | the scan over os-release lines: the first NAME= line's value with quotes trimmed, or the error (proved in NameLineRule and FirstLine) |
| ImapId.NameLineRule | benchmark/imap_id/main.go:87-94 | the value after the first line starting with NAME=, with quotes trimmed; the error exactly when no line starts with NAME= |
| ImapId.FirstNameLine | benchmark/imap_id/main.go:87-89 | the index of the first line starting with NAME=, the number of lines when there is none |
| ImapId.FirstLine | benchmark/imap_id/main.go:87-92 | the scan returns the first line's name when it starts with NAME=, and otherwise whatever the rest of the lines give |
| ImapId.PrettyNameSkipped | benchmark/imap_id/main.go:89 | a PRETTY_NAME= line never counts as the NAME= line |
| ImapId.NameShape | benchmark/imap_id/main.go:90 | the name has no quote at either end and is what follows NAME= with only quotes removed around it |
| ImapId.GetLinuxOSName | benchmark/imap_id/main.go:79-95 | a failing `cat /etc/os-release` is the error; otherwise the scanner loop returns `LinuxOSName` of the output's lines |
| ImapId.OSName | benchmark/imap_id/main.go:65-94 | windows gives "Windows", darwin "macOS", any platform but linux "unsupported platform"; on linux a failing `cat /etc/os-release` is the error, and otherwise the result is the name scanned from its lines |
| ImapId.GetOSName | benchmark/imap_id/main.go:65-76 | getOSName computes `OSName`, using the os-release scan on linux |
| ImapId.VersionCommand | benchmark/imap_id/main.go:100-109 | a command exactly for windows, darwin and linux, and on linux the same `cat /etc/os-release` getLinuxOSName runs |
| ImapId.OSVersion | benchmark/imap_id/main.go:97-117 | an unsupported platform is an error; otherwise the platform's command error is the error, and its output with white space trimmed from both ends is the version (the whole os-release file on linux) |
| TriageOrder.ToleranceOrder | benchmark/sync_all_v2/main.go:171-185 | every error large_payload ignores, sync_all_v2 ignores too; every error large_payload stops on, sync_all_v2 ignores or stops on |
| TriageOrder.WrappedEOF | benchmark/message/main.go:133-136 | an error wrapping io.EOF ends the errors.Is walks normally but is fatal to the strict `err == io.EOF` walk |

## Left out

- Dialing, TLS, LOGIN, SELECT, LIST, FETCH, SEARCH, MOVE, CREATE, DELETE and LOGOUT are network I/O through go-imap. Their answers are inputs: received messages and mailboxes, errors, fetch items.
- Goroutines and channels are not modelled as such. What they decide, the order and completeness of a collection, is modelled by `Imap.CollectAfterDone` and `Imap.CollectWhileRunning`.
- go-message is not modelled: NextPart results and `mail.CreateReader` results are inputs (`Mime.Outcome`, `Mime.MailOpen`), and so is charset decoding.
- Log lines are not modelled beyond the actions a walk records: text, html, inline attachment, found attachment and ignored-error warnings.
- `uuid.New` is the opaque value `Mime.FileId.Generated`.
- `time.Now` is the day-number input `today`. `AddDate(0, 0, -90)` is modelled as 90 days back.
- The per-message outer loops of benchmark/large_payload and benchmark/message are not modelled: the nil-message and nil-body fatal exits, the CreateReader panic and the envelope logging. Only one message's NextPart walk is modelled.
- The `main` functions' own sequencing is not modelled: the folder loop in sync_all_v2, `runFlow` in client with its latency timing and CSV writing, and imap_id's ID command with its fixed fields.
- LargePayload.PrintAttachment: when the write fails, the "Found attachment" log line written just before the panic is not recorded in the actions.
- LargePayload.CopyError: a disk that fails to write is modelled as failing on the first write, so when the body has data the write error is reported even if the body's reader fails later; a disk that fails only after some bytes were written is not modelled.
- Mime.Get: a header field that occurs several times is modelled by the value Header.Get returns, one per field name. The header is keyed by canonical field names and the drivers' keys are passed in canonical form, as Mime.DriverKeys proves each of them becomes.
- ImapId.Lines: bufio.Scanner's 64 KiB limit on a line is not modelled. A longer os-release line would end the scan early.
- Client.ListRange: go-imap v1 writes a range end of 0 as `*`. The request is modelled as the two numbers, not its wire form.
- Client.FetchMessageById: the request is modelled as the number `id`. go-imap v1 writes 0 in a sequence set as `*`, so `id` = 0 asks for the highest UID, not UID 0.
- Imap.FetchItem: a body-section item always carries a literal. A nil `Literal` would panic at `io.ReadAll` (benchmark/fetch_uid_v2/main.go:115) and at `mail.CreateReader` (benchmark/sync_all_v2/main.go:148); that panic is not modelled.
- SyncAllV2.LoadMsgs: the reader kept from the last body section gives the NextPart results its literal would give when CreateReader ran, and those results are inputs. The source reads that reader only after the fetch loop has moved past the literal, so parseBody may see less. The comment at benchmark/fetch_uid_v2/main.go:109-111 reports such a kept reader failing with EOF. How go-imap v2 consumes a literal as the command advances is not modelled.
- FetchUidV2.FetchMessages: the deferred `Close` calls are not modelled, neither the fetch command's nor each mail reader's. An envelope item carrying a nil envelope is not modelled.
- Strings are sequences of Unicode code points; UTF-8 bytes are not modelled.

## Findings

| source | as written | input that shows it | evidently intended | confidence | as-written member | corrected member |
|---|---|---|---|---|---|---|
| benchmark/message/main.go:166-179 | listFolder waits for List's result on `done` before draining the 10-slot mailbox channel; List cannot finish while the channel is full | a server listing 11 mailboxes: List blocks on the 11th send and listFolder never returns | drain the channel while List runs, then read `done`, returning every mailbox | high; not executed | MessageBench.ListFolderAsWritten | MessageBench.ListFolder |
