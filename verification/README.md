# jen2-fetcher: attachment deduplication and persistence

A Dafny model of the ingestion step of jen2-fetcher. Every minute the daemon fetches
the bank's transaction-notification mails. For each mail, `update` saves the mail's
spreadsheet attachment under `data/<filename>`, unless a file of that name is already
there, and then POSTs the absolute path of `data/` to the downstream service. `tick`
runs `update` over the fetched mails one after another.

The model has three modules:

- `Mail` (`mail.dfy`): a parsed mail, reduced to what `update` reads. That is a
  sequence of attachments, each with an optional filename and its bytes.
- `Ingest` (`ingest.dfy`): the specification as functions over a `State`.
  - The store is a `map<string, seq<bv8>>` from path to bytes; a path that is not a
    key does not exist.
  - The effect log records `Wrote(path)` for every completed `writeFile` and
    `Triggered(root)` for every POST sent.
  - `Step` is one `update` call and `Run` is the `tick` loop. The lemmas beside
    them state the deduplication and ordering properties.
- `Runner` (`runner.dfy`): class `Fetcher` holds the store and the log as fields.
  Its `Update` and `Tick` methods change them step by step, as the source does.
  Each method is proved equal to `Step` or `Run`. Both keep the lifetime invariant
  `WellLogged`: writes and triggers come in pairs, no path is written twice, and
  every written path stays on disk.

I/O is an input to the model. `Io(writeOk, postOk)` is how the environment answers
one `update`'s `writeFile` and its POST, where the POST includes decoding the JSON
reply. `root` stands for `path.resolve('data')`. It is an opaque string, fixed for
the life of the process.

### Behaviour of the code worth knowing

- One POST per newly written file, sent from inside `update` (src/index.ts:106), not one per tick.
- A rejected `writeFile`, `fetch` or `resp.json()` escapes `update` and the `for` loop of `tick`
  (src/index.ts:122-124), so the rest of the tick's mails are not processed. `Run` stops at the
  first rejection (`RunStopsAtFailure`).
- `!filename` (src/index.ts:92) also skips an empty filename.
- Existence is checked with `stat` and then the file is written (src/index.ts:97-103); any `stat`
  failure counts as absent.

## Model

| member | source | states |
|---|---|---|
| `Ingest.Step` | src/index.ts:85-115 | An existing file is never overwritten or removed. The log only grows. Either nothing changes, or the first attachment's path was absent and afterwards holds that attachment's content, with exactly `[Wrote(path), Triggered(root)]` appended, in that order; this happens only when the write succeeded, and the update then completes exactly when the POST does. A completed update leaves the candidate path on disk. Only I/O on a new candidate can reject. |
| `Ingest.NoAttachmentIsNoOp` | src/index.ts:86-89 | A mail with no attachments leaves store and log unchanged and completes. |
| `Ingest.FirstAttachmentOnly` | src/index.ts:86 | Dropping every attachment after the first gives the same outcome, so attachments at index 1 and later are never stored. |
| `Ingest.MissingFilenameIsNoOp` | src/index.ts:91-94 | A first attachment whose filename is absent or empty changes nothing and sends no trigger. |
| `Ingest.ExistingPathIsNoOp` | src/index.ts:96-100 | If `data/<filename>` is already in the store, store and log are unchanged and no trigger is sent. |
| `Ingest.NewPathIsWrittenThenTriggered` | src/index.ts:96-111 | If `data/<filename>` is absent and the write succeeds, that path is added with the attachment's content and every other entry is kept. The log gains the write followed by one trigger carrying `root`. The update rejects exactly when the POST fails. |
| `Ingest.FailedWriteChangesNothing` | src/index.ts:102-103 | If `data/<filename>` is absent and `writeFile` fails, the update rejects with store and log unchanged: nothing is stored and no trigger is sent. |
| `Ingest.DataPathInjective` | src/index.ts:96 | `data/a` equals `data/b` if and only if `a` equals `b`, so deduplicating by path is deduplicating by filename. |
| `Ingest.StepKeepsWellLogged` | src/index.ts:96-111 | One update keeps the lifetime invariant: paired log, no path written twice, and every written path on disk. |
| `Ingest.PairedCounts` | src/index.ts:103-111 | In a paired log, the number of triggers equals the number of writes. |
| `Ingest.TriggerFollowsWrite` | src/index.ts:103-111 | In a paired log, every trigger directly follows a write and carries `root`. Every write is directly followed by a trigger. |
| `Ingest.Run` | src/index.ts:122-124 | A tick never overwrites or removes an existing file and only appends to the log. |
| `Ingest.RunStopsAtFailure` | src/index.ts:122-124 | Once an update rejects, the rest of the tick's mails change nothing. |
| `Ingest.RunCoversCandidates` | src/index.ts:122-124 | After a completed tick, the candidate path of every mail in it is on disk. |
| `Ingest.RunOverPresentIsNoOp` | src/index.ts:97-100 | A tick whose candidate paths are all on disk already writes nothing, sends nothing and completes, whatever the I/O would answer. |
| `Ingest.RedeliveryIsNoOp` | src/index.ts:122-124 | After a completed tick, running a tick again over the same mails writes nothing and records zero triggers. The same holds for any mails whose candidate paths the first tick already had. |
| `Ingest.RunStoresFirstContent` | src/index.ts:122-124 | After a completed tick, a path that existed keeps its old content. A new path holds the content of the first mail in tick order that targets it. A path that no mail targets does not exist. |
| `Ingest.RunLogMatchesNewFiles` | src/index.ts:122-124 | A tick appends (write, trigger) pairs, exactly one for each file that is new on disk afterwards, and no path twice. Two mails with the same filename therefore cause at most one write. |
| `Ingest.RunTriggersEqualWrites` | src/index.ts:122-124 | The number of triggers a tick sends equals the number of files it writes. |
| `Runner.Fetcher.Update` | src/index.ts:85-115 | The in-place `update`: it keeps `Valid()`, and its new store, log and completion are those of `Step` on the old state. |
| `Runner.Fetcher.Tick` | src/index.ts:117-125 | The in-place `for` loop over the fetched mails: it keeps `Valid()`, and its new store, log and completion are those of `Run` on the old state. |

## Left out

- IMAP connection, opening the inbox, search and fetch streaming (src/index.ts:24-83) are network-client plumbing. `Tick` starts from the sequence of mails that `search` resolved with.
- MIME parsing by `mailparser` is a foreign library. A parsed mail is given as a value. Sender and subject are not read by `update`, so they are not part of the model.
- The completion condition of `search` (`mails.length === results.length`) depends on callback order. It never holds once a parse error dropped a mail, and the tick then hangs. This belongs to the event loop and is not modelled.
- The JSON body of the POST, the endpoint URL, and the `existed`/`created` counters of the reply are network I/O that is only logged. A trigger is recorded with the path it carries. Whether the POST and its JSON decoding succeed is the `postOk` input.
- A POST that fails is still recorded as `Triggered`, because it was issued. Whether the request reached the service is not modelled.
- A `writeFile` that fails is modelled as leaving the store unchanged. A partially written file is not modelled.
- `stat` and `writeFile` work on literal path strings. A filename containing `/` or `..` would name a different file on a real disk; path normalisation is not modelled.
- Configuration loading, the constant search criteria, timestamps and console logging (src/index.ts:1-22, 104, 114) carry no logic.
- The cron schedule and overlapping ticks (src/index.ts:127-135) are timer mechanics and concurrency. Ticks are modelled as running one after another on one `Fetcher`.
