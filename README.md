# Sync attachment store and sync-internals page helpers, in Dafny

This project models two pieces of sequential logic from the Chromium sync code
and proves properties of them.

- **The in-memory attachment store** (`sync/api/attachments/fake_attachment_store.cc`).
  A `Backend` owns a table from attachment id to attachment. `Read` reports
  `SUCCESS` with a copy of the entry, or `NOT_FOUND`. `Write` inserts the
  attachment under its own id and reports `SUCCESS` with that id. `Drop` erases
  an entry and reports `SUCCESS`, or reports `NOT_FOUND`. The front-end
  `FakeAttachmentStore` passes each call on to the backend unchanged. Module
  `AttachmentStore` (`attachment_store.dfy`) models both as classes. The table
  is a `map` field. Results are returned instead of posted to a callback.
- **The sync-internals page** (`chrome/browser/resources/sync_internals/about.js`).
  - Module `ProtocolEventLog` (`protocol_event_log.dfy`) models the protocol event log. It is a class
    `EventLog` with the page's two module-level variables, `protocolEvents` and
    `knownEventTimestamps`. Beside it are pure functions for one delivery, repeated
    deliveries and a stream of deliveries, and lemmas over them.
  - Module `StatusDump` (`status_dump.dfy`) models the import button's text trimming and the
    dump button's `is_sensitive` filter. It also models the dump text, to relate a dump to a
    later import.

`wrappers.dfy` holds the `Option` type used for the possibly empty attachment.

## Model

| member | source | states |
|---|---|---|
| AttachmentStore.Lookup | sync/api/attachments/fake_attachment_store.cc:47-53 | looking up an id gives SUCCESS exactly when the id is in the table, together with the stored attachment; otherwise NOT_FOUND and no attachment |
| AttachmentStore.Insert | sync/api/attachments/fake_attachment_store.cc:63 | map insert adds the id to the keys; a fresh id maps to the new attachment; an id already present keeps its entry; every existing entry is kept |
| AttachmentStore.Erase | sync/api/attachments/fake_attachment_store.cc:71-73 | erase removes exactly that key and keeps every other entry |
| AttachmentStore.Backend.constructor | sync/api/attachments/fake_attachment_store.cc:36-41 | a new backend has an empty table, and every entry is filed under its own id |
| AttachmentStore.Backend.Read | sync/api/attachments/fake_attachment_store.cc:45-56 | the result and attachment are those of looking the id up; a found attachment carries the requested id; the method has no modifies clause, so the table is unchanged |
| AttachmentStore.Backend.Write | sync/api/attachments/fake_attachment_store.cc:58-66 | always SUCCESS with the attachment's own id; the new table is the old one with the pair inserted, without overwriting; the keyed-by-id invariant is kept |
| AttachmentStore.Backend.Drop | sync/api/attachments/fake_attachment_store.cc:68-77 | SUCCESS exactly when the id was present; the new table is the old one with that key erased |
| AttachmentStore.FakeAttachmentStore.constructor | sync/api/attachments/fake_attachment_store.cc:79-82 | the front-end owns a fresh backend with an empty table |
| AttachmentStore.FakeAttachmentStore.Read | sync/api/attachments/fake_attachment_store.cc:86-91 | reports what the backend's read of the same id reports |
| AttachmentStore.FakeAttachmentStore.Write | sync/api/attachments/fake_attachment_store.cc:93-100 | has the effect and result of the backend's write of the same attachment |
| AttachmentStore.FakeAttachmentStore.Drop | sync/api/attachments/fake_attachment_store.cc:102-107 | has the effect and result of the backend's drop of the same id |
| AttachmentStore.OperationsKeepKeyedById | sync/api/attachments/fake_attachment_store.cc:58-77 | insert and erase keep every entry filed under its own id, so a successful read returns an attachment whose id is the one asked for |
| AttachmentStore.ReadAfterFreshWrite | sync/api/attachments/fake_attachment_store.cc:45-66 | a read of the id returned by a write of a fresh id yields SUCCESS and the written attachment |
| AttachmentStore.WriteOfStoredIdKeepsEntry | sync/api/attachments/fake_attachment_store.cc:63 | writing an attachment whose id is already stored leaves the table unchanged, and the old entry is what a read returns |
| AttachmentStore.DropThenReadOrDrop | sync/api/attachments/fake_attachment_store.cc:45-77 | after a drop the id reads as NOT_FOUND, it is no longer a key, and a second drop changes nothing |
| AttachmentStore.DropOfAbsentIdChangesNothing | sync/api/attachments/fake_attachment_store.cc:70-77 | dropping an absent id leaves the table as it was |
| AttachmentStore.OtherIdsUnaffected | sync/api/attachments/fake_attachment_store.cc:58-77 | a write or drop does not change what any other id reads as |
| AttachmentStore.WriteReadDropScenario | sync/api/attachments/fake_attachment_store.cc:86-107 | through the front-end, with a fresh id: write then read gives SUCCESS and the attachment; drop gives SUCCESS; a later read and a second drop give NOT_FOUND; the table returns to its old value |
| ProtocolEventLog.Times | chrome/browser/resources/sync_internals/about.js:22-23 | the timestamp set holds the time of every listed event, and only those |
| ProtocolEventLog.Receive | chrome/browser/resources/sync_internals/about.js:34-39 | one delivery: a seen time leaves the log as it is; an unseen one is appended at the end and its time added to the seen set; afterwards the time is seen and the log grew by at most one (with the two cases for a consistent log stated in ReceiveCases) |
| ProtocolEventLog.ReceiveKeepsConsistent | chrome/browser/resources/sync_internals/about.js:20-39 | one delivery keeps the invariant: the seen set is exactly the set of logged times, and no two logged events share a time |
| ProtocolEventLog.ReceiveCases | chrome/browser/resources/sync_internals/about.js:34-39 | an event with a seen time changes nothing; one with an unseen time is appended at the end and its time is added to the seen set; afterwards the time is seen and the old entries are a prefix of the log |
| ProtocolEventLog.ReceiveRepeatedlyIsIdempotent | chrome/browser/resources/sync_internals/about.js:29-39 | delivering the same event n >= 1 times has the effect of delivering it once |
| ProtocolEventLog.ReceiveAllProperties | chrome/browser/resources/sync_internals/about.js:20-39 | over any stream of deliveries the invariant holds, the log only grows, existing entries keep their positions, and the seen set gains exactly the delivered times |
| ProtocolEventLog.EventLog.constructor | chrome/browser/resources/sync_internals/about.js:19-23 | the log starts empty with an empty seen set, which satisfies the invariant |
| ProtocolEventLog.EventLog.OnReceivedProtocolEvent | chrome/browser/resources/sync_internals/about.js:29-39 | the invariant is kept; a seen time leaves both variables unchanged; an unseen one is pushed onto the list and recorded as seen |
| StatusDump.IndexOf | chrome/browser/resources/sync_internals/about.js:92 | the result is -1 exactly when the character is absent; otherwise it is a position holding the character with no earlier occurrence |
| StatusDump.ImportStatusText | chrome/browser/resources/sync_internals/about.js:84-97 | empty text gives the paste prompt; text without '{' gives the invalid-dump message; otherwise the text handed on is the suffix starting at the first '{': it begins with '{' and no earlier character is '{' |
| StatusDump.ImportClicked | chrome/browser/resources/sync_internals/about.js:82-106 | the panel is always shown; when there is nothing to parse, the text becomes the message and the listener stays; when there is, the text is kept, the about-info listener is removed, and the trimmed text is returned for parsing |
| StatusDump.DumpText | chrome/browser/resources/sync_internals/about.js:70-75 | the dump text is the date line, a newline, the three header lines, then the JSON text and a newline (the round trip with the import is ImportOfDumpTextRecoversJson) |
| StatusDump.ImportOfDumpTextRecoversJson | chrome/browser/resources/sync_internals/about.js:70-97 | importing the text of a dump hands on exactly the JSON part and its newline, when the date line has no '{' and the JSON text starts with '{' |
| StatusDump.ImportIsIdempotent | chrome/browser/resources/sync_internals/about.js:91-97 | importing already-trimmed text hands on the same text |
| StatusDump.WithoutSensitive | chrome/browser/resources/sync_internals/about.js:66-68 | an entry is kept exactly when it occurs in the details and is not sensitive |
| StatusDump.WithoutSensitiveIsSubsequence | chrome/browser/resources/sync_internals/about.js:66-68 | the kept entries are in their original order |
| StatusDump.WithoutSensitiveCounts | chrome/browser/resources/sync_internals/about.js:66-68 | every non-sensitive entry is kept as many times as it occurs, and no sensitive entry is kept |
| StatusDump.WithoutSensitiveAppend | chrome/browser/resources/sync_internals/about.js:66-68 | filtering a concatenation is the concatenation of the filtered parts |
| StatusDump.WithoutSensitiveIsIdempotent | chrome/browser/resources/sync_internals/about.js:66-68 | filtering twice is the same as filtering once |
| StatusDump.DumpClickedAsWritten | chrome/browser/resources/sync_internals/about.js:64-79 | as written: the dumped info is the stored info; with include-ids unchecked the stored details themselves are replaced by the non-sensitive ones; with include-ids unchecked and no details list the handler throws, nothing is dumped and the stored info is unchanged |
| StatusDump.DumpAsWrittenLosesEntries | chrome/browser/resources/sync_internals/about.js:64-69 | as written: a dump without ids, then a dump with ids, shows an empty details list in the second dump, while a checked dump of the untouched info shows the sensitive entry |
| StatusDump.DumpClicked | chrome/browser/resources/sync_internals/about.js:64-79 | corrected: the stored info is unchanged; with include-ids checked the whole stored info is dumped; unchecked, the dump has exactly the non-sensitive entries in order and the same other fields, or nothing when there is no details list |
| StatusDump.DumpAllLeavesStoredInfo | chrome/browser/resources/sync_internals/about.js:63-79 | corrected: any sequence of dump clicks leaves the stored info as it was |
| StatusDump.DumpsDoNotInterfere | chrome/browser/resources/sync_internals/about.js:63-79 | corrected: a dump after any earlier dumps equals a dump of the untouched stored info, so a dump with ids shows the whole stored info |

## Left out

- Task runners, `PostTask`, thread-safe reference counting and callbacks in the store: every call runs to completion at once and returns its result to the caller. The order in which posted tasks run is not modelled.
- `Attachment::Create`'s id generation and `RefCountedMemory`: `Write` takes the attachment (id and bytes) ready-made, and the model does not show that generated ids are unique.
- The store's `Result` enumeration is only partly visible. Only the two codes the shown code uses, `SUCCESS` and `NOT_FOUND`, are modelled.
- Event timestamps are integers used directly as keys. The page coerces them to object property names, and the model does not show that coercion.
- The page's DOM access (`$`, `jstProcess`, `hidden`, `classList`), listener registration, page load and the expand/collapse listeners of the traffic log.
- `JSON.parse` and `JSON.stringify`: the import returns the text it would parse, and the dump text takes the JSON text as a parameter.
- `new Date()`: the date line of a dump is a parameter.
- `refreshAboutInfo` and `onAboutInfoUpdatedEvent` only store and render what they are given. They are not modelled beyond the stored value being the parameter of the dump functions.
- Character positions in the import: `IndexOf` counts characters, where the page counts UTF-16 code units. The positions differ when characters outside the Basic Multilingual Plane come before the first `{`, but the trimmed suffix, and so every import outcome, is the same.
- `is_sensitive` is a boolean field. A missing field in the page counts as false, and the model has no missing case.
- The session protocol in `remoting/protocol/jingle_session_unittest.cc` is not part of this model: its implementation is not available, only a test of it.

## Findings

| source | as written | input that shows it | evidently intended | confidence | as-written member | corrected member |
|---|---|---|---|---|---|---|
| chrome/browser/resources/sync_internals/about.js:64-69 | `aboutInfo` is the stored `chrome.sync.aboutInfo` object, not a copy, so assigning the filtered details strips the sensitive entries from the stored info | stored details `[Sync Id (sensitive)]`; dump with include-ids unchecked, then dump with include-ids checked before the next about-info update: the second dump has an empty details list | the filter applies only to what is dumped, and the stored info is unchanged | medium, not executed | StatusDump.DumpAsWrittenLosesEntries | StatusDump.DumpsDoNotInterfere |
