# RustMail, modelled and verified in Dafny

RustMail catches mail over SMTP, stores it in SQLite and shows it in a web page and a terminal
client. This project models the parts of it where a mistake would be silent - a byte lost on a
connection, a message acknowledged and not stored, a database overwritten, a list that drifts from
the server - and proves what they are for. `dafny verify dfyconfig.toml` checks everything.

- **SMTP DATA phase** (`Bytes`, `SmtpData`, `SmtpDataLaws`). Bytes arrive in arbitrary reads. Three
  loops over them compute a function of the concatenated bytes alone; the laws give the exact
  acceptance bound, resynchronisation after a refusal, and the round trip with a dot-stuffing sender
  (RFC 5321, section 4.5.2).
- **SMTP command loop** (`SmtpSession`, `SmtpSessionLaws`). What a session does is a function of the
  bytes on its two channels, and no byte of a message is taken for a command. Every message handed
  over has the envelope of its own transaction (RFC 5321, section 4.1.4).
- **Storing and acknowledging** (`Transactions`, `Acknowledgement`). Sessions act between any two
  steps of the one consumer. Splitting a batch is shown optimal; the protocol never says 250 for a
  message that is not stored, never stores one twice, refuses none without cause, and forgets nobody.
- **Storage migration** (`Migration`). A directory of files and the operations on it, each of which a
  crash, an error, a stop request or another program may precede or follow.
- **Terminal client** (`MessageList`, `TuiReplay`, `TuiReplayLaws`, `TuiViews`, `TuiApp`, `TuiPump`).
  A snapshot taken at an unknown point of a recorded window, with the window replayed onto it, against
  the server's own log, on every page and under any search; and the pump that must not lose the
  resync it owes, nor a frame the queue has room for.
- **Web inbox** (`InboxList`, `InboxIndex`, `InboxReplay`, `InboxDeletions`). An index with a moving
  head refines linear search; a first page taken at an unknown point of the recorded events, with
  them replayed over it, shows the server's list; a deletion is counted once whichever of its answer
  and its event comes first.
- **Store and paging** (`Mailbox`, `MailStore`, `Paging`). Four derived tables mirror the messages
  over every run of operations; following cursors is exact, also while the store changes.
- **Fingerprint** (`Fingerprint`) and **base64** (`Base64`). An injective byte stream hashed page by
  page, and a length prediction that agrees with a decoder and an encoder.

`Helpers` holds what several modules share. Objects the source updates in place are classes with the
same fields, and loops are loops. What another task may do is a nondeterministic step with a
contract. How the network, a queue or the database takes each step is an arbitrary function that is
given from the start, so that a step that fails has to say which one of them failed it.

## What the code does not do

Seven properties one would expect are false of the code as it stands. Each is stated with the exact
case.

- Replaying onto a snapshot loses listed arrivals when the recorded window holds `messages:clear`
  before the last listed arrival: the clear empties the list, and the arrivals after it are skipped
  as already listed. `TuiReplayLaws.SnapshotPlusReplay` shows that, where no resync is owed, this is
  the only case and always fails, and `TuiViews.SearchPlusReplay` the same on later pages and under
  any search; `FailsUnnoticed` that on the first page without deletes no resync is ever owed; and
  `ClearLosesArrival` is the input.
- A deletion issued again while it is still tracked can be counted out twice, because issuing
  overwrites the entry that remembers the confirmation. `deleteWithUndo` called twice for one message
  is enough, if the second undo window closes before the first request is answered
  (`InboxDeletions.DoubleDelete`). The exact condition, for each message and at the moment of issuing,
  is that its id is tracked and its count plus the confirmations still to come reaches two:
  `CountsTwice` counts it that often from every such state, and `CountedOnce` holds of every message
  to which that never happened, whatever happened to others. An id that is not tracked may always be
  issued.
- A first page with its recorded events replayed can miss a message and its count: a change that
  takes a message into the view is ignored while the message is not loaded. `InboxReplay.LandsExact`
  holds in every view that filters by neither star, read state nor tag, and `ChangeMissed` gives the
  input for every other view.
- The cursor of the next older page leaves the end of the list when a page ends in a row that is
  loaded already. It takes an arrival announced only after a page that left it out was read.
  `InboxIndex.Inbox.LandOlderPage` states the equivalence, and `LateArrivalMovesCursor` reaches it.
- A flag or tag event applied twice can count twice: if it lets a waiting arrival go that an older
  page loaded as well, the second application changes that copy. `InboxIndex.PatchTwice` states the
  equivalence, and `ReadCountedTwice` is the input.
- A row at the lowest 64-bit rowid is not part of the fingerprint, because the first page starts
  after it. `Fingerprint.PagedIsUnpaged` states the equivalence, and `LowestRowLost` is the input.
- `receive_data` takes a final bare dot without a newline for the terminator, which `drain_data` does
  not; `SmtpDataLaws.UnterminatedBody` gives the outcome of every unterminated stream.

## Model

| member | source | states |
|---|---|---|
| `SmtpData.ByteStream.Consume` | crates/rustmail-smtp/src/session.rs:448-468 | taking bytes off a read removes exactly them from the front of what is unread, wherever the read ends |
| `SmtpData.ReadLine` | crates/rustmail-smtp/src/session.rs:490-515 | a line is refused as too long exactly when the line, as it stands in the concatenated stream, is longer than the budget; otherwise the whole line is taken, and nothing past it |
| `SmtpData.HeadDecidesTerminator` | crates/rustmail-smtp/src/session.rs:448-468 | the three bytes kept of a line recognise exactly the lines that end the DATA phase |
| `SmtpData.DrainTakes` | crates/rustmail-smtp/src/session.rs:448-468 | one read of the drain, however it cuts lines, advances the drain of the concatenated stream |
| `SmtpData.DrainData` | crates/rustmail-smtp/src/session.rs:448-468 | the drain leaves unread exactly what follows the first terminator line after the current one, and fails exactly when there is none |
| `SmtpData.DrainFromMidLine` | crates/rustmail-smtp/src/session.rs:367-393 | draining from the middle of a line that was cut by the size check comes to draining from the line after it |
| `SmtpData.ReceiveData` | crates/rustmail-smtp/src/session.rs:367-408 | the reply and the bytes left unread are a function of the concatenated stream alone, whatever the split into reads |
| `SmtpDataLaws.DrainSkipsBody` | crates/rustmail-smtp/src/session.rs:448-468 | a drain skips any number of body lines |
| `SmtpDataLaws.ReceiveBody` | crates/rustmail-smtp/src/session.rs:367-408 | body lines that fit are unstuffed and collected in order, and nothing past them is touched |
| `SmtpDataLaws.RefuseBody` | crates/rustmail-smtp/src/session.rs:371-393 | body lines that do not fit are refused on one of two routes, and both resynchronise at the same place |
| `SmtpDataLaws.TerminatedBody` | crates/rustmail-smtp/src/session.rs:371-401 | exact acceptance bound: a terminated body is accepted if and only if its size, plus one when its last line arrived dot-stuffed, is within the limit; accepted or refused, exactly what follows the terminator is left unread |
| `SmtpDataLaws.UnterminatedBody` | crates/rustmail-smtp/src/session.rs:367-408 | a stream that ends before a terminator is never answered with a refusal: it is a disconnect or a dropped connection, and a final bare dot without a newline counts as the terminator |
| `SmtpDataLaws.EveryStream` | crates/rustmail-smtp/src/session.rs:367-408 | every stream is body lines followed by a terminator and the rest, or by an unfinished end, so the two bounds cover all inputs |
| `SmtpDataLaws.ReceivedFits` | crates/rustmail-smtp/src/session.rs:371-401 | no accepted message is larger than the limit, for any stream |
| `SmtpDataLaws.SplitJoins` | scripts/bench/bench.py:112-118 | cutting a message at every CRLF and joining the pieces gives it back |
| `SmtpDataLaws.WireOf` | scripts/bench/bench.py:112-118 | what the sender transmits are body lines, and unstuffed they carry the message ended by a CRLF |
| `SmtpDataLaws.RoundTrip` | crates/rustmail-smtp/src/session.rs:367-408 | a message in which every LF follows a CR, transmitted by the dot-stuffing sender and within the exact bound, is received byte for byte, with a CRLF added if it lacked one, and what follows stays unread |
| `SmtpDataLaws.SplitsAgree` | crates/rustmail-smtp/src/session.rs:367-408 | two connections that carry the same bytes in different reads get the same reply and are left at the same byte |
| `SmtpSession.Session.Count` | crates/rustmail-smtp/src/session.rs:165-169 | a command is counted only while fewer than 1000 were handled since the last message, and only after the one before was answered |
| `SmtpSession.Session.EndTransaction` | crates/rustmail-smtp/src/session.rs:273-281 | a greeting, a reset, a completed message or an upgrade to TLS forgets sender and recipients, and an upgrade forgets the greeting too |
| `SmtpSession.Session.HandleMailFrom` | crates/rustmail-smtp/src/session.rs:193-202 | a sender is accepted exactly after a greeting and without a refused size, and it starts with no recipients |
| `SmtpSession.Session.HandleRcptTo` | crates/rustmail-smtp/src/session.rs:203-211 | a recipient is accepted exactly with a sender open and fewer than 100 recipients before it |
| `SmtpSession.Session.Deliver` | crates/rustmail-smtp/src/session.rs:416-421 | a message received is offered to the queue once, with the open envelope and the bytes received, and is handed over exactly if the queue is still open; a queue that closed stays closed |
| `SmtpSession.Session.HandleData` | crates/rustmail-smtp/src/session.rs:212-231 | the DATA phase leaves history, state, count and stream as the concatenated bytes say: a message accepted closes the transaction and restarts the count, one refused for its size leaves both as they were, an end of stream inside a drain ends the session; a fault only cuts this short |
| `SmtpSession.Session.Dispatch` | crates/rustmail-smtp/src/session.rs:177-256 | after each command the session is where the bytes on both channels say it must be; it was cut short on the way there exactly if the network failed, and upgrades to TLS at most once |
| `SmtpSession.Session.Handle` | crates/rustmail-smtp/src/session.rs:151-258 | the loop ends, and all it does is what a function of the concatenated bytes of both channels gives, or a prefix of it exactly if a read, a reply or a handshake failed |
| `SmtpSession.Session.SkipBehind` | crates/rustmail-smtp/src/session.rs:331-361 | what is read behind a command other than DATA is what the function of the bytes says, wherever the reads end; TalkAuthPlain, TalkAuthLogin, TalkQuit and TalkIdle say how much that is |
| `SmtpSessionLaws.TalkHello` | crates/rustmail-smtp/src/session.rs:177-181 | in every state a greeting is answered, starts afresh, and the very next line is the next command |
| `SmtpSessionLaws.TalkReset` | crates/rustmail-smtp/src/session.rs:240-242 | in every state a reset forgets the envelope and nothing else, and the very next line is the next command |
| `SmtpSessionLaws.TalkIdle` | crates/rustmail-smtp/src/session.rs:182-255 | a command out of sequence, refused, idle or unknown changes nothing, and the very next line is the next command |
| `SmtpSessionLaws.TalkAuthPlain` | crates/rustmail-smtp/src/session.rs:331-346 | in every state AUTH PLAIN without credentials takes exactly one line more, which may be the last words of the peer; one that is too long ends the session |
| `SmtpSessionLaws.TalkAuthLogin` | crates/rustmail-smtp/src/session.rs:348-361 | in every state AUTH LOGIN takes exactly two lines more |
| `SmtpSessionLaws.TalkQuit` | crates/rustmail-smtp/src/session.rs:237-239 | in every state QUIT ends the session, whatever is behind it |
| `SmtpSessionLaws.TalkStartTls` | crates/rustmail-smtp/src/session.rs:182-192 | an accepted upgrade goes on with what the secured channel brings, ungreeted and with no transaction |
| `SmtpSessionLaws.TalkMailFrom` | crates/rustmail-smtp/src/session.rs:193-202 | after a greeting a sender takes the place of an earlier one and of its recipients |
| `SmtpSessionLaws.TalkRcptTo` | crates/rustmail-smtp/src/session.rs:203-211 | with a sender open and room for it, a recipient joins those before it |
| `SmtpSessionLaws.TalkData` | crates/rustmail-smtp/src/session.rs:212-236 | in an open transaction, each way the DATA phase can end: a message received is offered with the open envelope and closes the transaction, a disconnect closes it, a refusal for size leaves it open, and an end of stream inside a drain ends the session |
| `SmtpSessionLaws.TalkEnds` | crates/rustmail-smtp/src/session.rs:156-168 | the session is over at the end of the stream, at a line over 4096 bytes, and after 1000 commands without a message |
| `SmtpSessionLaws.TalkMail` | crates/rustmail-smtp/src/session.rs:193-237 | in any greeted state a transaction sent in one go is answered command by command, its message is handed over byte for byte if it fits, and the next command read is what follows its terminator |
| `SmtpSessionLaws.PipelinedMail` | crates/rustmail-smtp/src/session.rs:177-237 | the same behind a greeting, in any state and on either channel |
| `SmtpSessionLaws.TalkRecipients` | crates/rustmail-smtp/src/session.rs:203-211 | any number of recipient lines up to the limit adds exactly their addresses |
| `SmtpSessionLaws.HandsOver` | crates/rustmail-smtp/src/session.rs:151-258 | however the bytes arrive, the messages handed over are a prefix of those the bytes hold, and if the network never fails they are all of them up to where the queue closed |
| `SmtpSession.StaysOpen` | crates/rustmail-smtp/src/session.rs:203-211 | an open transaction stays the same one while recipients are added |
| `SmtpSession.Session.EnvelopeIntegrity` | crates/rustmail-smtp/src/session.rs:177-237 | every message handed over carries the sender of the last accepted MAIL FROM and exactly the 1 to 100 recipients accepted since, with no EHLO, HELO, RSET, upgrade or completed message between, after a greeting on the channel in use |
| `SmtpSession.Session.TalkIsBounded` | crates/rustmail-smtp/src/session.rs:165-223 | no stretch without a completed message handles more than 1000 commands |
| `Transactions.PlaceStaysAhead` | crates/rustmail-server/src/main.rs:521-538 | adding the next message to the last group if it fits, and opening a group if not, keeps the split ahead of every other |
| `Transactions.DropLast` | crates/rustmail-server/src/main.rs:521-538 | any split of a longer batch contains a split of the shorter one, with one group fewer or a shorter last group |
| `Transactions.Split` | crates/rustmail-server/src/main.rs:521-538 | the groups concatenate to the batch in arrival order, none is empty or over the cap unless it is a single message, and no such split has fewer groups |
| `Acknowledgement.Mailroom.HandOver` | crates/rustmail-smtp/src/session.rs:416-421 | a hand-off to a closed queue is answered with a retry and changes nothing else; to an open one it goes to the end of the queue, and its session waits |
| `Acknowledgement.Mailroom.ReadVerdict` | crates/rustmail-smtp/src/session.rs:423-431 | a waiting session replies once its verdict is there: 250 for stored, a retry for rejected |
| `Acknowledgement.Mailroom.GiveUp` | crates/rustmail-smtp/src/session.rs:429-437 | a session that gives up asks its sender to retry and waits no longer, whatever becomes of the message |
| `Acknowledgement.Mailroom.AckStored` | crates/rustmail-smtp/src/message.rs:70-73 | a stored verdict is sent once, and only for a committed message |
| `Acknowledgement.Mailroom.AckRejected` | crates/rustmail-smtp/src/message.rs:75-78 | a rejected verdict is sent once, and only for a message that is not and will not be stored |
| `Acknowledgement.Mailroom.PutDown` | crates/rustmail-server/src/main.rs:606-610 | a delivery nobody waits for is dropped unstored, and nothing else is disturbed |
| `Acknowledgement.Mailroom.InsertBatch` | crates/rustmail-server/src/main.rs:626-637 | a transaction ends as the store answers: it commits the whole group in hand-over order or nothing, and starts only when everything stored before it has been announced |
| `Acknowledgement.Mailroom.AckAll` | crates/rustmail-server/src/main.rs:627-628 | every message of a committed group gets its one verdict, with sessions acting in between |
| `Acknowledgement.Mailroom.AnnounceAll` | crates/rustmail-server/src/main.rs:629-630 | announcements catch up with the commits, in commit order, after the verdicts |
| `Acknowledgement.Mailroom.StoreNext` | crates/rustmail-server/src/main.rs:659-690 | a message has its own transaction exactly if its session still waits when its turn comes and the time is not up; it is put down if its session gave up, and the verdict says how its transaction ended |
| `Acknowledgement.Mailroom.StoreOneByOne` | crates/rustmail-server/src/main.rs:651-693 | the messages that had their turn are stored, refused alone or abandoned, each as its own transaction ended, and no transaction begins once the time is up; the rest are all refused untried, exactly when the time was up or the last transaction failed for the store as a whole, and no transaction follows such a failure |
| `Acknowledgement.Mailroom.RejectRest` | crates/rustmail-server/src/main.rs:695-698 | every delivery left gets a rejected verdict, and none is stored |
| `Acknowledgement.Mailroom.Prepare` | crates/rustmail-server/src/main.rs:604-621 | what is kept of a group is kept in order, can be parsed and had its session waiting at the start; every other delivery was refused because it cannot be parsed, or dropped without a verdict because its session gave up |
| `Acknowledgement.Mailroom.StoreGroup` | crates/rustmail-server/src/main.rs:598-642 | a delivery ends stored exactly with a stored verdict, can be parsed and had its session waiting; it ends refused only if it cannot be parsed or a transaction that held it failed, and else its session gave up; the group has one transaction, followed by one for each message only if it was refused for one of several |
| `Acknowledgement.Mailroom.StoreAndAnnounce` | crates/rustmail-server/src/main.rs:585-596 | the same for every delivery of a batch: stored, refused for cause or given up; the groups are stored in order, each announced before the next, and the stored messages are returned in commit order |
| `Acknowledgement.Mailroom.NothingRefused` | crates/rustmail-server/src/main.rs:585-642 | with a store that takes every transaction, every session that still waits with a message that can be parsed is told that it is stored |
| `Acknowledgement.Mailroom.NextBatch` | crates/rustmail-server/src/main.rs:482-497 | the batch is the front of the queue, all of it up to 32 deliveries, also of a closed one |
| `Acknowledgement.Mailroom.Consume` | crates/rustmail-server/src/main.rs:585-698 | any number of batches, interleaved with sessions at every step, keeps the protocol safe |
| `Acknowledgement.Mailroom.WhatIsPromised` | crates/rustmail-smtp/src/session.rs:410-438 | between any two steps: a message is stored at most once, 250 is said only of a stored one, a rejected one is not stored, announcements follow commit and hand-over order, and each announced message was answered first |
| `Acknowledgement.Mailroom.NobodyForgotten` | crates/rustmail-server/src/main.rs:598-693 | with the queue drained every session that still waits has a verdict, and it says what happened |
| `Migration.SetAsideRecovers` | crates/rustmail-storage/src/migrate.rs:1000-1024 | a crash between the two renames is recoverable |
| `Migration.InstallRecovers` | crates/rustmail-storage/src/migrate.rs:573-606 | installing a complete own copy completes the migration |
| `Migration.Folder.WriteCopy` | crates/rustmail-storage/src/migrate/build.rs:250-277 | a write to the copy is all or nothing, and a crash before or after it leaves a safe directory |
| `Migration.Folder.RenameDbToBackup` | crates/rustmail-storage/src/migrate.rs:1013-1013 | the first rename replaces no file, whether or not a crash follows |
| `Migration.Folder.RenameCopyToDb` | crates/rustmail-storage/src/migrate.rs:1014-1014 | the second rename replaces no file and installs only a complete copy whose origin matches the backup beside it |
| `Migration.Folder.Swap` | crates/rustmail-storage/src/migrate.rs:1000-1024 | a swap moves the database to its backup and the copy into its place, or refuses without a change when a backup is there; a crash inside is recoverable |
| `Migration.Folder.FinishInterruptedSwap` | crates/rustmail-storage/src/migrate.rs:573-606 | the second rename is finished only for the copy made from the backup found, and always succeeds on what a crash of a lone migration leaves |
| `Migration.Folder.CopyRows` | crates/rustmail-storage/src/migrate/build.rs:250-317 | committed batches extend the copy with the next messages of the source, up to the last one |
| `Migration.Folder.Build` | crates/rustmail-storage/src/migrate.rs:911-955 | a copy counts as built only with as many messages and as many bytes as its source; begun from scratch, or resumed from one that holds what it claims, it holds exactly the messages of the source |
| `Migration.VerifiedNotices` | crates/rustmail-storage/src/migrate/build.rs:556-582 | the final check passes a faithful copy, and fails one with rows lost or added, or with one row of another size |
| `Migration.Folder.QualifyOrigin` | crates/rustmail-storage/src/migrate/build.rs:86-98 | qualifying a bare fingerprint keeps the copy one made from the same source |
| `Migration.Folder.FirstStart` | crates/rustmail-storage/src/migrate.rs:829-842 | a run starts afresh exactly if the copy found was not made from the database as it is by this version; a copy that is carried on keeps its file and what it holds |
| `Migration.Folder.BuildOnce` | crates/rustmail-storage/src/migrate.rs:858-883 | a resumed build only adds to what the copy holds, and a finished copy is not built again |
| `Migration.Folder.BuildLocked` | crates/rustmail-storage/src/migrate.rs:821-907 | what the locked phase hands to the swap is a complete copy of the database beside it, resumed, rebuilt or found; it refuses only a source that changed before the recheck and of which it then holds no copy |
| `Migration.Folder.MigrationRun` | crates/rustmail-storage/src/migrate.rs:773-819 | a run keeps the directory safe and recoverable at every end, and a run that succeeds ends migrated |
| `Migration.Folder.PrepareWith` | crates/rustmail-storage/src/migrate.rs:218-289 | in every directory a safe run can meet, preparing keeps the older database intact at exactly one place and every rename harmless; from a recoverable one it never refuses, and it terminates |
| `Migration.InstalledRows` | crates/rustmail-storage/src/migrate.rs:571-606 | whatever another program writes between a build and its recheck, every database installed holds, as far as fingerprints tell, the messages of a backup beside it, as long as a copy found at the start holds what it claims and no two lists of messages that occur share a fingerprint |
| `Migration.RecoverableStates` | crates/rustmail-storage/src/migrate.rs:218-289 | the states a crash or pause can leave are exactly ones the next start knows how to resolve |
| `Migration.SurvivesCrashes` | crates/rustmail-storage/src/migrate.rs:218-289 | any number of starts that fail, crash or stop anywhere, then one that runs to its end, leave the database current with the same messages, the original as its backup, and no copy |
| `TuiReplay.NeverBack` | crates/rustmail-tui/src/app.rs:1131-1176 | a message deleted once is never listed again |
| `TuiReplay.GoneByDelete` | crates/rustmail-tui/src/app.rs:1149-1176 | a message listed at the start and not at the end was deleted or cleared in between |
| `TuiReplay.RunAhead` | crates/rustmail-tui/src/app.rs:1131-1142 | only messages that arrive later are ever listed ahead of a given one |
| `TuiReplay.LastWriteWins` | crates/rustmail-tui/src/app.rs:1096-1115 | applying a run of flag and tag updates again, in order, changes nothing |
| `TuiReplay.RunSettles` | crates/rustmail-tui/src/app.rs:1131-1176 | rows already read with updates applied stay settled under those updates whatever is committed after |
| `TuiReplayLaws.ArrivalInSnapshot` | crates/rustmail-tui/src/app.rs:1131-1142 | every arrival the snapshot holds, on its page or past it, comes no later than the last listed one |
| `TuiReplayLaws.ConvergesUncleared` | crates/rustmail-tui/src/app.rs:1131-1176 | with no clear before the snapshot, replaying the window onto a page taken anywhere in it ends exact or owing a resync |
| `TuiReplayLaws.ConvergesAfterClear` | crates/rustmail-tui/src/app.rs:1131-1176 | with a clear committed after the snapshot, replay ends exact or owing a resync |
| `TuiReplayLaws.ReplayMissing` | crates/rustmail-tui/src/app.rs:1149-1176 | rows lost to an early clear stay lost: the view ends short or owing a resync |
| `TuiReplayLaws.ClearedBefore` | crates/rustmail-tui/src/app.rs:1131-1176 | with the last clear already in the snapshot, the view ends wrong or owing a resync if anything was stored since the clear, and exact or owing one if not |
| `TuiReplayLaws.FailsUnnoticed` | crates/rustmail-tui/src/app.rs:1131-1176 | a window without deletes never ends owing a resync, so each one that has a clear before the last listed arrival ends wrong unnoticed |
| `TuiReplayLaws.ClearLosesArrival` | crates/rustmail-tui/src/app.rs:1149-1176 | the input that shows replay failing: a clear, then one arrival, both in the snapshot; the arrival is lost and no resync is owed |
| `TuiReplayLaws.SnapshotPlusReplay` | crates/rustmail-tui/src/app.rs:1131-1176 | for every window and every snapshot point the view ends owing a resync, or it is the newest rows of the mailbox with current flags and the right count if and only if no recorded clear precedes the last listed arrival |
| `TuiReplayLaws.WhatOwes` | crates/rustmail-tui/src/app.rs:1149-1176 | replaying an event comes to owe a resync exactly by a delete of a message that is not listed, or an arrival on any page but the unsearched first |
| `TuiViews.ShowsStep` | crates/rustmail-tui/src/app.rs:1149-1176 | under a search or on a later page, an event leaves the view showing the matching rows from its offset on and their number, or owing a resync |
| `TuiViews.TurnsToPage` | crates/rustmail-tui/src/app.rs:1131-1176 | replaying what the snapshot already holds leaves its page and its count, or a resync owed |
| `TuiViews.ClearedEmpty` | crates/rustmail-tui/src/app.rs:1131-1176 | with the last clear already in the snapshot, replay empties the view or owes a resync, which is right exactly if the page was empty |
| `TuiViews.SearchPlusReplay` | crates/rustmail-tui/src/app.rs:1131-1176 | for every search, page, window and snapshot point the view ends owing a resync, or it shows the matching rows from its offset on with current flags and counts all that match, if and only if no recorded clear precedes the last listed arrival |
| `TuiViews.CountsStep` | crates/rustmail-tui/src/app.rs:1062-1094 | without a search an event anywhere leaves a later page a stretch of the mailbox in order, and the count its size |
| `MessageList.EachEventSets` | crates/rustmail-tui/src/app.rs:1096-1115 | each flag or tag event sets the one field it is about |
| `MessageList.OnlyNamed` | crates/rustmail-tui/src/app.rs:1096-1115 | an event changes the row it names and no other |
| `TuiApp.LiveStaysExact` | crates/rustmail-tui/src/app.rs:1048-1115 | a live event keeps an exact first page exact |
| `TuiApp.LandedInWindow` | crates/rustmail-tui/src/app.rs:770-803 | a page that lands within the recorded window and owes no resync shows the mailbox as of the last frame if and only if no recorded clear precedes the last arrival it lists |
| `TuiApp.App.FetchMessages` | crates/rustmail-tui/src/app.rs:745-768 | a fetch starts a new window and supersedes the one before |
| `TuiApp.App.RefetchIfStale` | crates/rustmail-tui/src/app.rs:636-643 | a stale view is read again, at most once per throttle |
| `TuiApp.App.HandleWsOverflow` | crates/rustmail-tui/src/app.rs:342-347 | lost frames are owed from then on, and no fetch already started can make up for them |
| `TuiApp.App.HandleWsMessage` | crates/rustmail-tui/src/app.rs:1048-1094 | under any search and on any page, every frame keeps the screen right or the view stale, and is remembered while a fetch is in flight |
| `TuiApp.LiveStaysCorrect` | crates/rustmail-tui/src/app.rs:1048-1115 | a view that shows the matching rows from its offset on and their number, or without a search the newest rows or a stretch of the mailbox and the number of all, is such a view of the mailbox after any committed event, or owes a resync |
| `TuiApp.LiveOwes` | crates/rustmail-tui/src/app.rs:1058-1081 | a resync comes to be owed exactly by a message that is not listed and comes or goes under a search |
| `TuiApp.LiveFillsPage` | crates/rustmail-tui/src/app.rs:1062-1094 | a full first page stays full under every event but a delete, which takes its row and no other |
| `MessageList.PageIsFull` | crates/rustmail-tui/src/app.rs:1062-1070 | a page holds the first rows, as many as there are up to its size |
| `TuiApp.App.ReplayDeltas` | crates/rustmail-tui/src/app.rs:1131-1142 | the loop over recorded deltas computes the replay of them |
| `TuiApp.App.HandleMessagesFetched` | crates/rustmail-tui/src/app.rs:770-803 | only the latest fetch lands, whatever was recorded meanwhile; afterwards, under any search and on any page, the view is stale, or it is right if and only if no recorded clear precedes the last arrival the fetched page lists |
| `TuiPump.ForwardFrame` | crates/rustmail-tui/src/app.rs:1276-1286 | a frame read with no debt is queued if there is room, and else dropped and its overflow tried at once; one read under a debt is dropped untried |
| `TuiPump.PumpFrames` | crates/rustmail-tui/src/app.rs:1259-1292 | frames reach the queue in order, every run of dropped ones is made up for by an overflow before the next frame delivered, no overflow is queued without a drop, and only a closed queue leaves a debt; a queue that always has room and stays open gets exactly the frames |
| `TuiPump.WhyDropped` | crates/rustmail-tui/src/app.rs:1276-1286 | a frame is dropped only if the queue refused it, or refused one before it since when none was delivered, and the same overflow stands for both |
| `TuiPump.NothingLost` | crates/rustmail-tui/src/app.rs:1259-1292 | if no frame was refused the queue holds exactly the frames, in order, and no overflow |
| `TuiPump.ResyncBetween` | crates/rustmail-tui/src/app.rs:1259-1292 | between two frames delivered across a dropped one there is an overflow in the queue |
| `TuiPump.EveryDropPaid` | crates/rustmail-tui/src/app.rs:1259-1292 | once no debt is left, every dropped frame is followed by an overflow |
| `InboxIndex.LookupIsSearch` | ui/src/stores/messages.ts:93-103 | looking an id up by position finds what a linear search finds |
| `InboxIndex.IndexConcat` | ui/src/stores/messages.ts:189-195 | positions below a prepend need no change to stay right |
| `InboxIndex.IndexWithout` | ui/src/stores/messages.ts:203-212 | moving up the rows below a removed one restores the index |
| `InboxIndex.Inbox.IndexOfRow` | ui/src/stores/messages.ts:93-96 | the index of a row is the index linear search finds, or -1 |
| `InboxIndex.Inbox.FindMessage` | ui/src/stores/messages.ts:98-103 | finds the loaded row with an id exactly when there is one |
| `InboxIndex.Inbox.SetRows` | ui/src/stores/messages.ts:178-187 | indexes a whole list |
| `InboxIndex.Inbox.PrependRows` | ui/src/stores/messages.ts:189-195 | rows put on top are found, and so is every row below |
| `InboxIndex.Inbox.AppendRows` | ui/src/stores/messages.ts:197-201 | rows put below are found, and so is every row above |
| `InboxIndex.Inbox.RemoveRow` | ui/src/stores/messages.ts:203-212 | the list without a row, indexed |
| `InboxIndex.Inbox.TrimRows` | ui/src/stores/messages.ts:221-248 | keeps the newest rows up to the cap, or down through the row that can be undone, moves the cursor to the last kept, and keeps counting out exactly the hidden messages it counted out before |
| `InboxIndex.Inbox.ReplaceRow` | ui/src/stores/messages.ts:250-254 | a changed row stays where it was |
| `InboxIndex.Inbox.ForgetMessage` | ui/src/stores/messages.ts:588-598 | the message is neither loaded nor waiting nor hidden any more, and a cursor at the end of the list stays there |
| `InboxIndex.Inbox.LandTopPage` | ui/src/stores/messages.ts:841-858 | a first page replaces the list, the cursor, the total and what waited |
| `InboxIndex.Inbox.LandOlderPage` | ui/src/stores/messages.ts:1037-1076 | an older page joins below without what is loaded already, in order if the list and the page are; the cursor stays at the last loaded row if and only if the last row of the page was not loaded already |
| `InboxIndex.Inbox.Clear` | ui/src/stores/messages.ts:1285-1294 | a cleared inbox holds nothing, loaded, waiting or hidden |
| `InboxIndex.Inbox.HoldArrivals` | ui/src/stores/messages.ts:128-139 | arrivals wait in order up to the cap, and past it only their number is kept |
| `InboxIndex.Inbox.FreshArrivals` | ui/src/stores/messages.ts:1150-1158 | one pass from the newest arrival down computes the fresh ones |
| `InboxIndex.Inbox.AdmitArrivals` | ui/src/stores/messages.ts:1144-1170 | a run of any arrivals adds exactly the unknown and wanted ones, on top or to what waits, and counts them; index and cursor stay right, and a list in order stays in order if they came in commit order and none is older than what it holds |
| `InboxIndex.Inbox.SetLiveHeld` | ui/src/stores/messages.ts:147-171 | back at the top what waited and is not loaded is shown in order, or a read is asked for exactly when memory cannot show it |
| `InboxIndex.Inbox.PatchMessage` | ui/src/stores/messages.ts:1184-1210 | a waiting message is changed or let go, else a loaded one is changed in place, and the total follows what the filters show |
| `InboxIndex.PatchTwice` | ui/src/stores/messages.ts:1180-1183 | applying an event over a list that reflects it changes and counts nothing if and only if it did not let a waiting message go that is loaded as well and would change there |
| `InboxIndex.PatchKeepsBalance` | ui/src/stores/messages.ts:1184-1210 | an event moves the total by as much as the number of listed messages that pass the filters, and the number waiting by as much as their rows, and changes no row it does not name |
| `InboxIndex.PatchTakesEffect` | ui/src/stores/messages.ts:1184-1210 | a message the list holds, waiting or else loaded, is changed there, or let go if it waits and no longer passes |
| `InboxIndex.EachPatchSets` | ui/src/stores/messages.ts:1184-1210 | each event sets the one field it is about |
| `InboxList.EachFilterAsks` | ui/src/stores/messages.ts:315-326 | no filter leaves nothing out, and each filter asks for exactly one thing more of a message; of several tags any will do |
| `InboxList.NarrowsIff` | ui/src/stores/messages.ts:306-308 | filters narrow a list exactly if there is a message they leave out |
| `InboxIndex.ReadCountedTwice` | ui/src/stores/messages.ts:1184-1210 | the input that shows an event counted twice: one unread message both waiting and loaded |
| `InboxIndex.LateArrivalMovesCursor` | ui/src/stores/messages.ts:1037-1076 | from every list with a cursor and the reader at the top, an arrival announced late and met again at the end of a full older page leaves the cursor away from the last loaded row |
| `InboxIndex.LateArrivalTwice` | ui/src/stores/messages.ts:1037-1076 | from every list with a cursor whose waiting arrivals have not overflowed, such an arrival, met anywhere on an older page, ends both waiting and loaded |
| `InboxList.FreshDescends` | ui/src/stores/messages.ts:1144-1170 | arrivals in commit order, none older than what is loaded, are shown newest first and above it |
| `InboxList.FreshMissesNone` | ui/src/stores/messages.ts:1150-1158 | an unknown arrival is shown if and only if its latest copy passes the filters |
| `InboxList.AdmitInSteps` | ui/src/stores/messages.ts:1235-1246 | a run of arrivals admitted at once shows, trims, holds and counts what admitting its parts in turn does, if the parts share no message, the newer part does not bring the undoable one, and what it brings is as much known before the older part as after |
| `InboxList.TrimBounds` | ui/src/stores/messages.ts:221-248 | a trim leaves at most the cap, or down through the undoable row, keeps that row where it was, and ends at the cursor |
| `InboxReplay.Settled` | ui/src/stores/messages.ts:1228-1234 | applying the recorded changes again to the rows they led to changes nothing |
| `InboxReplay.LaterRecorded` | ui/src/stores/messages.ts:1252-1256 | arrivals are recorded in the order they commit: one newer than a recorded arrival is recorded behind it |
| `InboxReplay.UnaccountedStale` | ui/src/stores/messages.ts:1262-1267 | the last listed arrival was recorded before the snapshot, and those recorded between the two are filtered out |
| `InboxReplay.Follows` | ui/src/stores/messages.ts:1235-1246 | a list that is exact stays exact under the events that follow, each run of arrivals admitted at once |
| `InboxReplay.LandsExact` | ui/src/stores/messages.ts:1249-1268 | wherever among the recorded events the server took the first page, replaying them over it leaves the newest messages of the view with current flags, down to the cursor or all of them, and the count of all - in every view that filters by neither star, read state nor tag |
| `InboxReplay.ChangeMissed` | ui/src/stores/messages.ts:1194-1210 | for every other view, the input on which it does not: a stored message outside the view that a change takes into it is neither shown nor counted |
| `InboxReplay.ApplyEvents` | ui/src/stores/messages.ts:1235-1246 | the loop over events, gathering runs of arrivals, computes the application of them |
| `InboxReplay.FindLastInRead` | ui/src/stores/messages.ts:1262-1264 | the search from the end finds the last recorded arrival among the rows read |
| `InboxReplay.KeepEvents` | ui/src/stores/messages.ts:1265-1267 | the filter leaves out exactly the arrivals up to that one |
| `InboxReplay.LandFirstPage` | ui/src/stores/messages.ts:953-984 | a first page that lands with the reader at the top is shown with the recorded events replayed, and is exact in every such view |
| `InboxDeletions.Inbox.DeleteWithUndo` | ui/src/stores/messages.ts:705-710 | hiding a message counts nothing and issues the deletion that was waiting |
| `InboxDeletions.Inbox.CommitDelete` | ui/src/stores/messages.ts:723-729 | an issued deletion is stamped with the count and clear it was issued against |
| `InboxDeletions.Inbox.ReconcileDeletion` | ui/src/stores/messages.ts:647-685 | the first confirmation counts a message out exactly if no clear and no newer count lies between and the row or the view says that the total counts it; the second one never counts; an uncertain one asks for a read |
| `InboxDeletions.Inbox.DeleteEvent` | ui/src/stores/messages.ts:1281-1284 | the live event cancels the undo offer and is one confirmation |
| `InboxDeletions.Inbox.Answer` | ui/src/stores/messages.ts:730-741 | a success is one confirmation; a failure ends the tracking and counts nothing |
| `InboxDeletions.Inbox.ClearEvent` | ui/src/stores/messages.ts:772-780 | a clear sets the count to nothing and leaves every deletion issued before it behind |
| `InboxDeletions.Inbox.CountLands` | ui/src/stores/messages.ts:607-624 | a read of the count is applied exactly if it is the latest with nothing confirmed, counted or cleared since it began, and otherwise changes nothing |
| `InboxDeletions.Inbox.ListLands` | ui/src/stores/messages.ts:953-984 | a list read settles the count only if no deletion was confirmed since it began |
| `InboxDeletions.EventConfirms` | ui/src/stores/messages.ts:658-685 | an event still under way finds a deletion that may yet be counted once at most |
| `InboxDeletions.AnswerConfirms` | ui/src/stores/messages.ts:730-732 | a success still under way finds a deletion that may yet be counted once at most |
| `InboxDeletions.Inbox.CountedOnce` | ui/src/stores/messages.ts:658-741 | over every interleaving - with requests that fail at the server, answers lost, other clients, clears and lost events - a message is counted out at most once, and never while the server holds it, unless that very message was issued again while tracked with two counts still possible |
| `InboxDeletions.Inbox.CountedAgainstItsCount` | ui/src/stores/messages.ts:658-685 | a tracked deletion is counted out only with no newer count and no clear since it was issued |
| `InboxDeletions.RefusalKeepsOnce` | ui/src/stores/messages.ts:733-739 | a request that fails with the message still stored leaves every message counted once at most that was so before |
| `InboxDeletions.CountsTwice` | ui/src/stores/messages.ts:705-741 | from every state in which a tracked deletion has its count plus the confirmations still to come at two or more, issuing it again can end with it counted out that often |
| `InboxDeletions.DoubleDelete` | ui/src/stores/messages.ts:705-741 | the input that shows a deletion counted twice: deleteWithUndo called twice for one message, then the answers and the event |
| `Mailbox.DeleteKeyed` | crates/rustmail-storage/src/schema.rs:89-92 | deleting rows by key keeps index and content exactly on the messages left |
| `Mailbox.DeleteTagged` | crates/rustmail-storage/src/schema.rs:195-201 | the cascade keeps the tag table exact |
| `Mailbox.UpdateTagged` | crates/rustmail-storage/src/schema.rs:212-220 | rewriting the tag rows of an updated message keeps the tag table exact |
| `Mailbox.InsertKeyed` | crates/rustmail-storage/src/repo.rs:837-890 | a new key is in no table, so nothing left of an older message can be taken for the new one |
| `Mailbox.DeletionEvolves` | crates/rustmail-storage/src/repo.rs:422-445 | deleting around a message moves nothing below it |
| `MailStore.Store.DeletionMirrors` | crates/rustmail-storage/src/schema.rs:173-201 | taking along what belongs to the messages deleted leaves every derived table exactly that of the messages left |
| `MailStore.Store.InsertMessage` | crates/rustmail-storage/src/schema.rs:203-210 | an inserted row has its tags filed, also when the trigger is skipped for having none |
| `MailStore.Store.Delete` | crates/rustmail-storage/src/repo.rs:422-445 | exactly one message goes, with all that belongs to it, or it was not stored; every table still mirrors the messages |
| `MailStore.Store.DeleteOlderThan` | crates/rustmail-storage/src/repo.rs:703-731 | exactly the messages before the cutoff go, and their ids are returned |
| `MailStore.Store.TrimToMax` | crates/rustmail-storage/src/repo.rs:746-777 | exactly the newest messages up to the maximum stay, and the ids of the others are returned, even if the count read beforehand is outdated |
| `MailStore.Store.DeleteAll` | crates/rustmail-storage/src/repo.rs:484-512 | every table is empty and the number of messages is returned |
| `MailStore.Store.UpdateMessage` | crates/rustmail-storage/src/repo.rs:389-415 | of the message named, each field given takes the given value, each absent one keeps its own, and no other column or message changes; a message that is not stored is reported |
| `MailStore.LaterUpdateWins` | crates/rustmail-storage/src/repo.rs:389-415 | of two updates in turn a field keeps what the later gave, or else what the earlier gave, or else what it was |
| `MailStore.Store.InsertAllIn` | crates/rustmail-storage/src/repo.rs:794-810 | a batch joins behind everything stored, in order, with content and attachments, and the index rows added last complete the mirror; it stops only at a statement that fails, or an id already in use |
| `MailStore.Store.InsertBatchOnce` | crates/rustmail-storage/src/repo.rs:202-211 | all of a batch or none of it, and none only because its last statement met a lock or an error, or minted an id in use |
| `MailStore.Store.InsertBatch` | crates/rustmail-storage/src/repo.rs:69-95 | however often a contended batch is retried, it is stored once or not at all; it is not stored only if its last attempt failed for cause, and contention is reported only after five attempts or when the time is up |
| `MailStore.Store.NothingFails` | crates/rustmail-storage/src/repo.rs:69-95 | a database that takes every statement refuses a batch only over ids that are not unique |
| `MailStore.Store.Churn` | crates/rustmail-storage/src/repo.rs:389-777 | every run of inserts, updates, deletes, expiry and trimming keeps all derived tables mirroring the messages, and while one message is spared nothing new appears below it |
| `MailStore.EntriesConcat` | crates/rustmail-storage/src/repo.rs:805-808 | indexing in chunks comes to indexing the whole batch |
| `Paging.TagTableDecides` | crates/rustmail-storage/src/query.rs:60-69 | filtering by the tag table is filtering by the tags in the messages |
| `Paging.SearchCountIsJoined` | crates/rustmail-storage/src/repo.rs:311-327 | counting matches on the index alone is counting the messages they join |
| `Paging.CountWanted` | crates/rustmail-storage/src/repo.rs:333-348 | the total counts the messages wanted, also where it is counted on the index or the table alone |
| `Paging.ListMessages` | crates/rustmail-api/src/handlers.rs:91-129 | a page is the next stretch of the filtered list, and in one that starts at an offset each message has as many newer wanted ones as its place says; the look-ahead row decides whether a cursor is returned and which, and cursor with offset and an unknown cursor are refused |
| `Paging.Clamp` | crates/rustmail-api/src/handlers.rs:91-94 | a page holds as many messages as were asked for, or the number nearest to it from 1 to 200, or 50 if none was asked for |
| `Paging.OffsetPage` | crates/rustmail-storage/src/query.rs:75-91 | row i of a page at offset n is the wanted message with exactly n + i newer wanted ones, and the page is full unless the listing ends in it |
| `Paging.OffsetPagesJoin` | crates/rustmail-storage/src/query.rs:75-91 | the pages at offsets 0, n, 2n and so on join to the listing |
| `Paging.EachPartAsks` | crates/rustmail-storage/src/query.rs:43-69 | no filter and no search leaves nothing out, and each filter, tag and search asks for exactly one thing more of a message; of several tags any will do |
| `Paging.ContinuesListing` | crates/rustmail-storage/src/query.rs:75-91 | reading on from a listed row yields what the listing has after it |
| `Paging.ReadAll` | crates/rustmail-api/src/handlers.rs:91-129 | following the cursor over an unchanged store yields the filtered list once and in order, and ends |
| `Paging.PageIsFull` | crates/rustmail-storage/src/query.rs:75-91 | a page holds every wanted message between its start and its end |
| `Paging.ReadPage` | crates/rustmail-api/src/handlers.rs:91-129 | one more page keeps what was returned sound and complete down to the new cursor |
| `Paging.ReadWhileChanging` | crates/rustmail-api/src/handlers.rs:91-129 | with any operations between pages that spare the cursor message, no message is returned twice, each was wanted when read, and one stored and wanted throughout is returned; each page is the next part of the listing as it then was, and the reading ends with the last of it |
| `Paging.FromIsAfter` | crates/rustmail-storage/src/query.rs:75-91 | reading from the cursor is reading what the listing has after the page before |
| `Fingerprint.LeInjective` | crates/rustmail-storage/src/migrate/fingerprint.rs:33-35 | two integers with the same little-endian bytes are equal |
| `Fingerprint.FieldReadable` | crates/rustmail-storage/src/migrate/fingerprint.rs:33-56 | a field can be read back off the front of any stream, absent and empty values apart |
| `Fingerprint.RecordsReadable` | crates/rustmail-storage/src/migrate/fingerprint.rs:218-255 | a known number of rows can be read back off the front of any stream |
| `Fingerprint.StreamInjective` | crates/rustmail-storage/src/migrate/fingerprint.rs:211-266 | the stream hashed determines every message row, every attachment row and both counts |
| `Fingerprint.ReferenceVector` | crates/rustmail-storage/src/migrate/fingerprint.rs:26-31 | the constants and the mixing order give the published value |
| `Fingerprint.Fnv1a.Bytes` | crates/rustmail-storage/src/migrate/fingerprint.rs:26-31 | hashing byte by byte folds the stream, wherever it is cut |
| `Fingerprint.Fnv1a.HashField` | crates/rustmail-storage/src/migrate/fingerprint.rs:33-56 | what is hashed of a field is its encoding |
| `Fingerprint.NextPage` | crates/rustmail-storage/src/migrate/fingerprint.rs:218-236 | a page leaves for later exactly the rows after its last one |
| `Fingerprint.Fnv1a.Scan` | crates/rustmail-storage/src/migrate/fingerprint.rs:218-262 | paging hashes the rows of the table above the lowest rowid, each once and in order, for every page size |
| `Fingerprint.Print` | crates/rustmail-storage/src/migrate/fingerprint.rs:211-273 | fingerprint, counts and raw size do not depend on the page size |
| `Fingerprint.WhatCounts` | crates/rustmail-storage/src/migrate/fingerprint.rs:230-238 | the raw size counts messages only, each for its content length, if that is known and not negative |
| `Fingerprint.PagedIsUnpaged` | crates/rustmail-storage/src/migrate/fingerprint.rs:216-217 | the scan hashes what one unpaged scan would if and only if no row sits at the lowest rowid of all |
| `Fingerprint.LowestRowLost` | crates/rustmail-storage/src/migrate/fingerprint.rs:216-217 | the input that shows a row left out: the one row of a table, at the lowest rowid |
| `Base64.DecodeLength` | crates/rustmail-storage/src/locator.rs:138-168 | the decoded length depends only on how many characters are pending, not on which |
| `Base64.PredictedLen` | crates/rustmail-storage/src/locator.rs:138-168 | the prediction is the decoded length on every body of alphabet, padding and white space, and nothing on any other |
| `Base64.StripDecode` | crates/rustmail-storage/src/locator.rs:162-162 | white space, wherever it stands, changes nothing |
| `Base64.DecodeEncode` | crates/rustmail-storage/src/locator_fuzz.rs:60-78 | what section 4 of RFC 4648 encodes decodes to itself |
| `Base64.EncodedBodyDecodes` | crates/rustmail-storage/src/locator_fuzz.rs:60-103 | a payload encoded with white space put in anywhere decodes to the payload, so its length is what is predicted |

## Left out

- Sockets, TLS handshakes, HTTP routing, WebSocket keepalive, webhooks, release, configuration, static files and every kind of rendering: input and output over libraries not modelled.
- Timeouts and write errors of an SMTP session end it at any step an arbitrary function names. How long a session waits for an acknowledgement is not timed: giving up is a step it may take at any moment.
- How a command line is read: the model takes any function from lines to commands, so upper-casing, prefixes, address extraction and the SIZE parameter are not part of it, nor are reply texts and the logging of commands.
- SmtpSession.Session.Handle: does not model the check for plaintext buffered before an upgrade; an upgrade may fail at any time, and one that succeeds continues on a new stream only.
- SmtpSession.Session.Deliver: the wait for the verdict and the reply are part of `Acknowledgement`, where `HandOver`, `ReadVerdict` and `GiveUp` are.
- The overflow of the machine word in the line budget of `receive_data`: sizes are unbounded here.
- The capacity of the delivery queue: a hand-off never waits here, it only finds the queue open or closed.
- Acknowledgement.Mailroom.InsertBatch: a commit that fails after it took effect is not modelled; a failed transaction leaves nothing.
- Restoring a backup (`migrate/restore.rs`), the migration lock and its waiting, and free disk space.
- Migration.Folder.Build: the comparison of attachments, tags and the search index of the finished copy is not modelled; a message is what the fingerprint reads of it, its size included.
- A writer that slips in between the release of the lock and the first rename, and `-wal` or `-shm` files other than as a sign that a database is in use.
- TuiApp.App.HandleMessagesFetched: the list and the count of a fetch are taken from one state of the server; the answers to the client's own requests, selection, search and page changes are not modelled.
- Snapshots that run ahead of the frames received when they land: the snapshot lies inside the recorded window.
- InboxIndex.Inbox.AdmitArrivals: the refresh of an uncertain count that follows arrivals is not modelled, nor is the queue that gathers frames into runs.
- The read of the loaded window while arrivals are held (`readLoadedWindow`, `reconcileWindow`), selection, the open row and the visible-message memo of the web inbox.
- InboxReplay.LandFirstPage: a page that lands while arrivals are held, under a search, or on the last attempt after a deletion was confirmed (its count is then read again) is not covered, nor is a page that runs ahead of the events received when it lands.
- InboxDeletions.Inbox.ReconcileDeletion: what the list holds of the message and what it shows are inputs, so that arrivals and filters may change them in any way; a deletion made elsewhere may be counted against a newer count, as in the code.
- MailStore.Store.InsertRows: keys are unbounded, so SQLite's choice of a random key after the largest 64-bit one is not modelled; a minted id that is already in use fails the transaction.
- SQLite's own locking and write-ahead log, FTS5 matching and tokens, compression, MIME parsing, page reclaim: transactions are atomic, matching is an arbitrary predicate, and the indexed body is an arbitrary function of the source.
- Paging.ListMessages: the lookup of the cursor, the page and the total read one state of the store; parsing of the query string and the cap on tag filters are not modelled.
- Fingerprint.Print: the 64-bit hash itself can collide; what is proved is about the stream before it. Text is its bytes, and the hexadecimal form of the hash is left out.
- Where an attachment lies in its message and quoted-printable bodies (`locate`, `body_range`): single functions over a parsed message.
