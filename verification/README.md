# Verified models of the CIS1 WebUI back end

This project models the parts of the CIS1 WebUI server (a C++ web interface to a continuous
integration system) whose correctness is hardest to see from the code, and proves what they do
with Dafny. `dafny verify dfyconfig.toml` checks everything.

**Uploads.** A multipart/form-data upload is processed byte by byte by four layers: an online
Knuth-Morris-Pratt searcher, a boundary parser (section 5.1.1 of RFC 2046) that says for every
byte how many bytes are now decided, a parser of part headers (section 4.2 of RFC 7578), and a
reader that cuts names, file names and bodies out of its buffers by position and carries
undecided bytes over to the next call.

| file | contents |
|---|---|
| `Matching.dfy` | overlaps of a pattern and a text, borders, occurrences |
| `KnuthMorrisPratt.dfy` | the searcher and its failure table |
| `MultipartParser.dfy` | the boundary parser, one byte at a time |
| `Folding.dfy` | runs of state machines |
| `MultipartLayout.dfy` | whole runs of the boundary parser, against a description of texts |
| `HeaderParser.dfy` | the parser of part headers |
| `FormSpec.dfy` | what each decided byte does to the stored form |
| `FormReader.dfy` | the reader with its buffers, against `FormSpec` |
| `FormRoundTrip.dfy`, `FormUpload.dfy` | printed parts and forms, in one call |
| `FormCutoff.dfy` | parts that end too early, and what an upload is when none does |
| `FormLastPart.dfy` | uploads whose last part ends too early |
| `FormChunks.dfy` | uploads in many calls |

The layers are proved one on top of the other. A step of the searcher is the best extension of
the current overlap (`Delta`); a run of the boundary parser is compared with a `Layout`, which
mentions only delimiters and their first occurrences; the reader, which works on slices and
positions, is proved equal to a specification that moves every byte to its destination at once;
and so a printed form comes back as it was, and only a printed form is read to its end with every
part complete.

**Directory cache.** `FsWorld.dfy` is a file system that changes by itself while time passes,
`DirectoryCache.dfy` the cache over it: a tree of nodes with time-based invalidation, a merge-join
reload, and a depth limit below which the real directory is read. In every run, a place that is
not found was missing at some moment within the invalidation time. A place that is found is only
as good if there is a depth limit, and if the directory it lies in was a directory all that time;
otherwise it may be long gone (see below). With a depth limit of 1 the cache never lists the root,
and lookups read the real directory.

**Job sessions.** `Sessions.dfy` has sessions (live and read back from a file) and subscribers,
`SessionRegistry.dfy` the registry with its weak pointers and erasing deleters, `SessionRuns.dfy`
its runs. Shared ownership is written out as the sets of those who hold a session; the invariants
are proved over every sequence of connections, log entries, subscriptions, timers and
disconnections, and so is what each session has logged.

**Users, tokens, permissions.** `Database.dfy` has the tables with their unique columns and
cascading deletes. `AuthTokens.dfy` compares the answers about tokens and passwords with the
history of what happened, from which nothing is ever collected. `RightsManagement.dfy` shows that
three permission queries agree. `AccountRuns.dfy` puts both on one database, adds the creation and
removal of projects, and explains every answer of every run by a model without tables: a history,
and sets and maps by name. `AccountTraces.dfy` says the same of requests and answers alone: an
answer follows from those before it and from the seconds that have passed.

**Codecs.** `CronList.dfy` (the list of cron entries) and `Base64.dfy` (against the decoding of
section 4 of RFC 4648). `Wrappers.dfy` holds the option type.

Five things about the code that the model follows as they are:

- A call of `put` that brings fewer bytes than are undecided afterwards may keep the wrong bytes.
  An upload is safe if every call but the last brings at least three bytes more than the boundary
  has (`FormChunks.BigChunks`), and no smaller bound will do: for every smaller size there is a
  printed form, in calls of at least that size, that is accepted and stored with another value
  (`FormChunks.SmallChunks`). `FormReader.CarryIsExact` says when the bytes kept are right.
- A part that ends inside its header is not reported as an error by `put`, because the error
  code goes to the event handler by value
  (`include/beast_ext/basic_multipart_form_body.h:500-521`). Where the parts before it end in their
  bodies, `finish` lets such a part through, if it is the last one, exactly when it ends before its
  name does (`FormCutoff.FinishIff`); the upload is then accepted with that part lost and the
  others stored (`FormLastPart.AcceptedIff`, `FormLastPart.LostPart`, `FormLastPart.EmptyPart`).
- The boundary is whatever stands behind the first `=` of the Content-Type. So it is found exactly
  when its parameter is the first and nothing follows it (`FormReader.BoundaryIff`), and never
  when it is quoted (`FormReader.QuotesStay`); `FormReader.WrongBoundaries` has a header for each.
- A lookup in the directory cache can find what is long gone: without a depth limit always, as
  places in the tree are not looked at again, and with one when the directory has vanished or
  become a file, as a node then keeps its children (`src/fs_cache.cpp:79-84`, 122-127).
  `DirectoryCache.StaleHit` is such a run for each.
- A client that subscribes to a session that has ended is told so first and is made a holder of
  the session afterwards (`src/cis/session_manager.cpp:69-70`).

## Model

| member | source | states |
|---|---|---|
| `Matching.LongestSnoc` | src/beast_ext/knuth_morris_pratt_searcher.cpp:33-61 | the longest overlap after one more byte depends only on the longest overlap before it: the reason an online searcher can work |
| `Matching.LongestIs` | src/beast_ext/knuth_morris_pratt_searcher.cpp:33-61 | the overlap in plain slices: of all prefixes of the pattern that the text ends with, the longest one |
| `Matching.FullOccurrence` | src/beast_ext/knuth_morris_pratt_searcher.cpp:41-44 | the overlap is the whole pattern exactly where the pattern occurs |
| `KnuthMorrisPratt.CandidateMiss` | src/beast_ext/knuth_morris_pratt_searcher.cpp:47-58 | after a mismatch the next overlap to try is the longest border, and nothing between can match |
| `KnuthMorrisPratt.BuildTable` | src/beast_ext/knuth_morris_pratt_searcher.cpp:63-100 | terminates, and entry k is the longest proper border of the first k bytes |
| `KnuthMorrisPratt.FillMiss` | src/beast_ext/knuth_morris_pratt_searcher.cpp:90-98 | falling back to a shorter border loses no candidate for the entry being filled |
| `KnuthMorrisPratt.Searcher.Init` | src/beast_ext/knuth_morris_pratt_searcher.cpp:11-25 | rebuilds the table for a new pattern only, and starts with nothing seen |
| `KnuthMorrisPratt.Searcher.Reset` | src/beast_ext/knuth_morris_pratt_searcher.cpp:27-31 | starts over with nothing seen |
| `KnuthMorrisPratt.Searcher.PartialSearch` | src/beast_ext/knuth_morris_pratt_searcher.cpp:33-61 | returns the length of the longest pattern prefix that the bytes since the reset end with, the full length exactly at an occurrence; in total at most two loop iterations a byte |
| `KnuthMorrisPratt.Searcher.Step` | src/beast_ext/knuth_morris_pratt_searcher.cpp:37-60 | the loop finds the longest extension, with the position counter wrapping at the size of `size_t` |
| `MultipartParser.MultipartStreamParser.constructor` | src/beast_ext/multipart_stream_parser.cpp:14-19 | the delimiters are `--boundary CRLF` and `CRLF--boundary` |
| `MultipartParser.MultipartStreamParser.TrCheck` | src/beast_ext/multipart_stream_parser.cpp:57-72 | the advancement is the number of bytes that fell out of the match, plus the delimiter when it is complete; the subtraction never underflows |
| `MultipartParser.MultipartStreamParser.HandleChar` | src/beast_ext/multipart_stream_parser.cpp:74-184 | one transition of the state machine for every state and byte; the searcher always follows the current delimiter and is never used after a full match without a reset |
| `MultipartParser.StepIsConserving` | src/beast_ext/multipart_stream_parser.cpp:57-184 | each byte moves exactly the advancement from the undecided bytes to the decided ones, and the rest is what is held back |
| `MultipartLayout.PartSplitting` | src/beast_ext/multipart_stream_parser.cpp:74-184 | a text is accepted if and only if it has a layout: the first part after the first `--boundary CRLF`, each part up to the leftmost later `CRLF--boundary`; begin and end alternate and the bytes between them are the part |
| `MultipartLayout.ByteConservation` | src/beast_ext/multipart_stream_parser.cpp:45-184 | on every accepted prefix the bytes decided and the bytes held back are together the bytes given, in order |
| `MultipartLayout.LayoutRuns` | src/beast_ext/multipart_stream_parser.cpp:74-184 | a text with a layout is accepted and delivered as the layout says |
| `MultipartLayout.FindLayout` | src/beast_ext/multipart_stream_parser.cpp:74-184 | every accepted text has a layout |
| `MultipartLayout.RunConcat` | src/beast_ext/multipart_stream_parser.cpp:74-184 | the parser does not depend on how a text is cut into pieces |
| `HeaderParser.MessageStreamParser.HandleMessageChar` | src/beast_ext/message_stream_parser.cpp:90-227 | the transition for every state and byte, with the fixed texts of the header |
| `HeaderParser.MessageStreamParser.HandleMessageEnd` | src/beast_ext/message_stream_parser.cpp:229-239 | a part may end in its body only |
| `HeaderParser.OnChar` | src/beast_ext/message_stream_parser.cpp:73-88 | the position in a fixed text never runs past its end |
| `FormSpec.CharMoves` | src/beast_ext/message_stream_parser.cpp:90-227 | which changes of state go with which event |
| `FormSpec.EventKeepsCoupling` | include/beast_ext/basic_multipart_form_body.h:388-498 | every event keeps the reader in step with the header parser |
| `FormSpec.CouplingAlwaysHolds` | include/beast_ext/basic_multipart_form_body.h:302-498 | on every input, malformed ones included: the reader is writing exactly in a name, file name or body, its state fits the header parser's, and the value or file it writes to exists |
| `FormReader.FeedIsRun` | include/beast_ext/basic_multipart_form_body.h:537-570 | handling events and decided bytes one input byte at a time equals splitting the text first and reading the parts afterwards |
| `FormReader.Reader.constructor` | include/beast_ext/basic_multipart_form_body.h:205-245 | a fresh reader for a boundary: nothing pending, nothing stored |
| `FormReader.BoundaryIff` | include/beast_ext/basic_multipart_form_body.h:211-216 | the boundary of a Content-Type is found if and only if no `=` stands before its own and nothing behind it |
| `FormReader.QuotesStay` | include/beast_ext/basic_multipart_form_body.h:211-216 | a quoted boundary is never found |
| `FormReader.WrongBoundaries` | include/beast_ext/basic_multipart_form_body.h:211-216 | a header for each cause: a parameter before, a parameter after, quotes |
| `FormReader.OpenReader` | include/beast_ext/basic_multipart_form_body.h:205-245 | without a boundary, or with an empty one, the request is refused; otherwise the reader is fresh for that boundary |
| `FormReader.Reader.WritePart` | include/beast_ext/basic_multipart_form_body.h:302-386 | the open slice goes to the name, the value or the open file of the current state, and nowhere else |
| `FormReader.Reader.OpenFile` | include/beast_ext/basic_multipart_form_body.h:429-466 | a file is opened in mode add if it did not exist, in mode replace if it did, in the third mode always and in mode ignore never; otherwise the value is marked as not written |
| `FormReader.Reader.MessagePartEvent` | include/beast_ext/basic_multipart_form_body.h:388-498 | an end event writes the slice before it, a begin event opens the slice after it |
| `FormReader.Reader.OnParserEvent` | include/beast_ext/basic_multipart_form_body.h:500-521 | begin and end of a part, seen from the specification |
| `FormReader.Reader.AdvanceByte` | include/beast_ext/basic_multipart_form_body.h:526-534 | one decided byte has the effect of the specification, with the open slice still to be written |
| `FormReader.Reader.Advance` | include/beast_ext/basic_multipart_form_body.h:523-535 | so have all bytes decided at once |
| `FormReader.Reader.PutByte` | include/beast_ext/basic_multipart_form_body.h:541-569 | one input byte: the event before or after the decided bytes, the error codes |
| `FormReader.Reader.Put` | include/beast_ext/basic_multipart_form_body.h:282-606 | the whole call: on success the form is what byte-by-byte reading makes of it and the pending bytes are those of `Carry`; on an error it stops at the first byte at which the reading fails |
| `FormReader.CarryIsExact` | include/beast_ext/basic_multipart_form_body.h:579-601 | the bytes kept for the next call are the undecided ones if and only if no more are undecided than the call brought, or they begin with what it brought |
| `FormReader.Reader.Finish` | include/beast_ext/basic_multipart_form_body.h:608-620 | refuses exactly when the header parser is past a part's name and the part has not ended |
| `FormRoundTrip.PartReads` | src/beast_ext/message_stream_parser.cpp:90-239 | reading a printed part stores its name, file name and body |
| `FormRoundTrip.PartIff` | src/beast_ext/message_stream_parser.cpp:90-239 | a text is read through to a body without error if and only if it is the print of a part without quotes in names and without CR in the content type; any such part is what gets stored |
| `FormUpload.RoundTrip` | include/beast_ext/basic_multipart_form_body.h:282-606 | a printed form of any number of fields and files is read back: every name, file name and body in order and byte for byte, and finish accepts |
| `FormUpload.Upload` | include/beast_ext/basic_multipart_form_body.h:282-620 | the same for the reader itself: one `put` on a fresh reader, then `finish`. Of a form whose header lines are written out byte for byte, every name, file name, body and order is kept; each file is written with all its bytes or not at all, as the mode and the files that existed say |
| `FormUpload.BrowserFormIs` | src/beast_ext/message_stream_parser.cpp:11-15 | a form with its header lines written out is the one printed from the fixed texts of the parser |
| `FormUpload.StoreFormKeeps` | include/beast_ext/basic_multipart_form_body.h:429-466 | what a form stores, part by part: values, files, and which files are written in each mode |
| `FormCutoff.PrefixIff` | src/beast_ext/message_stream_parser.cpp:90-239 | a text is read without an error if and only if it is the beginning of a printed part: every cut-off part can be completed |
| `FormCutoff.NameIff` | src/beast_ext/message_stream_parser.cpp:90-140 | the texts read without an error that stop before the name is complete are exactly the beginnings of the first literal, and that literal with a text without quotes |
| `FormCutoff.FinishIff` | include/beast_ext/basic_multipart_form_body.h:608-620 | a last part read without an error, after a part that ended in its body, is let through by finish if and only if it is complete or ends before its name does; in the second case nothing of it is stored |
| `FormCutoff.UploadIff` | include/beast_ext/basic_multipart_form_body.h:282-606 | an upload is read without an error, to its closing delimiter and with every part ending in its body, if and only if it is a printed form between a preamble and an epilogue; what it stores is then that form |
| `FormLastPart.AcceptedIff` | include/beast_ext/basic_multipart_form_body.h:282-620 | a closed upload whose parts before the last end in their bodies is accepted by put and finish if and only if those are printed parts and the last is a printed part or ends before its name does; the complete parts are stored |
| `FormLastPart.LostPart` | include/beast_ext/basic_multipart_form_body.h:500-521 | after any number of printed parts, a last part that ends before its name does is lost without an error, and the others are stored |
| `FormLastPart.EmptyPart` | include/beast_ext/basic_multipart_form_body.h:500-521 | such an upload: two delimiters with nothing between them |
| `FormChunks.UploadChunks` | include/beast_ext/basic_multipart_form_body.h:282-620 | the reader, called any number of times: whether it accepts and what it stores is what the chain of calls says, in which each call keeps the bytes of `Carry` |
| `FormChunks.ChainIsFeed` | include/beast_ext/basic_multipart_form_body.h:572-601 | where after every call no more bytes are undecided than it brought, the calls come to the same as one call with everything |
| `FormChunks.BigChunksCarryWell` | include/beast_ext/basic_multipart_form_body.h:572-601 | that is so whenever every call brings at least three bytes more than the boundary has |
| `FormChunks.BigChunks` | include/beast_ext/basic_multipart_form_body.h:572-601 | a printed form is stored as it was printed if every call but the last is of that size |
| `FormChunks.SmallChunks` | include/beast_ext/basic_multipart_form_body.h:579-601 | for every smaller size, and a boundary without CR, a printed form in calls of at least that size is accepted and stored with another value |
| `FormChunks.CarryInPart` | include/beast_ext/basic_multipart_form_body.h:579-601 | inside a part, for a boundary without CR, the bytes kept are right exactly when no more are undecided than the call brought |
| `FormChunks.CarryCorrupts` | include/beast_ext/basic_multipart_form_body.h:584-598 | for every boundary without CR: a CR and an LF that come in calls of their own turn into two CRs, which are then delivered |
| `DirectoryCache.Insert` | src/fs_cache.cpp:151-153 | a new node goes to its place among siblings ordered by name |
| `DirectoryCache.ApartStep` | src/fs_cache.cpp:160-183 | the merge passes over a node only when no node of that name can follow on the other side |
| `DirectoryCache.Merge` | src/fs_cache.cpp:155-183 | a new child whose name was in state sync keeps that child's subtree, time and state; every other one stays as created |
| `DirectoryCache.FsCache.NewChildren` | src/fs_cache.cpp:129-183 | the children are the entries of the directory at one moment, in order, merged with the old ones |
| `DirectoryCache.FsCache.Load` | src/fs_cache.cpp:122-192 | a reload of a directory above the depth limit makes the node sync with exactly the entries; of anything else it changes nothing |
| `DirectoryCache.FsCache.Update` | src/fs_cache.cpp:65-88 | afterwards every name the node does not have was missing within the invalidation time, or since the call if the node was not in step or was forced |
| `DirectoryCache.FsCache.Remove` | src/fs_cache.cpp:90-100 | the node is deleted and has no children |
| `DirectoryCache.FsCache.Invalidate` | src/fs_cache.cpp:102-105 | the node is modified, so the next update reloads it |
| `DirectoryCache.FsCache.Step` | src/fs_cache.cpp:553-615 | one step of a lookup: an update when due or after a failed lookup, and a failure only for a name that was missing; in a node that was invalidated, missing during the step |
| `DirectoryCache.FsCache.Scan` | src/fs_cache.cpp:567-592 | the lookup in the real directory is right at that moment |
| `DirectoryCache.FsCache.NodeLevel` | src/fs_cache.cpp:565-593 | a lookup switches to the real directory exactly at the nodes a reload never expands |
| `DirectoryCache.FsCache.Find` | src/fs_cache.cpp:538-619 | a miss was true at some moment within the invalidation time before the call or during it; with a depth limit so is a hit above it, or the directory of the place was none at some moment in that time; a hit at or below the limit was true during the call; without a limit a place in the tree is a hit whatever has become of it; the root is always found |
| `DirectoryCache.FsCache.RunAll` | src/fs_cache.cpp:65-619 | in every run of lookups, updates, invalidations and removals, of the root too, over every history of the file system: all of this holds of every answer, and of every name that the root lists or does not list |
| `DirectoryCache.StaleHit` | src/fs_cache.cpp:65-600 | a place that vanished is found after any time, however short the invalidation time: without a depth limit, and with one where the root vanished too |
| `Sessions.EntriesOfTranscript` | src/cis/session.cpp:61-64 | replaying a log sends exactly its entries, in order |
| `Sessions.Subscriber.Unsubscribe` | src/websocket/handlers/session_subscribe.cpp:64-72 | the subscriber lets go of its session |
| `Sessions.Subscriber.Receive` | src/websocket/handlers/session_subscribe.cpp:32-62 | a message is sent; after an end message the subscriber lets go of its session |
| `Sessions.Session.Deliver` | src/cis/session.cpp:41-47 | the delivery loop reaches every registered subscriber that is alive once, and nobody else |
| `Sessions.Session.Establish` | src/cis/session.cpp:31-35 | the session is in progress; an offline one stays as it is |
| `Sessions.Session.Record` | src/cis/session.cpp:37-48 | the entry goes on record and is sent once to every registered live subscriber and to nobody else, each of which has then received all of the log |
| `Sessions.Session.Subscribe` | src/cis/session.cpp:50-72 | a newcomer gets the log so far and the news of the end if there is one, or only that the session was not established; it is registered unless its key is taken |
| `Sessions.Session.GetSubscriber` | src/cis/session.cpp:74-83 | the registered subscriber, if it is alive |
| `Sessions.Session.Finish` | src/cis/session.cpp:85-96 | every registered live subscriber is sent that the session is closed, nothing else, and lets go; all others are sent nothing; an offline session does nothing |
| `Sessions.Session.OnTimer` | src/cis/session.cpp:98-117 | only a pending session whose timer ran out ends; its registered live subscribers are sent that it was not established, and nothing else |
| `SessionRegistry.SessionManager.Lock` | src/cis/session_manager.cpp:27-34 | a session found in the registry can always be locked: the unchecked `lock()` never yields null |
| `SessionRegistry.SessionManager.Create` | src/cis/session_manager.cpp:37-56 | a new session goes into the registry; the emplacement always succeeds |
| `SessionRegistry.SessionManager.Reap` | src/cis/session_manager.cpp:39-44 | the deleter erases the entry of the session that lost its last owner |
| `SessionRegistry.SessionManager.Connect` | src/cis/session_manager.cpp:24-58 | the session of an id, established: the registered one, or a new one in progress |
| `SessionRegistry.SessionManager.Authenticate` | src/application.cpp:410-425 | a job connection comes to hold the session of the id, and lets go of the one it held; every log, and the state of every other session, stays |
| `SessionRegistry.SessionManager.Subscribe` | src/cis/session_manager.cpp:60-121 | the subscriber comes to hold the registered session of the id, one read back from its file, or a new one, and is greeted by it; every log and state stays |
| `SessionRegistry.SessionManager.GetSubscriber` | src/cis/session_manager.cpp:123-136 | the live subscriber of a session under a key, and null exactly when there is none |
| `SessionRegistry.SessionManager.FinishSession` | src/cis/session_manager.cpp:138-147 | the session of the id, if any, is finished and its listeners are sent one closing message; no other session changes and no other client is sent anything |
| `SessionRegistry.SessionManager.TimerFires` | src/cis/session.cpp:20-29 | the handler of the timer lets go of the session after it has run; only the listeners of a session that was given up are sent anything, once |
| `SessionRegistry.SessionManager.JobLog` | src/application.cpp:427-441 | an entry is recorded by the session of the connection only, and sent to its listeners only |
| `SessionRegistry.SessionManager.StaysSound` | src/cis/session.cpp:37-117 | what a held session does with its own subscribers leaves registry, ownership and delivery right everywhere |
| `SessionRegistry.SessionManager.OneLiveSession` | src/cis/session_manager.cpp:24-121 | at most one live session has a given id |
| `SessionRegistry.SessionManager.SharedSession` | src/cis/session_manager.cpp:60-72 | a job connection and all subscribers of an id share one session, the registered one |
| `SessionRuns.Perform` | src/cis/session_manager.cpp:24-147 | any one request or event: only an entry that a job connection logs changes a log, and only that of the session the connection holds; a session changes its state by the request for its id, and clients are told of an end only when it is there |
| `SessionRuns.RunAll` | src/cis/session_manager.cpp:24-147 | after every run: sharing holds, every subscriber has got a first part of its session's log, every registered live one all of it in order without duplicates, and is told of the end in the states that have one; each log is what the session began with and exactly the entries of the job connections that had last reported in under its id; a client was told that a session was closed only if that was finished or read from a file, and that it was not established only after its timer ran out while it was pending |
| `Database.Storage.RemoveUser` | include/database.h:38-57 | deleting a user deletes the rights and tokens that refer to it, and nothing else |
| `Database.Storage.InsertToken` | include/database.h:47-52 | a token is inserted unless its value is in the table |
| `AuthTokens.HolderMeaning` | src/auth_manager.cpp:87-128 | whom a token stands for is the user of its last issue, unless the token or the user was deleted since |
| `AuthTokens.AnswerMeaning` | src/auth_manager.cpp:87-128 | a token yields an email if and only if it was issued for that email, is not expired, and nothing undid the issue |
| `AuthTokens.AuthManager.Check` | src/auth_manager.cpp:87-128 | the answer from the table with its deletions equals the answer from the history, in which no expired token is ever dropped; the user looked up always exists |
| `AuthTokens.AuthManager.Cleanup` | src/auth_manager.cpp:494-502 | only expired tokens go, and no later answer changes |
| `AuthTokens.AuthManager.DeleteToken` | src/auth_manager.cpp:408-429 | the token is revoked, and no other answer changes |
| `AuthTokens.AuthManager.AddUser` | src/auth_manager.cpp:431-461 | succeeds exactly when there is no such user, and adds that one row |
| `AuthTokens.AuthManager.DeleteUser` | src/auth_manager.cpp:463-492 | succeeds exactly when there is such a user; its tokens yield nothing any more, its rights go, and all others stay |
| `AuthTokens.AuthManager.ChangePass` | src/auth_manager.cpp:267-303 | succeeds exactly for a known user and a password that is not empty |
| `AuthTokens.AuthManager.IssueToken` | src/auth_manager.cpp:57-71 | one turn of the token loop: a value that is in the table is refused |
| `AuthTokens.AuthManager.Login` | src/auth_manager.cpp:38-85 | a token is issued for seven days exactly when the password is the last one set for the user; its value stood for nobody |
| `RightsManagement.RightsManager.IsAdmin` | src/rights_manager.cpp:21-46 | whether the user exists and is an admin |
| `RightsManagement.RightsManager.SetAdminStatus` | src/rights_manager.cpp:48-79 | changes the status of that user only |
| `RightsManagement.RightsManager.CheckProjectRight` | src/rights_manager.cpp:81-130 | what the user may do with the project: all for an admin, else what its row says; no answer only where nothing is allowed |
| `RightsManagement.RightsManager.GetPermissions` | src/rights_manager.cpp:132-199 | for a user, exactly what it may do with each project: all three rights for an admin, those of its row, or none without one |
| `RightsManagement.RightsManager.GetPermissionsByProject` | src/rights_manager.cpp:201-266 | for a project, exactly what each user may do with it |
| `RightsManagement.RightsManager.SetUserProjectPermissions` | src/rights_manager.cpp:268-318 | settles that pair and no other, and keeps at most one row a pair |
| `RightsManagement.RightsManager.MayOne` | src/rights_manager.cpp:81-130 | with one row a pair every pair has one answer |
| `RightsManagement.RightsManager.Views` | src/rights_manager.cpp:81-266 | the three queries agree on every user and project |
| `RightsManagement.RightsManager.FewerRows` | src/rights_manager.cpp:81-130 | the rows that go with a deleted user leave one row a pair |
| `AccountRuns.Accounts.AddProject` | src/cis/cis_manager.cpp:186-211 | a new name gets a row, a deleted project comes back under its old one, and no other row changes |
| `AccountRuns.Accounts.RemoveProject` | src/cis/cis_manager.cpp:225-245 | that project is marked as deleted and no row goes |
| `AccountRuns.Accounts.MayIsAllowed` | src/rights_manager.cpp:81-130 | what the rows say by id is what was last granted by name, with all rights for admins |
| `AccountRuns.Accounts.Handle` | src/auth_manager.cpp:38-502 | any one request, on the shared database: its answer is the one the model explains, and the model changes by that request only |
| `AccountRuns.RunAll` | src/rights_manager.cpp:21-318 | over every run of adding and deleting users and projects, passwords, logins, tokens and their collection, rights and admins: every token answer is that of the history, and all three permission queries show exactly what is allowed by name |
| `AccountTraces.TokenTold` | src/auth_manager.cpp:54-128 | over every run: a token is answered with an email if and only if it was issued for that email at most 604800 seconds ago and was not revoked, issued again or its user deleted since |
| `AccountTraces.LoginTold` | src/auth_manager.cpp:38-85 | over every run: a login succeeds if and only if its password is the one last set for the user |
| `AccountTraces.RightsTold` | src/rights_manager.cpp:81-318 | over every run: of a known user and a project, an admin is shown all three rights, another user those granted last, and none without a grant; anyone else is shown nothing |
| `AccountTraces.CarriedOut` | src/auth_manager.cpp:267-492 | over every run: which requests to add, delete and change users and rights are carried out |
| `AccountTraces.ServeAll` | src/auth_manager.cpp:38-502 | all of this for the operations themselves |
| `CronList.ParseCronList` | src/cis/cis_manager.cpp:612-650 | on any buffer: terminates, the entries are good ones and reprint to a beginning of the buffer and a newline, and no good entry stands where they end |
| `CronList.ReadsOnce` | src/cis/cis_manager.cpp:612-650 | there is only one list of entries of which that is true |
| `CronList.PrintedReads` | src/cis/cis_manager.cpp:624-637 | a printed list of good entries reads as that list, with or without the last newline |
| `CronList.RoundTrip` | src/cis/cis_manager.cpp:612-650 | printing and parsing gives any list of good entries back |
| `CronList.ParseLines` | src/cis/cis_manager.cpp:612-650 | two lines `project/job expression` are read as their parts, with or without the last newline |
| `Base64.Base64Encode` | src/base64.cpp:16-75 | the loop over three-byte groups, and the padding of the rest, compute the encoding |
| `Base64.Alphabet` | src/base64.cpp:11-14 | the table, written out |
| `Base64.EncodedAt` | src/base64.cpp:28-45 | the bits of each three bytes in four characters |
| `Base64.EncodedEnd` | src/base64.cpp:47-72 | one or two bytes at the end: zero bits, then padding |
| `Base64.DecodesBack` | src/base64.cpp:16-75 | the decoder of RFC 4648 gives the bytes back, for every length |
| `Base64.EncodesBack` | src/base64.cpp:47-72 | the texts the decoder accepts are exactly encodings |
| `Base64.Injective` | src/base64.cpp:16-75 | different inputs have different encodings |
| `Base64.Shape` | src/base64.cpp:62-71 | four characters for each three bytes begun, all from the alphabet but for the padding at the end |
| `Base64.TableInverse` | src/base64.cpp:11-14 | the alphabet is a one-to-one table without the padding character |

## Left out

- `FormReader.Reader.Put`: does not model errors of opening, writing or closing files, so the error code, once set, stays; in the source `open`, `write` and `close` store into the same code (include/beast_ext/basic_multipart_form_body.h:361-377, 459-462, 492) and a file that opens can clear an error of the same byte, which only a boundary with header text in it can bring about. The sequence of buffers is taken as one text; iterators at its end are not part of the model.
- `FormReader.Reader.OpenFile`: opening a file always succeeds.
- `FormReader.Reader.WritePart`: the name branch (include/beast_ext/basic_multipart_form_body.h:319-325) reads the buffer at its end position without the check for the last buffer that its siblings have (345, 370); in the model nothing is left to be read there.
- `FormChunks.UploadChunks`: the same holds for a call that ends inside a name with every byte decided: the source then looks at the end iterator of its buffers, the model goes on.
- `FormChunks.SmallChunks`: the boundary has no CR, as in RFC 2046; whether smaller calls are safe for a boundary with one is not said.
- `FormReader.Reader.constructor`: the boundary is given here; `FormReader.OpenReader` finds it in the header. That `init` checks the target directory by an assertion is left out.
- `KnuthMorrisPratt.BuildTable`: table entries and positions are unbounded integers, so patterns longer than an `int` can count are not covered.
- `KnuthMorrisPratt.Searcher.PartialSearch`: says nothing about the text after a full match until the next reset, as the searcher has then lost track; the boundary parser is proved never to go on without one.
- Values and files of a form are kept in the order of their arrival; the multimaps of the source order them by name.
- `DirectoryCache.FsCache.Find`: does not model errors while a directory is read; for "/" the source makes an iterator to the root, which is in no set of children, and the model yields the root. Without a depth limit, and below what was no directory, a hit is only claimed to have existed once: `DirectoryCache.StaleHit` shows that nothing more is true.
- `DirectoryCache.FsCache.RunAll`: iteration over children, which skips deleted nodes, is left out; what `begin` lists at the root is the set of its children.
- `DirectoryCache.FsCache.NewChildren`: a directory is listed at one moment; entries that come and go during a listing are not modelled.
- The file operations of the cache (move, copy, create, remove on disk) are changes of the file system history, made at any time.
- `Sessions.Session.Establish`: the two session classes of the source are one class with a flag here; where offline_session.cpp differs from session.cpp the methods branch on it.
- `Sessions.Session.Subscribe`: a key that is taken leaves the newcomer unregistered, as in the source; each subscription brings a new subscriber.
- `Sessions.Subscriber.Unsubscribe`: the close handler that keeps a subscriber alive, and that the source removes here, is left out; which subscribers are alive is part of the state.
- `SessionRegistry.SessionManager.JobLog`: requires that the connection has reported in; the source dereferences a null session otherwise.
- `SessionRegistry.SessionManager.Subscribe`: the log lines of an offline session are given; the regular expression that reads them from the file is left out, and a session file either exists or not.
- Calls of the session manager and its handlers run one after the other; threads, the close handlers of the websocket queue and the timer of the event loop are left out, and a timer may fire at any time.
- `Database.Storage.RemoveUser`: the table of API access keys, whose rows go with their user too, is left out.
- `AuthTokens.AuthManager.Login`: the random values are given as a list in which a new one comes; that the generator produces one is not proved. Passwords are compared as stored.
- `AuthTokens.AuthManager.Check`: assumes a clock that does not go back; in `AccountRuns.RunAll` the time between requests is given.
- Database errors, transactions that fail, and the listing of users are left out; requests are handled one after the other.
- `RightsManagement.RightsManager.GetPermissions`: deleted projects are listed like others, as in the source.
- `AccountRuns.Accounts.AddProject`: the directories and files of a project, and the comparison of the table with the directories when the server starts (src/cis/cis_manager.cpp:78-110), are left out; a directory that cannot be created ends the request before the database is looked at.
- `Base64.Base64Encode`: masks and shifts of unsigned bytes are written as remainders, products and quotients.
- `CronList.RoundTrip`: requires a project without '/', a job without ' ' and an expression without newline, none of them empty, which is what the format can carry.
- HTTP and websocket plumbing, routing, URI escaping, process spawning, webhooks, MIME types and logging are not part of this model.
