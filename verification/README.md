# A verified model of SealHub's document store

SealHub's `hubd` keeps documents in a git repository, serves them over HTTP, caches an index
of them and tells watchers what changes. This project models the parts where the state is hard
and proves what holds of them over every run, with every step allowed to fail.

* **The store** (`Git.dfy`, `Store.dfy`, `GitStores.dfy`). Four copies of the data: worktree,
  staging area, local branch, remote branch. Each git command follows git's own rules (a push
  must fast-forward, `git rm` wants the file to equal the index and HEAD, a fast-forward merge
  follows the two-tree table of `git read-tree`, "nothing to commit" is said only when the
  worktree is clean too) and may besides fail before it starts or after it took effect. Other
  writers append commits to the remote at any time. `Store` is the state machine; the class
  `GitStore` does what the source does, in its order, and every method is proved to take a step
  of it. `StoreOutcomes` says what one operation returns and leaves for every combination of
  faults; `StoreSafety`, `StoreVersions` and `StoreCache` prove what every run keeps, `Listings`
  what a concurrent List sees, and `Scenarios` holds inputs on which the store surprises.
* **The change stream** (`Changes.dfy`, `Streams.dfy`, `Polling.dfy`). The broker with its
  512-event window; the streaming handler interleaved with a publisher, one critical section at
  a time; JSON polling as a client uses it. `Watchers.dfy` joins them with the store: what a client
  that replays the events knows of the index.
* **The client and the operator** (`Client.dfy`, `Operator.dfy`). The incremental parser of
  `Watch` against a one-shot parser and against the server's writer; from the handler's output
  to the runs of `Reconcile`.
* **Keys and authorization** (`Keyrings.dfy`, `Auth.dfy`, `Server.dfy`). First key encrypts, any
  key decrypts; the nested rule evaluation against a declarative reading; the handlers'
  decisions.

The YAML and JSON libraries, base64 and AES-GCM are parameters (`Codec`, `EventCodec`, `Aead`)
with stated laws: marshalling is undone by unmarshalling, encoding contains no line feed, and a
ciphertext opens under its own key only. A commit is a tree with a stamp; a branch is the
sequence of its commits, so "is an ancestor of" is "is a prefix of", and a hash stands for the
history it names. A Go string is a string of bytes. An operation of the store is one step: it
reads the remote at most once (fetch) and writes it at most once (push), so a commit by another
writer in the middle of it is the same as one before or after it. What is nondeterministic (the
outcome of each command, nonces, stamps, what others commit) is an argument of the step.

Properties that look natural and do not hold are stated with their exact condition, and with an
input on which they fail:

* replaying the event log yields the index's key set until a refresh finds its commit
  unreadable while the index is not empty (`LogReplaysToIndex`,
  `UnreadableCommitIsAnnouncedAgain`);
* it recovers the metadata too as long as each indexed path has the metadata it had when it last
  entered the index and no path was lost with an unreadable commit (`LogTellsMetadata`,
  `UpdatesAreSilent`, `UpdateLeavesLogBehind`);
* the cached index is the served tree as long as the last refresh that read objects read all
  documents (`RefreshDecidesCache`, `CacheIsServedTree`, `UnreadableCommitIsAnnouncedAgain`);
* a polling session gets every event for it unless one had left the window before the poll that
  asked for it, or a counter runs ahead by one (`SessionMissesExactly`, `WindowOverflows`,
  `EventBetweenReads`);
* when nothing breaks, a clean store makes every write that passes the version check unless it is
  behind the remote; then the write returns an error, the branches diverge, and no operation of
  the store succeeds any more (`CleanStoreApplies`, `WritingBehindIsFatal`, `WriteBehindDiverges`);
* the live stream filter equals the backlog filter except on paths that go on after the prefix
  without a slash (`LiveFilterIsWider`, `FiltersDiffer`);
* the token rules equal "some record allows" unless a forbidding record of the id comes first
  (`EarlierRecordForbids`, `DuplicateIdForbids`).

For optimistic locking the conditions are sufficient ones: no Delete of the document in between
(`DeleteRestartsVersions`, `DeletionHidesTheChange`), no Apply that takes an unreadable file for
a missing one (`MisreadRestartsVersions`), and expected version 1 counts twice
(`AtMostTwoSwapsOfOne`, `ExpectedOneSucceedsTwice`).

`docs/DESIGN.md` says that system documents are not exposed through the document API except to
an administrator. The code asks for one on PUT only (`PutDocument`); a GET or DELETE goes by the
ordinary rules (`SystemPathsAreOrdinary`, `TokenReachesSystem`). It also gives an owner as
`oidc:{iss}:{sub}`, while the code writes the kind and the id of the principal. The model
follows the code.

## Model

| member | source | states |
|---|---|---|
| Documents.MarshalParse | pkg/document/envelope.go:29-47 | What Marshal wrote says schema 1 and is otherwise the envelope; parsing gives it back. |
| Documents.ParsedHolds | pkg/document/envelope.go:29-41 | A file parses exactly when the library reads it and its schema is missing or 1, and then to the envelope with schema 1. |
| Documents.GitPathBySegments | pkg/document/envelope.go:50-56 | Two or more segments below system stay as they are; every other path goes under data. |
| Documents.SecretsBySegments | pkg/document/envelope.go:59-62 | By default exactly what lies below the segment secrets is encrypted. |
| Documents.GitPathInjective | pkg/document/envelope.go:50-56 | Two API paths name one file exactly when they differ at most in one leading slash. |
| Text.UnderIsSegmentPrefix | pkg/changes/broker.go:90-95 | The string test of hasPrefix is prefix order on slash-split segments. |
| Text.LessIsLexicographic | pkg/store/index.go:62 | The order of listed paths is lexicographic in their bytes. |
| Keyrings.LoadKeyRing | pkg/crypto/keyring.go:21-50 | Succeeds iff the file was readable, some line is neither blank nor a # comment, and all such lines are base64 of 32 bytes; then the ring is those keys in order. Trimming is the library's. |
| Keyrings.Decrypt | pkg/crypto/keyring.go:72-105 | Returns a plaintext iff the text decodes to at least 12 bytes, and some key opens what follows the 12 with them as the nonce to that plaintext, and no key before it opens it. |
| Keyrings.SealedUnderFirstKey | pkg/crypto/keyring.go:53-69 | What is written decodes to the 12-byte nonce and what the first key sealed with it. |
| Keyrings.DecryptAfterRotation | pkg/crypto/keyring.go:53-89 | Decrypting what a ring encrypted gives the plaintext iff the reading ring holds the sealing ring's first key, at any position. |
| Changes.Broker.Publish | pkg/changes/broker.go:39-57 | Appends one event with the next revision to the full log, keeps the window the log's end, and offers the event to each channel without blocking. |
| Changes.Broker.Subscribe | pkg/changes/broker.go:59-65 | Registers a new empty channel of the given capacity, nothing else changes. |
| Changes.Broker.Unsubscribe | pkg/changes/broker.go:67-72 | Removes one live channel and closes it: its buffer stays to be drained, and Publish no longer reaches it. |
| Changes.Broker.Since | pkg/changes/broker.go:74-88 | Returns, in order, exactly the last 512 events after a revision and under a prefix; this is the filter of the whole log whenever the revision is within 512 of the current one. |
| Changes.WindowIsEnough | pkg/changes/broker.go:42-45 | The windowed answer equals the filter of the full log exactly when no wanted event has left the window. |
| Indexes.Index.Snapshot | pkg/store/index.go:66-74 | Copies the map, in any iteration order. |
| Indexes.Index.List | pkg/store/index.go:47-64 | Returns, ascending and once each, exactly the entries whose path has the prefix and whose label (a missing one is "") is the one asked for, if one is. |
| Indexes.ListingIsUnique | pkg/store/index.go:47-64 | There is only one such sequence, so the result does not depend on map order. |
| StoreOutcomes.VersionOutcome | pkg/store/gitstore.go:290-302 | The check passes with version 1 for a new file and expected at most 1, and with the 64-bit successor for an intact file of the expected version (any, if 0 or less); it is a conflict iff the client expects another version, and malformed iff the file is. |
| StoreOutcomes.AppliedDocument | pkg/store/gitstore.go:304-362 | A nil Apply returns, and a read then gives, the body, owner and content type (application/yaml by default) it was given with the due version; the file keeps them, sealed under the first key iff asked for. |
| StoreOutcomes.ApplyConflicts | pkg/store/gitstore.go:290-302 | Apply is a conflict iff the client expects another version than there is, and then nothing changes. |
| StoreOutcomes.DeleteConflicts | pkg/store/gitstore.go:365-375 | Delete is NotFound iff no file can be read and Conflict iff an intact file has another version; then nothing changes. |
| StoreOutcomes.PublishOutcome | pkg/store/gitstore.go:328-353 | What git add, commit and push leave and return for every combination of faults, "nothing to commit" included. |
| StoreOutcomes.ApplyOutcome | pkg/store/gitstore.go:285-363 | A refused or unwritable Apply changes nothing; any other writes its file and publishes as above. |
| StoreOutcomes.DeleteOutcome | pkg/store/gitstore.go:365-398 | What a Delete returns and leaves for every combination of faults; it removes only a file that is as in HEAD in the worktree and the staging area. |
| StoreOutcomes.PollOutcome | pkg/store/gitstore.go:141-160 | A Poll moves the branch and exactly the files that differ iff the remote is ahead and none of them blocks the merge; when it returns nil. |
| StoreOutcomes.PollKeepsDirtyFiles | pkg/store/gitstore.go:151-158 | A Poll changes no file that differs from HEAD. |
| StoreOutcomes.ReadOutcome | pkg/store/gitstore.go:255-279 | A read gives the file's envelope, decrypted if it says so, and each error in exactly its case. |
| StoreSafety.BranchesOnlyGrow | pkg/store/gitstore.go:155-351 | In every run both branches only grow by extension. |
| StoreSafety.AcknowledgedApply | pkg/store/gitstore.go:285-363 | A nil Apply leaves local tip, remote tip and served commit equal, holding exactly the marshalled envelope at the path, also when there was nothing to commit. |
| StoreSafety.AcknowledgedDelete | pkg/store/gitstore.go:365-398 | A nil Delete leaves them equal without the path, which was in HEAD before. |
| StoreSafety.AcknowledgedStays | pkg/store/gitstore.go:342-397 | An acknowledged commit stays in both branches in every later state. |
| StoreSafety.SuccessPublishesTheStagingArea | pkg/store/gitstore.go:342-353 | The published tree is the staging area with the one path set or removed, so bodies staged by earlier failed Applies go out with it. |
| StoreSafety.DivergenceIsAbsorbing | pkg/store/gitstore.go:151-158 | Once neither branch extends the other, no Apply, Delete or Poll returns nil any more. |
| StoreSafety.DivergingStep | pkg/store/gitstore.go:151-397 | A step drives comparable branches apart exactly when the store commits while it is behind, or another writer while the store has unpushed commits, and not the same commits. |
| StoreSafety.DivergenceStarts | pkg/store/gitstore.go:151-397 | The branches of a run have diverged exactly when one of its steps drove them apart. |
| StoreSafety.AppliedIsServed | pkg/store/gitstore.go:308-362 | After a nil Apply the document reads back as returned, at once. |
| StoreSafety.NilPollIsCaughtUp | pkg/store/gitstore.go:141-160 | A nil Poll means the fetched tip is HEAD or its ancestor, and HEAD is served. |
| StoreSafety.DirtyOnlyAfterAnError | pkg/store/gitstore.go:328-353 | A file differs from HEAD only if its last Apply or Delete failed, or it did at the start; merges and other commits never dirty it. |
| StoreSafety.CleanStoreApplies | pkg/store/gitstore.go:290-356 | In a clean store whose branches are comparable, without faults, Apply succeeds iff the version check does and the store is not behind; if it is, a passed check makes the branches diverge. The store stays clean. |
| StoreSafety.CleanStoreDeletes | pkg/store/gitstore.go:365-397 | Likewise for Delete, when the file is there and the version check passes. |
| StoreSafety.WritingBehindIsFatal | pkg/store/gitstore.go:342-353 | After one faultless Apply in a clean store that is behind, it and every later operation of the store return an error. |
| StoreSafety.CleanStorePolls | pkg/store/gitstore.go:151-159 | Without faults a clean store catches up with the remote iff the branches have not diverged. |
| StoreSafety.Provenance | pkg/store/gitstore.go:315-353 | Whatever any copy holds at a path was there at the start, or was written there by an Apply with that body (failed ones included) or by another writer. |
| StoreSafety.RoundTrip | pkg/store/gitstore.go:255-362 | After a nil Apply and operations that leave the file alone, a read returns the very envelope Apply returned, with any ring holding the sealing key; a plain one with any ring. |
| StoreVersions.AtMostOneSwap | pkg/store/gitstore.go:290-302 | In a run in which only Applies move the file and none misreads it, failed ones included, at most one Apply with a given expected version above 1 succeeds. |
| StoreVersions.AtMostTwoSwapsOfOne | pkg/store/gitstore.go:296-302 | For expected version 1, at most two. |
| StoreVersions.SwapReplacesWhatWasRead | pkg/store/gitstore.go:291-299 | A conditional success overwrites the very file a reader of that version saw, and returns expected version + 1. |
| StoreVersions.BranchVersionsIncrease | pkg/store/gitstore.go:299-350 | In a run without a merged change or a misread of the path, or a Delete of it that does anything, the successive commits that change it carry strictly increasing versions, also after failed Applies. |
| StoreVersions.CleanStartsInOrder | pkg/store/gitstore.go:328-350 | A clean file meets the starting condition of BranchVersionsIncrease. |
| StoreVersions.DeleteRestartsVersions | pkg/store/gitstore.go:290-302 | After a Delete the next Apply makes version 1 and passes only with expected version at most 1. |
| StoreVersions.MisreadRestartsVersions | pkg/store/gitstore.go:291-302 | An Apply that cannot read an existing file and expects at most 1 replaces it by version 1, whatever it was, and can return nil. |
| Scenarios.ExpectedOneSucceedsTwice | pkg/store/gitstore.go:296-302 | The input on which two Applies with expected version 1 succeed. |
| Scenarios.DeletionHidesTheChange | pkg/store/gitstore.go:290-302 | The input on which a conditional Apply overwrites what its client never saw, across a Delete. |
| Scenarios.WriteBehindDiverges | pkg/store/gitstore.go:342-353 | From an opened store: another writer commits, and an Apply in which nothing breaks errs and makes the branches diverge. |
| StoreCache.RefreshDecidesCache | pkg/store/gitstore.go:176-214 | When the index is the projection of the served tree after a refresh, whatever it was before: the early return keeps it as it is, a complete read makes it right, and a failed read leaves it right under exactly the stated condition. |
| StoreCache.RefreshKeepsLog | pkg/store/gitstore.go:184-225 | A refresh keeps "replay of the log = key set of the index" and alternation per path exactly unless it gets to an unreadable commit while the index is not empty. |
| StoreCache.RefreshTells | pkg/store/gitstore.go:215-225 | A refresh publishes one upsert with its metadata for each new path and then one deletion without any for each lost one, and nothing else. |
| StoreCache.OpenedStore | pkg/store/gitstore.go:125-227 | After opening, the log replays to the index with its metadata, and the index is HEAD's tree iff no document comes after an unreadable file. |
| StoreCache.CacheIsServedTree | pkg/store/gitstore.go:176-214 | At every release of the lock the index is the projection of the served tree exactly when the last refresh that read objects read all documents (or emptied the index while the served tree holds none). |
| StoreCache.LogReplaysToIndex | pkg/store/gitstore.go:184-225 | In any run and for any map order, replaying the full log yields the index's key set exactly until a refresh finds its commit unreadable while the index is not empty, and never after. |
| StoreCache.AlternationPerPath | pkg/store/gitstore.go:215-225 | The events of one path go upsert, delete, upsert, starting with upsert. |
| StoreCache.LogTellsMetadata | pkg/store/gitstore.go:184-225 | At any point of any run the log recovers the index's metadata exactly when no indexed path has other metadata than when it last entered, and no path taken out by an unreadable commit is still missing. |
| StoreCache.UpdatesAreSilent | pkg/store/gitstore.go:184-225 | When the log recovers the metadata after one refresh, whatever it told before; a right log stays right exactly when no path that stays changes metadata and the index is not emptied. |
| Scenarios.UpdateLeavesLogBehind | pkg/store/gitstore.go:216-220 | From an opened store, a successful update after which the log tells old metadata. |
| StoreCache.EmptiedIndexIsAnnouncedAgain | pkg/store/gitstore.go:185-220 | After an unreadable commit emptied the index, the next refresh breaks alternation. |
| Scenarios.UnreadableCommitIsAnnouncedAgain | pkg/store/gitstore.go:184-220 | From an opened store, an Apply whose commit cannot be read back, after which the index and the replayed log are wrong, and a faultless Poll, after which the log does not alternate. |
| StoreCache.ListedIsReadable | pkg/store/gitstore.go:255-283 | With HEAD served and the cache right, a path without a failed operation behind it is listed iff readable (up to decryption), with the version, content type and owner read. |
| Listings.ListSeesOneTree | pkg/store/gitstore.go:185-283 | A List interleaved with refreshes sees the projection of part of one tree, all of it if that index was complete, never a mix. |
| Listings.RefreshIsSwapThenVisits | pkg/store/gitstore.go:184-213 | The visits a refresh makes, after a swap, leave a complete new current index and the others as they were. |
| GitStores.GitStore.FillIndex | pkg/store/gitstore.go:194-213 | Fills the new index, in any file order, through the states a concurrent List may see, to the projection of the tree. |
| GitStores.GitStore.Open | pkg/store/gitstore.go:125-129 | The initial refresh, as a step of the state machine. |
| GitStores.GitStore.RefreshIndex | pkg/store/gitstore.go:176-227 | Fills a new index file by file and publishes the difference in any map order, as the state machine says; a held old index is not written. |
| GitStores.GitStore.Apply | pkg/store/gitstore.go:285-363 | Takes an Apply step; when nil the copies agree, and the result, a read and the file hold the document as it was given. |
| GitStores.GitStore.Delete | pkg/store/gitstore.go:365-398 | Takes a Delete step; when nil the copies agree and a read finds nothing. |
| GitStores.GitStore.Poll | pkg/store/gitstore.go:141-160 | Takes a Poll step; when nil HEAD is served and holds the remote. |
| GitStores.GitStore.ReadDocument | pkg/store/gitstore.go:255-279 | Reads, parses and decrypts the worktree file; not found when it cannot be read, NotReady before opening. |
| GitStores.GitStore.List | pkg/store/gitstore.go:281-283 | The sorted selection of the current index. |
| Streams.UninterruptedPublish | pkg/changes/broker.go:39-57 | The publisher's three critical sections, run without a break, append one event and offer it to the subscriber as Publish does. |
| Streams.StreamIsOrdered | pkg/api/server.go:266-291 | In every interleaving with the publisher a stream is written in strictly increasing revision order, without duplicates across backlog and live events. |
| Streams.AuthorizationDecides | pkg/api/server.go:266-291 | In every interleaving an event is written iff the handler asked about it and was told yes, and refused iff it asked and was told no, at that moment. |
| Streams.OnlyWhatMayBeRead | pkg/api/server.go:267-287 | With fixed rules everything written may be read by the client, and everything refused may not. |
| Streams.StreamIsExact | pkg/api/server.go:266-291 | An event of the log is written iff its filter (backlog or live) passes it, the client may read it, it was not published between Since and Subscribe, met no full buffer and is not on its way. |
| Streams.LossNeedsFullBuffer | pkg/changes/broker.go:49-56 | An event is lost only when 32 are waiting in the handler's channel. |
| Streams.KeepingPaceLosesNothing | pkg/api/server.go:274 | A stream in which never 32 events wait loses none. |
| Streams.LiveFilterIsWider | pkg/api/server.go:282 | The live filter admits all that the backlog filter does, and they differ exactly on paths that go on after a nonempty prefix with something other than a slash. |
| Streams.FiltersDiffer | pkg/changes/broker.go:90-95 | Two inputs on which they differ: a longer name, and a prefix that ends in a slash. |
| Polling.SessionMissesExactly | pkg/api/server.go:254-306 | A polling session of any length gets the filtered log, each event once, exactly when no event for the client had left the window before the poll that asked for it and none was run ahead of by a counter; it never gets too much. |
| Polling.PollingIsExact | pkg/api/server.go:254-306 | If every revision sent back is the length of the log seen, the window alone decides. |
| Polling.KeepingUp | pkg/changes/broker.go:42-45 | A client never more than 512 events behind loses nothing to the window. |
| Polling.WindowOverflows | pkg/changes/broker.go:42-45 | 513 events between two polls, of which the session misses one. |
| Polling.EventBetweenReads | pkg/api/server.go:296-306 | An event numbered between the two reads of a poll, which the session never gets. |
| Watchers.PollingClientKnowsIndex | pkg/api/server.go:254-306 | A client that polls from 0 and replays the replies knows exactly the indexed paths in scope that it may read. |
| Watchers.StreamingClientKnowsIndex | pkg/api/server.go:266-291 | The same for a stream that misses only what the client may not read. |
| Client.CutIsLeftmost | pkg/client/client.go:181-187 | Frames and tail together are the bytes, each frame ended by the first blank line after its start, and the tail has none. |
| Client.EventsOfDataFrames | pkg/client/client.go:188-196 | A frame gives an event iff it begins with "data: " and the rest decodes; others are skipped. |
| Client.DeliversUpToRefusal | pkg/client/client.go:191-193 | The callback gets the events in order up to and including the first it refuses. |
| Client.Watch | pkg/client/client.go:175-209 | For every split into reads the callback gets what a one-shot leftmost parse of the bytes read delivers, up to its first refusal; unless refused it ends exactly at the first read that is the end, broken, or followed by a done context, and says which. |
| Client.WrittenReadsBack | pkg/api/server.go:270-271 | Parsing the server's output cut off anywhere gives exactly the events whose frames are complete. |
| Auth.PathMatchBySegments | pkg/auth/auth.go:260-271 | Pattern matching is a comparison of path segments. |
| Auth.IssuerRulesDecide | pkg/auth/auth.go:226-246 | A user signed in through an issuer may read what the read part of some covering rule gives to all signed in or to a group of theirs, and write what the write part gives. |
| Auth.TokenRecordsDecide | pkg/auth/auth.go:207-222 | A token may do what a record of its id covers, unless that record or an earlier one of the id names actions without this one. |
| Auth.UniqueIdsAllow | pkg/auth/auth.go:207-222 | With unique token ids the early exits equal "some record, some pattern, some permitted action". |
| Auth.EarlierRecordForbids | pkg/auth/auth.go:212-214 | In general they differ exactly when a forbidding record of the id stands before all that allow. |
| Auth.DuplicateIdForbids | pkg/auth/auth.go:208-214 | Two records of one id on which they differ. |
| Auth.SystemPathsAreOrdinary | pkg/auth/auth.go:196-246 | When a GET or DELETE of a system document is let through: by the same rules as for any other path. |
| Auth.TokenReachesSystem | pkg/auth/auth.go:207-222 | A token with pattern ** may read and write system/tokens.yaml. |
| Auth.Engine.LoadIssuers | pkg/auth/auth.go:109-132 | Replaces the issuers; a rule is in force iff some issuer has it; nothing changes on a parse error. |
| Auth.Engine.Authorize | pkg/auth/auth.go:196-246 | The nested loops decide exactly the declarative rule: bootstrap, a token record, or an issuer rule that matches and is met. |
| Auth.Engine.TokenAllowsAction | pkg/auth/auth.go:248-258 | True iff the action list is empty or holds the action. |
| Server.Server.DocumentList | pkg/api/server.go:133-144 | Returns, sorted and once each, the indexed entries passing the filters that a GET by the same principal would authorize. |
| Server.Server.GetDocument | pkg/api/server.go:147-175 | Status and body of a GET, from authorization and the store. |
| Server.Server.PutDocument | pkg/api/server.go:176-219 | A refused PUT changes nothing; any other is one Apply, 409 iff the version expected (a numeric If-Match wins) is not there; after 200 the answer, a read and the file hold the given document, owned by kind:id, sealed iff asked for or, without a word, below secrets. |
| Server.Server.DeleteDocument | pkg/api/server.go:220-238 | A refused DELETE changes nothing; any other is one Delete, 404 iff there is no file to read, 409 iff it has another version than expected, 204 when it is gone everywhere. |
| Server.Server.PollChanges | pkg/api/server.go:296-306 | The reply is, in order, exactly the last 512 events after `since`, under the prefix, that the principal may read, with the current revision. |
| Server.Server.WriteBacklog | pkg/api/server.go:266-273 | The bytes written for the backlog are the frames of those events. |
| Operator.ParentAdmits | operator/internal/controller/watch_manager.go:48-51 | The derived prefix is the parent directory by segments, and both server filters let the document pass. |
| Operator.RunStream | operator/internal/controller/watch_manager.go:52-57 | Whatever the server wrote and however it was cut, Reconcile runs once per arrived event about the document and for no other, in order, and stops only after a failed run; how else the stream ends is as in Watch. |
| Operator.WatchManager.Sync | operator/internal/controller/watch_manager.go:23-59 | Keeps at most one uncancelled stream per HubPull, and starts, keeps or cancels it as the source does. |

## Left out

- Store.PollRepo: a failing fetch always ends the poll, because git prints "Already up to date" for merges only; a fetch that fails with that phrase in its output is not modelled.
- StoreSafety.CleanStoreApplies: when behind, takes for granted that the new commit and the other writer's differ in their stamp; DivergingStep does not.
- StoreVersions.AtMostOneSwap: asks that versions start below the point where Go's int wraps within the run; that no Delete, merge or misread moves the file is sufficient, not necessary.
- Streams.StreamIsExact: the handler stays connected; the race of a late send with the close in Unsubscribe (pkg/changes/broker.go:50-70) is not modelled, and nothing is claimed about it.
- Streams.StreamIsExact: takes the authorization rules as fixed during a stream; AuthorizationDecides does not.
- Polling.PollingIsExact: takes the authorization rules as fixed during a session.
- Operator.WatchManager.Sync: a stream that ends by itself stays recorded, as in the source; the goroutine itself is RunStream.
- Indexes.Index.List: asks that entries are stored under their own path, which the one caller of Set does.
- Keyrings.LoadKeyRing: takes the scanner's lines as given.
- A write of a file, a `git rm` and a merge are atomic: none leaves a file half written or a tree half checked out.
- File modes, ignored files, and files that clash with directories (such a write or merge fails, which the faults cover).
- History is linear: a merge commit of another writer counts as one commit; nobody rewrites the remote branch.
- Cloning, git identity, access tokens and `setRemoteURL`.
- Paths that need cleaning: `..`, doubled slashes and symbolic links.
- HTTP decoding and encoding, the choice among several `label.` parameters, OIDC validation, JWT and bcrypt.
- Reading system files and reloading authorization on a timer.
- Revision numbers are unbounded; the source's 64-bit counter starts at 0.
- The CLI, backups, deployment files, and the reconciler's templates and cluster calls.
