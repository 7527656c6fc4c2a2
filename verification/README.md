# A model of a sentence-locking document store

NetworkDoc is a document store made of a name server, storage servers and clients. Documents are split
into sentences and sentences into words; a client locks a sentence at the name server, reads the document
from a storage server, edits words, sends the text back and releases the lock. This project models the
four parts that carry the logic and proves what they promise, over all inputs, all runs and all
interleavings.

- **Text engine** (`Text`, `Conservation`, `WordEdit`, `PlainText`, `TextLoops`). The two bounded
  splitters and the joins, once as a declaration (cut, clip to the buffer, drop the blank pieces, keep the
  first so many) and once as the buffer-filling loops of the C code, which are proved to compute the same
  lists. On top: round trips with their exact limits, what is conserved, the frame of a word edit, and
  commutation of edits.
- **Exchange formats** (`Scan`, `Location`). The `%d`, `%[^c]` and `%s` conversions the programs rely on,
  the two shapes of a write, and the location strings that the name server prints and the client reads.
- **Trie** (`Tries`). The heap structure with its insert loop, its pruning recursive delete and its bounded
  collector. The inline child array of the C node is a field of the node, as a sequence of 256 references.
- **Name server** (`NameServerSpec`, `Permissions`, `NameServerRuns`, `NameServerBalance`, `Answers`,
  `NameServerEffects`, `NameServers`). A state machine over the lock table, the two SQL tables, the trie index
  and the server list; what each request does and when it is granted; what the client reads from its answers;
  and a class with the fixed arrays of the C code whose handlers are proved to make exactly the steps of the
  machine.
- **Storage server** (`StorageSpec`, `StorageRuns`, `Checkpoints`, `Paths`, `StorageEffects`,
  `StorageServers`). The same for
  contents, undo slots, checkpoints and cached statistics, and why its directories may be modelled as maps.
  The handlers without a loop only walk the branches of their steps; they support `HandleRequest`.
- **Write session** (`ClientWrite`, `Protocol`, `Versions`). The client's edit loop, and the distributed
  protocol of any number of sessions, composed of the two state machines and an environment: on one sentence,
  where no update is lost, and on different ones, where it is proved exactly when one is.
- **Where it falls short** (`Witnesses`, `StorageWitnesses`). An input or a run for each of the differences
  listed below, and for the limits of the text engine; the exact conditions stand with the operations.

Conventions. A C string is a `string`; where a buffer or a file is involved it contains no terminator.
SQL tables are maps, files are maps from name to content, the clock and the outcome of an INSERT are inputs
of a request, a socket is the identity of a client. A request is one atomic step, because each handler holds
its server's mutex throughout. Sizes of fixed buffers are preconditions: one word, sentence and document for
a word edit (`WordEdit.FitsEdit`), lines, words, sentence and document for a session
(`ClientWrite.FitsSession`), and the message fields (`StorageSpec.FitsBuffers`, `StorageSpec.FitsCommand`,
`NameServerSpec.WellFormed`).

Where the code and its documentation, or what one would expect of it, differ, the model follows the code:

- UNDO does not keep the current text for a redo (comment at `src/storageserver/ss_handlers.c:384`): a second
  UNDO gives the text back exactly when the first one changed nothing (`StorageRuns.UndoIsNoRedo`; a run:
  `StorageWitnesses.NoRedo`).
- A refused request changes nothing, except that a word edit at a bad position has already overwritten the
  undo slot; exactly when that shows: `StorageRuns.RefusalsExactly`; a run:
  `StorageWitnesses.RefusedButChanged`.
- The repository's own README describes sentence locks as a good balance between concurrency and complexity
  (section "Why Sentence-Level Locking?"), but a session sends the whole document, so sessions on different
  sentences keep each other's edits exactly when each writes to the text it had read
  (`Versions.RunIsSerialExactly`, for two sessions `ClientWrite.OtherSentenceIsLost`; a run:
  `Witnesses.LostEditRun`).
- REMACCESS trims its argument in place but goes on reading at its start, so it revokes the grant it names
  exactly when the argument does not begin with a blank (`NameServerRuns.RevokesExactly`; an input:
  `Witnesses.BlankBeforeName`).
- A lock is kept although the answer to the request is an error, exactly when all that was wrong is that the
  document's storage server is not registered (`NameServerRuns.RefusedLockStays`; a run:
  `Witnesses.LockWithoutServer`).
- The client does not find the replica behind a command that contains the replica tag; every replica is found
  exactly when the command does not (`Location.CommandIsSafe`, `Location.CommandShadows`; an input:
  `Witnesses.HiddenReplica`).
- A checkpoint cannot be made under a tag with a slash: the file would lie in a directory that does not
  exist. CREATE answers with an error and REVERT finds nothing (`Checkpoints.CheckpointFidelity`; an input:
  `StorageWitnesses.SlashInTag`).
- Checkpoints of different documents can meet in one file, exactly when neither tag has a slash and one ends
  in an underscore and the other (`Checkpoints.TagsClashExactly`; a run: `StorageWitnesses.MixedCheckpoints`).

## Model

| member | source | states |
|---|---|---|
| Text.TrimUnique | src/common/utils.c:32-50 | `trim` returns the one core without outer blanks that leaves only blanks around it; blanks are space, tab, CR and LF |
| Text.TrimSplits | src/common/utils.c:32-50 | every string is blanks, its trimmed core, blanks |
| Text.ParseNormalForm | src/common/utils.c:77-117 | every parsed sentence is trimmed, non-empty, fits 1023 characters and has a delimiter at most as its last character; there are at most `max` of them |
| Text.RoundTrip | src/storageserver/ss_handlers.c:173-178 | a list of sentences survives joining and parsing if and only if all but the last end in a delimiter and all but the first have at most 1022 characters |
| Text.RoundTripExactly | src/storageserver/ss_handlers.c:173-178 | any list of strings whatsoever survives joining and parsing if and only if it consists of at most 1000 sentences and is canonical |
| Text.ParseJoinParse | src/common/utils.c:77-117 | for any text whatsoever, rebuilding from its sentences and parsing again gives the same sentences exactly under that condition |
| Text.MergedSentencesAreLost | src/common/utils.c:87-102 | a sentence without delimiter before the last one merges with its successor |
| Text.FullSentenceIsCut | src/common/utils.c:85-87 | a later sentence of 1023 characters loses one to the joining space |
| Witnesses.FullSentence | src/common/utils.c:85-87 | a text whose second sentence has 1023 characters, and is cut when the text is rebuilt |
| Witnesses.MergedSentences | src/common/utils.c:85-102 | a text whose first sentence is cut before its delimiter, and merges with the second |
| Witnesses.LongWords | src/common/utils.c:119-152 | a word of 127 characters stays, one of 128 is cut |
| Witnesses.ManyWords | src/common/utils.c:119-152 | a sentence keeps a hundred words and no more |
| Witnesses.Marks | src/common/utils.c:87-92 | full stop, exclamation and question mark end a sentence, other marks do not |
| Witnesses.Blanks | src/common/utils.c:119-152 | blank, tab, line feed and carriage return separate words, a form feed does not |
| Conservation.ParseIsPart | src/common/utils.c:77-117 | the parsed sentences, put together, are a subsequence of the text; the rebuilt text is longer by at most the separating spaces |
| Conservation.NothingLost | src/common/utils.c:85-116 | the visible characters survive in order exactly when nothing but blanks overflows a sentence buffer and the list is not full |
| Conservation.OnlyLastIsOpen | src/common/utils.c:92-116 | without truncation all sentences but the last end in a delimiter |
| Conservation.TokensStrip | src/common/utils.c:125-141 | before clipping, the words of a sentence are its visible characters in order |
| Conservation.WordRoundTrip | src/common/utils.c:119-152 | parsing joined words gives them back exactly when there are at most `max` and each has at most 127 characters |
| Conservation.WordsIdempotent | src/common/utils.c:119-152 | parse, join, parse equals parse on every sentence, over-limit ones included |
| Conservation.WordsNeverGrow | src/storageserver/ss_handlers.c:165-171 | the joined words are never longer than the sentence they came from |
| TextLoops.TrimBuffer | src/common/utils.c:32-50 | in a buffer: the string at the returned offset is the trimmed one, and at the start of the buffer only the tail has been cut off |
| TextLoops.FlushSentence | src/common/utils.c:93-102 | one buffered piece is emitted trimmed, unless blank, and the buffer is cleared |
| TextLoops.ParseSentences | src/common/utils.c:77-117 | the loop fills the output array with exactly the declared sentence list |
| TextLoops.ParseWords | src/common/utils.c:119-152 | the loop fills the output array with exactly the declared word list |
| TextLoops.JoinLoop | src/storageserver/ss_handlers.c:167-170 | the strcat loop builds the space-separated join |
| PlainText.EditNoNul | src/storageserver/ss_handlers.c:162-180 | an edit of terminator-free text yields terminator-free text |
| WordEdit.EditFrame | src/storageserver/ss_handlers.c:126-180 | the edited sentence has the old words with one replaced, and the saved text parses to the intended sentences exactly when that list is canonical |
| WordEdit.EditReadsBackExactly | src/storageserver/ss_handlers.c:126-180 | for any edit that fits the buffers, the saved text reads back as intended exactly when the new sentence is one sentence and the list is canonical |
| WordEdit.EditOkReadsBack | src/storageserver/ss_handlers.c:126-180 | under conditions on the word, the delimiters and the lengths of word, sentence and document that can be checked beforehand, the saved text reads back as the intended sentences |
| WordEdit.EditsCommute | src/storageserver/ss_handlers.c:140-180 | two such edits at different positions give the same bytes in either order, and if one order fits the buffers so does the other |
| WordEdit.LastEditWins | src/storageserver/ss_handlers.c:140-180 | after such an edit, another one at the same position leaves only its own result |
| Scan.IntRoundTrip | src/nameserver/nm_handlers.c:226-226 | a printed integer is scanned back, whatever non-digit follows |
| Scan.ValueByPlace | src/nameserver/nm_handlers.c:226-226 | the first digit of a numeral weighs the most, each next one a tenth |
| Scan.ScanNumeral | src/client/client_commands.c:180-180 | blanks, a sign and digits are read as that number, up to the first other character |
| Scan.ScannedNumeral | src/client/client_commands.c:180-180 | nothing else is ever read as a number |
| Scan.WordCommandRoundTrip | src/storageserver/ss_handlers.c:122-127 | a printed word edit is taken as that edit, up to its first line break, and as a full write only if no text is left |
| Scan.WordCommandExactly | src/storageserver/ss_handlers.c:122-127 | data is taken for the edit of word `w` of sentence `s` exactly when it is number, bar, number, bar and a non-empty line, in this order |
| Location.LocationRoundTrip | src/client/client_main.c:185-205 | the client recovers primary and replica from every form the name server prints |
| Location.ReadsPrimary | src/client/client_main.c:194-198 | the first `SS:` address is the primary, whatever follows it |
| Location.CommandIsSafe | src/nameserver/nm_handlers2.c:378-385 | behind a command the replica is recovered for every address exactly when the command does not contain the replica tag |
| Location.CommandShadows | src/client/client_main.c:199-204 | a command with text behind its first replica tag hides every replica whose ip starts differently |
| Witnesses.HiddenReplica | src/client/client_main.c:199-204 | a checkpoint tag that hides the replica 127.0.0.1:9002 |
| Answers.AnswersLeadToServers | src/nameserver/nm_handlers.c:70-327 | in every reachable state whose servers registered valid addresses, the client reads from the answer to a granted CREATE, READ or WRITE the address of the server in the document's row (for READ, of its replica if the server is not registered), and with CREATE and WRITE that of the replica |
| Answers.RunKeepsAddresses | src/nameserver/nm_handlers.c:14-24 | over any run the recorded addresses stay valid |
| Witnesses.PrintedAnswer | src/nameserver/nm_handlers.c:307-313 | one answer to a lock request, character by character |
| Tries.Trie.constructor | src/common/trie.c:14-19 | a new trie is valid, empty and owns only new objects |
| Tries.Trie.Insert | src/common/trie.c:21-40 | adds exactly one word; the trie stays valid: links, end marks, file names and size spell out the word set, and every node is needed |
| Tries.Trie.Search | src/common/trie.c:42-54 | is membership |
| Tries.Trie.DeleteHelper | src/common/trie.c:56-94 | removes the word, prunes only nodes below its path that no other word needs, and tells the caller whether this node has become useless |
| Tries.Trie.Delete | src/common/trie.c:96-101 | removes exactly one word and keeps the trie valid |
| Tries.Trie.NodesArePrefixes | src/common/trie.c:21-101 | the nodes are exactly the root and the prefixes of stored words |
| Tries.SameWordsSameShape | src/common/trie.c:21-101 | nodes, end marks, file names and size are a function of the word set |
| Tries.InsertThenDelete | src/common/trie.c:21-101 | inserting a new word and deleting it restores the shape |
| Tries.Trie.CollectWords | src/common/trie.c:125-140 | below any node: the first words in unsigned byte order, up to the room that is left; earlier results stay |
| Tries.Trie.SearchPrefix | src/common/trie.c:142-160 | returns the first `max` stored words with the prefix in strictly increasing order, and leaves the trie alone |
| Tries.FirstOfUnique | src/common/trie.c:125-160 | that description determines the result list |
| Tries.FirstOfLength | src/common/trie.c:134-134 | the result has min(max, matches) entries |
| Tries.LessExactly | src/common/trie.c:131-139 | the order of the results is that of the first differing byte, a prefix coming first |
| NameServerRuns.RunKeepsInv | src/nameserver/nm_handlers.c:20-27 | in every run: index equals file names, slot i holds id i+1, at most 10 servers and 100 locks, no two locks on a sentence, access rows only for existing files |
| NameServerRuns.StepKeepsInv | src/nameserver/nm_main.c:103-156 | each request keeps that invariant |
| NameServerRuns.LockGrantedExactly | src/nameserver/nm_handlers.c:219-327 | exactly when a lock request succeeds |
| NameServerRuns.GrantTakesLock | src/nameserver/nm_handlers.c:270-278 | a granted request leaves the connection holding the sentence |
| NameServerRuns.DifferentSentences | src/nameserver/nm_handlers.c:247-278 | requests for two free sentences of one document are both granted, whoever sends them |
| NameServerRuns.RefusedLockStays | src/nameserver/nm_handlers.c:270-315 | exactly when a refused lock request leaves its lock in the table |
| Witnesses.LockWithoutServer | src/nameserver/nm_handlers.c:270-315 | a restarted name server does so |
| NameServerRuns.LockExcludes | src/nameserver/nm_handlers.c:247-268 | until the holder commits with the recorded user name, the lock stays and every competing request is refused without effect, at every moment of every run |
| NameServerRuns.CommitReleasesOne | src/nameserver/nm_db.c:139-159 | a commit removes at most the committer's own entry and keeps the others in order |
| NameServerRuns.GetSsExactly | src/nameserver/nm_db.c:129-137 | an id finds the server in slot id - 1, other ids find nothing |
| NameServerRuns.PermissionIsHistory | src/nameserver/nm_db.c:93-127 | from an empty database a permission holds exactly when the user created the current incarnation of the file, or the last grant or revocation since is a grant with all the required bits set |
| NameServerRuns.LivesReflect | src/nameserver/nm_db.c:69-91 | over any number of restarts the invariant holds and the two tables reflect the whole history |
| NameServerRuns.PermissionSurvivesRestarts | src/nameserver/nm_db.c:93-127 | the permission check answers by the history since the very first start, grants counting bit by bit |
| Permissions.HasBitsExactly | src/nameserver/nm_db.c:117-119 | the permission test compares bit by bit, for all integers in two's complement |
| Permissions.AccessBits | src/nameserver/nm_db.c:117-119 | READ is the lowest bit, WRITE the next, and neither gives the other |
| Permissions.HasBitsOfWords | src/nameserver/nm_db.c:117-119 | for all numbers below 65536 the test is the conjunction of their machine words |
| NameServerRuns.OneBitOnly | src/nameserver/nm_handlers2.c:62-84 | whoever was last granted WRITE alone may not read, and the other way round |
| NameServerEffects.ReadExactly | src/nameserver/nm_handlers.c:155-217 | READ is granted exactly when the file exists, the user may read and the primary or the replica is registered; each failing part has its error; nothing changes |
| NameServerEffects.ReadFollowsHistory | src/nameserver/nm_handlers.c:168-172 | from an empty database a document is given exactly to those whom history permits to read |
| NameServerEffects.LockErrors | src/nameserver/nm_handlers.c:219-327 | which error a lock request gets |
| NameServerEffects.LockEffect | src/nameserver/nm_handlers.c:270-285 | a granted request takes the sentence if it is free, and does nothing else |
| NameServerEffects.LockFollowsHistory | src/nameserver/nm_handlers.c:237-242 | nobody gets a lock whom history does not permit to write |
| NameServerEffects.CreateExactly | src/nameserver/nm_handlers.c:70-153 | when CREATE and CREATEFOLDER succeed, their errors, and the whole state afterwards |
| NameServerEffects.DeleteExactly | src/nameserver/nm_handlers.c:329-415 | when DELETE succeeds, its errors, and the whole state afterwards |
| NameServerEffects.DeleteAnswer | src/nameserver/nm_handlers.c:395-410 | the answer to DELETE leads to the server of the document and to its replica |
| NameServerEffects.GrantDataExactly | src/nameserver/nm_handlers2.c:9-19 | which texts name a user and a permission |
| NameServerEffects.GrantExactly | src/nameserver/nm_handlers2.c:3-87 | when ADDACCESS succeeds, its errors, and the whole state afterwards |
| NameServerEffects.RevokeExactly | src/nameserver/nm_handlers2.c:89-151 | when REMACCESS succeeds, its errors, and the whole state afterwards |
| NameServerEffects.GrantThenRevoke | src/nameserver/nm_handlers2.c:3-151 | REMACCESS takes away what ADDACCESS with that name gave, and nothing else |
| NameServerEffects.RegisterClientExactly | src/nameserver/nm_handlers.c:40-68 | a client is listed once registered, unless a hundred others are |
| NameServerEffects.RunKeepsUsers | src/nameserver/nm_handlers.c:40-68 | over any run the list of users has no doubles, at most a hundred names, only grows, and holds nobody who did not register |
| NameServerEffects.RegisterSsExactly | src/nameserver/nm_handlers.c:3-38 | a storage server gets the next slot and number with count 0; the eleventh is refused without effect |
| NameServerRuns.RevokesExactly | src/nameserver/nm_handlers2.c:95-127 | a revocation removes the grant it names exactly when its argument does not begin with a blank |
| Witnesses.BlankBeforeName | src/nameserver/nm_handlers2.c:95-127 | one blank in front, and the grant stays |
| NameServerRuns.RegistrationRoundTrip | src/nameserver/nm_handlers.c:14-31 | the address a storage server prints is the one recorded in the next slot, and it reads its number from the answer |
| NameServerRuns.StepFollows | src/nameserver/nm_handlers.c:370-385 | each request changes the owner and access tables as its one event says, a deletion taking all grants with it |
| NameServerRuns.OnlyOwner | src/nameserver/nm_handlers2.c:39-44 | grants, revocations and deletions take effect for the owner only |
| NameServerRuns.RunKeepsDrift | src/nameserver/nm_handlers.c:387-393 | over any run a counter minus its current rows stays what it was at the start or at registration |
| NameServerRuns.StepKeepsDrift | src/nameserver/nm_handlers.c:125-127 | no single request changes that difference |
| NameServerBalance.CountsAreRows | src/nameserver/nm_handlers.c:125-127 | from an empty database each counter is the number of rows on its server and all of them sum to the number of rows |
| NameServerBalance.PickIsLeast | src/nameserver/nm_handlers.c:90-97 | placement picks the lowest-numbered server of minimum count |
| NameServerBalance.CreatePlaces | src/nameserver/nm_handlers.c:76-144 | exactly when CREATE succeeds, and what it records: owner, least-loaded primary, a different replica whenever there are two servers |
| NameServerBalance.CreateBalances | src/nameserver/nm_handlers2.c:288-315 | a successful CREATE or CREATEFOLDER leaves a count gap of at most the old one, or one |
| NameServerBalance.RunBalances | src/nameserver/nm_handlers.c:90-127 | without deletions and registrations, as many creations as the total deficit bring the gap to at most one, where it stays |
| NameServers.NameServer.constructor | src/nameserver/nm_main.c:14-28 | start-up state over existing tables |
| NameServers.NameServer.LoadFilesFromDb | src/nameserver/nm_db.c:69-91 | afterwards the index holds what it held and all listed names |
| NameServers.NameServer.HasPermission | src/nameserver/nm_db.c:93-127 | answers what any history says that the two tables reflect |
| NameServers.NameServer.GetSsById | src/nameserver/nm_db.c:129-137 | finds the first live server with the id |
| NameServers.NameServer.ReleaseLock | src/nameserver/nm_db.c:139-159 | the search and shift loops remove the first entry that agrees in all four fields |
| NameServers.NameServer.SelectServer | src/nameserver/nm_handlers.c:90-97 | the placement loop |
| NameServers.NameServer.SelectReplica | src/nameserver/nm_handlers.c:101-108 | the replica loop: first other live server |
| NameServers.NameServer.HandleRegisterSs | src/nameserver/nm_handlers.c:3-38 | makes the RegisterSs step: scans ip and port, appends the next id with count 0, or refuses the eleventh server |
| NameServers.NameServer.HandleRegisterClient | src/nameserver/nm_handlers.c:40-68 | makes the RegisterClient step: a user is listed once, at most 100 |
| NameServers.NameServer.HandleCreate | src/nameserver/nm_handlers.c:70-153 | makes the Create step on arrays, tables and trie, with its answer |
| NameServers.NameServer.HandleCreateFolder | src/nameserver/nm_handlers2.c:268-333 | makes the CreateFolder step |
| NameServers.NameServer.HandleRead | src/nameserver/nm_handlers.c:155-217 | gives the Read answer, falling back to the replica's address |
| NameServers.NameServer.HandleWriteLock | src/nameserver/nm_handlers.c:219-327 | makes the WriteLock step |
| NameServers.NameServer.HandleCommit | src/nameserver/nm_main.c:113-130 | makes the Commit step |
| NameServers.NameServer.HandleDelete | src/nameserver/nm_handlers.c:329-415 | makes the Delete step: row, grants, index entry and count go together |
| NameServers.NameServer.HandleAddAccess | src/nameserver/nm_handlers2.c:3-87 | makes the AddAccess step: a new grant replaces the old one |
| NameServers.NameServer.HandleRemAccess | src/nameserver/nm_handlers2.c:89-151 | makes the RemAccess step |
| NameServers.NameServer.HandleRequest | src/nameserver/nm_main.c:103-156 | the dispatcher makes the step of each request |
| NameServers.NameServer.Serve | src/nameserver/nm_main.c:92-161 | serving requests is a run of the machine, after which the heap trie holds exactly the file names and the tables reflect the longer history |
| StorageRuns.RunKeepsInv | src/storageserver/ss_main.c:235-273 | in every run: metadata rows and files have the same names, rows hold the statistics of the current content, undo slots belong to existing files, checkpoint rows to existing snapshots |
| StorageRuns.StepKeepsInv | src/storageserver/ss_handlers.c:20-551 | each request keeps that invariant |
| StorageRuns.StreamMatchesStats | src/storageserver/ss_handlers.c:277-299 | an uninterrupted stream emits as many words as the metadata row says |
| StorageRuns.StoredVerbatim | src/storageserver/ss_handlers.c:127-189 | data is stored verbatim in every state that has the document exactly when it does not have the shape of a word edit; then also in every state that does not |
| StorageRuns.WordWrite | src/storageserver/ss_handlers.c:108-200 | a printed word edit sent as a WRITE replaces one word, keeps the word and sentence counts, leaves the old text in the undo slot and keeps the invariant |
| StorageRuns.StepTouchesOne | src/storageserver/ss_handlers.c:20-551 | a request leaves the content of every other document alone |
| StorageEffects.ValidatesExactly | src/storageserver/ss_handlers.c:5-18 | a request is valid exactly with a user, a file name, no slash in it and no two dots in a row |
| StorageEffects.CreateExactly | src/storageserver/ss_handlers.c:20-75 | CREATE makes an empty document with zero counts, or is refused without effect if there is one |
| StorageEffects.ReadExactly | src/storageserver/ss_handlers.c:77-106 | READ gives the text of an existing document and changes nothing |
| StorageEffects.FullWriteExactly | src/storageserver/ss_handlers.c:180-190 | a full WRITE replaces content and counts and takes the slot, and touches nothing else |
| StorageEffects.WordWriteExactly | src/storageserver/ss_handlers.c:126-180 | a word edit replaces one word of an existing document, or is refused for a missing document or a bad position, the slot taken in the last case |
| StorageEffects.DeleteExactly | src/storageserver/ss_handlers.c:202-246 | DELETE is answered with success exactly for a valid request on an existing document, which is then gone from contents, rows and slots, and nothing else is |
| StorageEffects.AbsentExactly | src/storageserver/ss_handlers.c:202-246 | such a document cannot be read, streamed, restored or deleted again, and can be created empty |
| StorageEffects.DeletedStaysAway | src/storageserver/ss_handlers.c:218-235 | over any run a deleted document stays away until a request that writes it |
| StorageEffects.StreamExactly | src/storageserver/ss_handlers.c:277-299 | STREAM sends all words of all sentences, in the order of the text |
| StorageEffects.UndoExactly | src/storageserver/ss_handlers.c:360-402 | UNDO writes the slot back with its counts, or is refused without one |
| StorageEffects.ReplicateExactly | src/storageserver/ss_handlers.c:404-424 | REPLICATE replaces content and counts, whether or not there was a document |
| StorageEffects.RowsExactly | src/storageserver/ss_main.c:246-256 | in every reachable state a row gives the words, characters and sentences of the text |
| StorageRuns.StepSlot | src/storageserver/ss_handlers.c:137-186 | a validated write that finds the file, even a rejected word edit, and a successful revert save the slot; a deletion clears it; nothing else touches it |
| StorageRuns.RefusalsExactly | src/storageserver/ss_handlers.c:126-160 | a refused request changes the state exactly when it is a word edit that finds its document and the undo slot was not already the current text |
| StorageWitnesses.RefusedButChanged | src/storageserver/ss_handlers.c:136-160 | a run that ends with such a request |
| StorageRuns.SlotHistory | src/storageserver/ss_handlers.c:126-189 | after any run the slot is the content just before the last request that saved it, if no deletion came later |
| StorageRuns.UndoRestores | src/storageserver/ss_handlers.c:360-402 | after a write or revert that found the file, an UNDO request gives back the content before it, also after further UNDOs, replications and work on other files |
| StorageRuns.UndosLeaveSlot | src/storageserver/ss_handlers.c:384-389 | any number of UNDOs leaves the slot alone |
| StorageRuns.UndoIsNoRedo | src/storageserver/ss_handlers.c:384-389 | two UNDOs give the current text back exactly when the slot already was that text |
| StorageWitnesses.NoRedo | src/storageserver/ss_handlers.c:384-389 | a run after which they do not |
| Checkpoints.NameInjective | src/storageserver/ss_handlers.c:452-453 | untruncated checkpoint names with underscore-free tags identify file, tag and time |
| Checkpoints.CommandExactly | src/storageserver/ss_handlers.c:430-441 | which texts are taken for a checkpoint and for a revert, and with which tag |
| Checkpoints.CommandRoundTrip | src/client/client_commands.c:676-676 | the client's texts are taken for what they are |
| Checkpoints.OtherCommands | src/storageserver/ss_handlers.c:482-504 | LIST and unknown commands change nothing |
| Checkpoints.UnderscoresCollide | src/storageserver/ss_handlers.c:452-453 | two documents and tags whose checkpoints share a file at any time |
| Checkpoints.TagsClashExactly | src/storageserver/ss_handlers.c:452-453 | for two tags that fit a request there are different documents the server can hold whose checkpoints are written to one file exactly when one tag ends in an underscore and the other one, and neither has a slash |
| Checkpoints.ValidTagsClashExactly | src/storageserver/ss_handlers.c:452-453 | the same for documents that CREATE lets through: the part before the underscore must not have two dots in a row either |
| Checkpoints.ApartNames | src/storageserver/ss_handlers.c:452-453 | otherwise untruncated names of different documents or tags differ, at all times |
| Checkpoints.ClashMixesDocuments | src/storageserver/ss_handlers.c:452-479 | when names do meet, reverting one document gives it the text of the other |
| StorageWitnesses.MixedCheckpoints | src/storageserver/ss_handlers.c:452-479 | a run with two documents for which this happens |
| Checkpoints.SlashOnlyInTag | src/storageserver/ss_handlers.c:454-457 | an untruncated checkpoint name has a slash exactly when its tag has |
| StorageWitnesses.SlashInTag | src/storageserver/ss_handlers.c:457-478 | a tag with which CREATE is refused in every state |
| Checkpoints.RunKeepsCheckpoint | src/storageserver/ss_handlers.c:441-479 | a snapshot survives any run that neither uses its tag for its file again nor writes its checkpoint file; a tag without snapshot stays without |
| Checkpoints.CheckpointFidelity | src/storageserver/ss_handlers.c:441-546 | on the client's requests: after any such run REVERT succeeds exactly when CREATE did, which is when the checkpoint name has no slash; it gives back the content at the time of the checkpoint, and an UNDO right after that the content before the revert; otherwise nothing changes |
| Checkpoints.ApartRunSpares | src/storageserver/ss_handlers.c:452-453 | for untruncated names it is enough that the tags used in the run do not overlap |
| Paths.StaysInside | src/storageserver/ss_main.c:229-233 | a name without a slash is a file directly inside the directory exactly when it is not empty, "." or ".." |
| Paths.ValidatedIsPlain | src/storageserver/ss_handlers.c:5-18 | what the basic validation lets through is such a name |
| Paths.FilesStayInside | src/storageserver/ss_main.c:229-293 | in every reachable state documents, undo slots and checkpoints are files directly inside the data directory and its two sub-directories, and do not get in each other's way |
| StorageServers.EditContent | src/storageserver/ss_handlers.c:140-178 | the edit on word and sentence arrays computes the declared edit |
| StorageServers.StorageServer.CountStats | src/storageserver/ss_main.c:246-256 | the counting loop computes the three statistics |
| StorageServers.StorageServer.SaveFileContent | src/storageserver/ss_main.c:235-273 | content and metadata row change together |
| StorageServers.StorageServer.LoadFileContent | src/storageserver/ss_main.c:275-288 | in a valid state the buffer holds the whole file; failure if there is none |
| StorageServers.StorageServer.SaveUndoState | src/storageserver/ss_main.c:290-302 | overwrites one slot, and an UNDO would then write exactly that content |
| StorageRuns.ReadReturnsContent | src/storageserver/ss_handlers.c:91-103 | in every reachable state a read returns the whole content |
| StorageServers.StorageServer.HandleWrite | src/storageserver/ss_handlers.c:108-200 | makes the Write step in both shapes |
| StorageServers.StorageServer.HandleStream | src/storageserver/ss_handlers.c:248-312 | the nested loops emit all words of all sentences in order |
| StorageServers.StorageServer.HandleCheckpointOps | src/storageserver/ss_handlers.c:426-551 | makes the checkpoint and revert steps, the refusal of a name with a slash included |
| StorageServers.StorageServer.HandleRequest | src/storageserver/ss_main.c:187-227 | the dispatcher and every handler make the step of each request |
| ClientWrite.EditLoop | src/client/client_commands.c:167-195 | the line loop replaces and appends words until ETIRW or the end of input, and no word outgrows its buffer |
| ClientWrite.LineRoundTrip | src/client/client_commands.c:170-180 | a typed line is read as the index and word it was made from exactly when the word is non-empty and free of blanks of any kind |
| ClientWrite.AppendedWord | src/client/client_commands.c:180-188 | a word typed at the next free position is appended |
| ClientWrite.MisplacedWord | src/client/client_commands.c:182-192 | a position that leaves a gap, is negative or beyond the limit is refused |
| ClientWrite.EndsExactly | src/client/client_commands.c:172-175 | ETIRW alone on its line, and nothing else, ends the session |
| ClientWrite.NewDocument | src/client/client_commands.c:149-208 | words typed into an empty document are the document, whatever is typed after ETIRW |
| ClientWrite.GrowingSentence | src/client/client_commands.c:180-208 | words typed behind the last one of a sentence are appended to it, and no other sentence changes |
| ClientWrite.RefusedExactly | src/client/client_commands.c:147-156 | a session is refused exactly when its sentence is not there; an empty document counts as one empty sentence |
| ClientWrite.EditDocument | src/client/client_commands.c:144-208 | from the text read to the text sent back, or the refusal of a bad sentence number |
| ClientWrite.ApplyLinesBound | src/client/client_commands.c:180-191 | a session never drops words, never exceeds 100, and never makes a word longer than its buffer |
| ClientWrite.SessionFrame | src/client/client_commands.c:197-208 | a session changes one sentence, and the text reads back as edited exactly when the list is canonical |
| ClientWrite.SessionReadsBackExactly | src/client/client_commands.c:197-208 | for any session that fits the buffers, the document reads back as edited exactly when the new sentence is one sentence and the list is canonical |
| ClientWrite.OtherSentenceIsLost | src/client/client_commands.c:204-215 | of two sessions on different sentences of the same text, the later write keeps the earlier one exactly when that one changed nothing |
| Witnesses.LostEdit | src/client/client_commands.c:204-215 | a document and two sessions of which the second undoes the first |
| Witnesses.LostEditLocks | src/nameserver/nm_handlers.c:247-278 | in a reachable state both sessions are granted their locks |
| Protocol.OneSession | src/nameserver/nm_handlers.c:247-268 | at most one session is between its lock and its commit |
| Protocol.StepKeepsInv | src/client/client_commands.c:93-237 | every step of every participant keeps: sessions hold the lock, what they read is current, the log explains the document, tickets increase |
| Protocol.NoLostUpdate | src/client/client_commands.c:93-237 | in every interleaving of sessions on one sentence with everything else that leaves the document alone, commits of the sentence by other connections included, each write is based on the current content, the document is the logged edits applied one after the other, and they were applied in the order of the granted locks |
| Protocol.SessionCompletes | src/client/client_commands.c:93-237 | from any state in which a free sentence is granted, the whole session can run; the document is then the edited text, one edit is logged, and the lock table is what it was before |
| Versions.StepKeepsInv | src/client/client_commands.c:93-237 | every step of sessions on any sentences keeps: sessions hold their locks, have read one of the versions, and their sentence was not written since; the versions explain the document |
| Versions.EditsOfVersions | src/client/client_commands.c:197-215 | in every interleaving each write is an edit of the version its session read, the document is the last version, and nobody else writes a sentence between its session's read and write |
| Versions.StaleWriteReverts | src/client/client_commands.c:204-215 | a write puts the sentences written since its read back to what they were then |
| Versions.NextWriteExactly | src/client/client_commands.c:204-215 | while all earlier writes kept everything, the next one does so exactly when the document still has the sentences its session read |
| Versions.RunIsSerialExactly | src/client/client_commands.c:93-237 | the edits of a run apply one after the other exactly when every session wrote to the sentences it had read |
| Versions.OverlapLosesFirst | src/client/client_commands.c:93-237 | whenever two sessions are granted their locks they can overlap, and the document then is what the second one made of the text both had read |
| Witnesses.LostEditRun | src/client/client_commands.c:93-237 | one run of two servers, reached from empty ones, in which an edit is lost that way |

## Left out

- Sockets, message framing, threads, signals, logging, timestamps, directory creation and the interactive shell: input and output only.
- File-system failures at the storage server that do not follow from the request (a full disk, missing rights), and failures of SQL UPDATE and DELETE: taken not to happen. INSERT may fail at the name server.
- VIEW, LIST, INFO, LISTCHECKPOINTS, EXEC, access requests, and the name server's UNDO and CHECKPOINT handlers: read-only answers; the location strings of the latter are covered in `Location`.
- Failover and replication: nothing sends REPLICATE and a server is never marked dead, so no claim relates replicas to primaries.
- Release of locks on disconnect or deletion: the code has none. Sockets are taken not to be reused within a run.
- Numerals outside the range of `int`, and inputs that overrun a fixed buffer: the C standard leaves both undefined.
- `trie_free`, and the scratch buffer that `collect_words` fills but never reads.
- StorageRuns.StepKeepsInv: requests whose name is ".", `undo`, `checkpoints`, `metadata.db` or that of its rollback journal are excluded (`StorageSpec.Reserved`), as what they do depends on the operating system and the database file; and REPLICATE and checkpoint requests, which do not look at the name, must carry one that validation would let through, as with a name such as `./x` two names lead to one file.
- StorageRuns.RunKeepsInv: not for these names.
- StorageRuns.StepTouchesOne: not for these names.
- StorageServers.StorageServer.HandleWrite: not for these names.
- StorageServers.StorageServer.HandleStream: not for these names.
- StorageServers.StorageServer.HandleCheckpointOps: not for these names.
- StorageServers.StorageServer.HandleRequest: not for these names.
- NameServers.NameServer.HandleRegisterSs: data that does not scan is excluded even when the server list is full, although the code then refuses before it scans.
- Versions.RunIsSerialExactly: sessions whose text does not read back as edited, and the first session on an empty document, which has no sentence yet; UNDO, REVERT, DELETE, REPLICATE and foreign writes as for Protocol.NoLostUpdate.
- The order of checkpoint rows with one tag: the query has no ORDER BY; the model takes the first inserted row, and no property depends on it.
- Registration strings without an address, commits without a sentence number and checkpoint commands without a tag: the code then uses uninitialised variables.
- Protocol.NoLostUpdate: follows one document and one sentence on one live storage server; UNDO, REVERT, DELETE, REPLICATE and writes to that document outside its sessions are not among the environment's steps, because each of them replaces the text without taking the lock. A connection in a session commits the sentence only at the end of that session, as the client does. A session's text that has the shape of a word edit is excluded too, for the reason that `StorageRuns.StoredVerbatim` makes exact.
