# WeChat hub: a verified model

The hub bridges a WeChat account to message redirectors. This project models its four stateful
parts and proves what they promise:

- **Identity store and group reconciliation** (`hub/member_manager.go`). WeChat user names change
  with every login; a member table and two caches give each user and group a lasting id. A refresh
  compares the live groups with the rows kept for them and returns who left.
- **LRU cache and de-duplication** (`pkg/lru/lru.go`, `hub/message_manager.go`, the filter and
  dispatch of `hub.go`). A hash map joined to a doubly linked list, in front of the message table.
- **Websocket broadcast** (`redirect/websocket_server.go`, `redirect/websocket_conn.go`). A serve
  loop, a broadcaster and, per client, a Serve loop, a reader and a writer, joined by channels.
- **Quote and mention parser** (`functions.go`, the text handler of `hub.go`). Byte searches with
  rune offsets, a 16-rune name window, trimming, split and join.

Code that changes state is imperative here as well: classes with the source's fields and methods
with its loops, each proved against a relation or function on values, about which the properties
are proved over whole runs. The broadcast is a step relation. Database failures, the clock and the
rows `Take` picks are arguments or nondeterministic choices.

## Files

| file | content |
|---|---|
| `Common.dfy` | the option and result types |
| `Members.dfy`, `MemberRuns.dfy`, `Answers.dfy`, `Lifetimes.dfy` | the identity store as a relation, its invariants, whole runs, which row an answer comes from, how long it lasts |
| `Groups.dfy`, `Refreshes.dfy`, `Balances.dfy` | one reconciliation pass row by row; refreshes and convergence; returned exits against arrivals |
| `MemberManager.dfy`, `LiveRefresh.dfy`, `LiveRows.dfy`, `TwinGroups.dfy` | the stateful manager; refreshing live groups through the identity store; what is stored for their members; two groups of one name |
| `Recency.dfy`, `Inclusion.dfy`, `Lru.dfy` | the cache on values, two capacities side by side, the heap structure |
| `Dedup.dfy`, `MessageManager.dfy` | de-duplication and forwarding on values; the stateful managers |
| `Broadcast.dfy`, `Deliveries.dfy` | the broadcast protocol; what it accepts, delivers and drops |
| `GoStrings.dfy`, `Utf8.dfy`, `Brackets.dfy` | string functions, UTF-8 of RFC 3629, cutting between brackets |
| `Quotes.dfy`, `Names.dfy`, `QuoteRoundTrip.dfy`, `Mentions.dfy`, `TextHandler.dfy`, `TextWitnesses.dfy` | the parsers, the text handler, messages they mishandle |

## Findings

Where a promise does not hold of the code, the code is kept, a lemma shows an input, and another
proves exactly when the promise holds.

| finding | an input | the exact condition |
|---|---|---|
| An update skips zero fields, so an emptied nickname, attribute or uid reaches both caches but not the row, as does an update whose write fails. One row per uid and the identity round trip survive even that. | `EmptyNicknameSplitsCaches` | `CompareSyncedExactly` |
| An id the database finds by uid, with nothing changed, is not cached; a namesake can then take the row over, and the first user gets another id within one process. | `UncachedIdentityLost` | `AnswerLastsExactly` |
| A lost departure stamp makes a member be reported again. | `LostStampReportsTwice` | `ExitsBalance` |
| Two groups of one name get one id; if they list different members, the returned exits name members who never left. | `TwinGroupsShareId`, `RepeatedGroupBreaksBalance` | `BalancedExactly` |
| A message is forwarded even when its save fails, so it can be delivered twice. | `FailedSaveForwardsTwice` | `ForwardedExactly` |
| Between closing a client's pool and closing its socket the writer may send empty messages. | `EmptyMessageSent` | `EmptyWriteExactly` |
| The quote parser panics on messages that start with the English suffix. | `HeadlessPanics` | `PanicsExactly`, `CrashesExactly` |
| With the separator ": " names of 14 and 15 runes are never found, and shorter ones only if the quoted text within the window holds a non-space. | `LongNameLost`, `FourteenRunesLost` | `NamedExactly` |
| A mention can be located at a later occurrence of the name. | `LaterMention` | `MentionAtFirstAt` |
| The first mark of the whole text is removed, so a mention keeps its own mark after an earlier one, and the blank after it is not found. | `MarkKept`, `BotMarkKept` | `RightMarkRemoved` |
| A mention with white space between the @ and the name is stored with offset -1 if the name does not occur elsewhere right after an @. | `MentionNowhere` | `MarkedSpan`, `UnmarkedSpan` |

## Model

| member | source | states |
|---|---|---|
| MemberManagers.MemberManager.CompareAndUpdateMember | hub/member_manager.go:79-97 | the update merges non-zero fields into the row and puts the new member in both caches even if the write fails |
| MemberManagers.MemberManager.GetID | hub/member_manager.go:100-166 | every call is one of the allowed outcomes: cached, found by uid, by nickname and attribute, by group nickname, created, or failed |
| MemberManagers.MemberManager.GetName | hub/member_manager.go:168-187 | the cached or stored nickname, "" for an unknown id; a row read is cached under its id and its uid |
| MemberManagers.MemberManager.GetByID | hub/member_manager.go:190-209 | the cached or stored uid, "" for an unknown id; a row read is cached under its id and its uid |
| Members.InstallKeepsCore | hub/member_manager.go:79-97 | writing a row and caching a member whose uid nobody else owns keeps one row per uid and right caches |
| Members.GetIDOutcome | hub/member_manager.go:100-166 | a call fails and changes nothing, adopts one existing member nobody competes for, or adds one new row under a free id |
| Members.GetIDKeepsCore | hub/member_manager.go:100-166 | one row per uid and right caches are kept, rows keep id and kind, at most the returned id is added, a failed call (also a key conflict) changes nothing |
| Members.FetchKeepsCore | hub/member_manager.go:168-209 | a lookup by id keeps the invariant and leaves the returned uid cached for that id |
| Members.CompareSyncedExactly | hub/member_manager.go:84-96 | the caches keep agreeing with the table if and only if nothing changed, or the write succeeds and erases no field |
| Members.GetIDKeepsSynced | hub/member_manager.go:100-166 | with a successful write and no empty field the caches keep agreeing with the table |
| Members.GetByIDAfterGetID | hub/member_manager.go:79-209 | GetByID gives back the user name GetID was called with if and only if the call was not answered unchanged from a stale alias |
| Members.GetIDCachesUid | hub/member_manager.go:100-166 | an answered user name is cached for its id, except exactly when the database answered an unchanged row by uid |
| Answers.AnswerFrom | hub/member_manager.go:108-165 | in the fields of rows and user: a row with the uid answers, else one of the same nickname and avatar or status, else for a group alone a group of its name, else a new id; and exactly which failures answer instead |
| Answers.AnswerStores | hub/member_manager.go:79-97 | what a call leaves of a known member: both caches hold it as shown, and its row alone takes the non-empty fields if the write succeeds |
| Answers.AnswerCreates | hub/member_manager.go:148-165 | a new member is stored as the user is shown, a group with kind 0 and a person with kind 1, in the table and both caches |
| Answers.LookupsReadRows | hub/member_manager.go:168-209 | while caches and table agree, GetName gives the nickname and GetByID the uid of the row, and "" without one |
| Answers.LookupCaches | hub/member_manager.go:168-209 | a lookup by id changes the caches alone, which then hold the row it had to read |
| Answers.GetNameAfterGetID | hub/member_manager.go:79-187 | after GetID gives X, GetName of X gives the nickname back, or that of the row if a stale alias answered |
| MemberRuns.StepKeepsCore | hub/member_manager.go:79-209 | every call and a restart keep the invariant and all rows; at most one row is added, and only by GetID |
| MemberRuns.ReachableCore | hub/member_manager.go:79-209 | in every reachable state no two rows share a uid, and every cached uid names the only row that may hold it, whatever failed |
| MemberRuns.ReachableSynced | hub/member_manager.go:79-209 | after clean calls every cached id equals its row, and every cached uid equals its row unless the row has moved to another uid |
| MemberRuns.RunGrows | hub/member_manager.go:79-209 | rows are never removed and keep id and kind over restarts; within a process a cached uid keeps its id |
| MemberRuns.CachedUidResolves | hub/member_manager.go:102-106 | once cached, a uid resolves to the same id in every later call of the process, without a database read |
| MemberRuns.GetIDAfterGetByID | hub/member_manager.go:100-209 | a non-empty uid returned by GetByID(X) leads every later GetID of that name back to X until a restart |
| MemberRuns.GetByIDReturnsUserName | hub/member_manager.go:100-209 | the converse round trip in every state of a clean run, with its exact condition |
| Lifetimes.AnswerLastsExactly | hub/member_manager.go:100-166 | an answered user name keeps its id for the life of the process, whatever is called and fails, if and only if it was not answered by uid from an unchanged uncached row |
| Lifetimes.RepeatsExactly | hub/member_manager.go:100-126 | a call that can read by uid answers an id and changes nothing if and only if nothing about the user is left to write |
| Lifetimes.EmptyNicknameSplitsCaches | hub/member_manager.go:84-96 | two calls from the empty store after which cache and row differ |
| Lifetimes.UncachedIdentityLost | hub/member_manager.go:108-165 | a run from the empty store, every call successful, in which one user name gets two ids within one process |
| MemberManagers.MemberManager.GetGroupUsers | hub/member_manager.go:212-224 | exactly the rows of the group, keyed by user id |
| MemberManagers.MemberManager.AddGroupUser | hub/member_manager.go:227-233 | a new active row, or an error and no change if the key is taken |
| MemberManagers.MemberManager.ReAddGroupUser | hub/member_manager.go:236-238 | the row's leave time becomes 0 |
| MemberManagers.MemberManager.UpdateGroupUser | hub/member_manager.go:241-243 | the row's nickname changes, its leave time stays |
| MemberManagers.MemberManager.LeaveGroupUser | hub/member_manager.go:246-248 | the row is stamped with the time of leaving |
| MemberManagers.MemberManager.MatchMember | hub/member_manager.go:280-303 | after one listed member the table is the pointwise update for the members listed so far, and the unmatched rows are the others |
| MemberManagers.MemberManager.MatchMembers | hub/member_manager.go:274-304 | the member loop with its in-place deletion: the resolved members are updated pointwise, unresolved ones are passed over |
| MemberManagers.MemberManager.MarkLeft | hub/member_manager.go:306-317 | the table is the whole pass, and the returned list holds each active row nobody listed exactly once |
| MemberManagers.MemberManager.RefreshGroup | hub/member_manager.go:262-321 | one group's turn: skipped if its id or rows cannot be read, else one pass and an entry if somebody left |
| MemberManagers.MemberManager.RefreshGroups | hub/member_manager.go:261-321 | ids come from exactly the calls made, the table is the sequence of passes over the groups, and the returned lists are what those passes report |
| MemberManagers.MemberManager.RefreshGroupMember | hub/member_manager.go:250-324 | nothing is returned and nothing changes if the current user or the list cannot be fetched; else the groups of the list are refreshed |
| MemberManagers.VisitsKeepCore | hub/member_manager.go:262-323 | a whole refresh keeps the identity invariant and forgets no cached uid |
| Groups.ApplyPass | hub/member_manager.go:274-317 | a pass renames, resets, stamps or keeps each row of its group by its first listing, adds a missing one with the first write that succeeds, and leaves rows of other groups alone |
| Groups.RowListed | hub/member_manager.go:280-303 | by position in the listing: the first listing renames a row and keeps its leave time, or resets it under the same name; a failed write does nothing |
| Groups.RowUnlisted | hub/member_manager.go:306-317 | a present row nobody lists is stamped with the time of its write |
| Groups.RowAdded | hub/member_manager.go:284-289 | the first listing whose write succeeds adds a missing row, present |
| Groups.RowNotAdded | hub/member_manager.go:284-289 | without such a listing it stays missing |
| Groups.RowElsewhere | hub/member_manager.go:274-317 | rows of other groups are untouched |
| Refreshes.RepeatsAreIgnored | hub/member_manager.go:274-304 | when its writes succeed a pass acts as if every member were listed once, under its first listing |
| Groups.ExitConservation | hub/member_manager.go:274-317 | for every key, any passes and any failed writes: reports + present = present before + activations + lost stamps |
| Groups.ExitsBalance | hub/member_manager.go:274-317 | from an empty table reports and activations balance if and only if no departure stamp was lost |
| Refreshes.VisitedOnce | hub/member_manager.go:262-321 | with distinct ids a refresh acts on each row as the one pass over its group, and names it in the result exactly if it left |
| Refreshes.ReportedOnce | hub/member_manager.go:306-320 | with distinct ids the returned map names a member exactly when one pass reports it |
| Balances.BalancedExactly | hub/member_manager.go:306-320 | with successful writes a refresh returns exactly the members it takes out, whatever the rows were, if and only if passes over one id list the same members |
| Balances.ReturnedExitsConserved | hub/member_manager.go:250-324 | over any history with distinct ids, whichever writes fail: returned exits + present = arrivals + lost stamps |
| Balances.ReturnedExitsBalance | hub/member_manager.go:250-324 | over any history with successful writes and the same listings for one id: returned exits + present = arrivals, so the two strictly alternate |
| Balances.LostStampReportsTwice | hub/member_manager.go:306-317 | one arrival is reported twice after a lost stamp |
| TwinGroups.TwinGroupsShareId | hub/member_manager.go:134-146 | from the empty store any two groups of the same name resolve to one id |
| TwinGroups.RepeatedGroupBreaksBalance | hub/member_manager.go:318-320 | two refreshes from nothing, every operation successful: a member present before and after the second is returned as gone |
| Refreshes.TwoPassConvergence | hub/member_manager.go:268-320 | two refreshes of one snapshot reach a fixed point: everyone listed present under the first name, nobody reported; one is enough if and only if nobody rejoins under a new name |
| LiveRefresh.CachedRefreshResolves | hub/member_manager.go:262-283 | groups whose names are all cached are resolved exactly as the cache says, throughout the refresh |
| LiveRefresh.SettledRefreshRepeats | hub/member_manager.go:262-283 | once nothing about the resolved names is left to write, the next refresh gives the same ids and leaves the store alone |
| LiveRefresh.LiveRefreshConverges | hub/member_manager.go:250-324 | refreshing the same live lists, also right after a restart: if their names are cached before or settled after the first refresh, the second reports nobody and reaches a table the third leaves alone |
| LiveRows.ListedRow | hub/member_manager.go:280-303 | the row a refresh leaves for the member that is first to resolve to its id, in the fields of the live member: its group card, else its nickname |
| LiveRows.UnlistedRow | hub/member_manager.go:306-317 | a member nobody resolves to is returned if and only if it was present, and stamped unless the write fails |
| LiveRows.SkippedGroup | hub/member_manager.go:262-273 | a group whose id or rows cannot be read keeps its rows, and nobody of it is returned |
| LiveRows.ReturnedAsStored | hub/member_manager.go:306-320 | a returned exit is the row as it was stored, under its group and id |
| LiveRows.NameAfterTwo | hub/member_manager.go:280-303 | after two refreshes with the same answers and successful writes the first member resolved to an id is present under its group card, else its nickname |
| LiveRows.SkippedCalls | hub/member_manager.go:262-273 | a group whose id or rows cannot be read costs one call |
| LiveRows.MembersAsked | hub/member_manager.go:268-279 | otherwise every listed member is asked for once and its answer kept |
| Lru.List.InsertFront | pkg/lru/lru.go:33 | the ring gets the element as its first |
| Lru.List.Remove | pkg/lru/lru.go:38 | the ring loses exactly that element |
| Lru.List.MoveToFront | pkg/lru/lru.go:30-51 | the element becomes the first, the others keep their order |
| Lru.LRU.constructor | pkg/lru/lru.go:19-25 | an empty cache of the given capacity, of any sign |
| Lru.LRU.Put | pkg/lru/lru.go:27-42 | the entries after a put, with map, ring and entries still matching exactly |
| Lru.LRU.Exist | pkg/lru/lru.go:44-47 | true exactly for the keys held, touching nothing |
| Lru.LRU.Get | pkg/lru/lru.go:49-56 | the value of a key held, which becomes the most recent; nothing otherwise |
| Recency.KeysAreMostRecent | pkg/lru/lru.go:27-56 | after any trace on any capacity the keys are the first `capacity` distinct ones of the touches, newest first |
| Recency.ValuesAreLatest | pkg/lru/lru.go:27-56 | every value held is that of the latest put of its key |
| Inclusion.SmallerIsSubsequence | pkg/lru/lru.go:27-56 | for capacities n <= m the same trace leaves the smaller cache an order-preserving subsequence of the larger, values included |
| MessageManagers.MessageManager.Exist | hub/message_manager.go:40-50 | a hit in the cache leaves it alone, a hit in the table is put in it, a missing row and an unreadable table are errors |
| MessageManagers.MessageManager.Save | hub/message_manager.go:52-65 | the row is added under its id, or an error and no change |
| MessageManagers.MessageHub.Dispatch | hub.go:83-102 | a message with an id is saved and handed on whether or not the save succeeds |
| MessageManagers.MessageHub.Receive | hub.go:140-152 | one message from the filter to the dispatch |
| Dedup.CacheIsConfirmedTail | hub/message_manager.go:36-50 | over any run the cache is exactly the last min(n, 1000) database-confirmed lookups, and any 1000 consecutive ones are distinct |
| Dedup.TableIsSaved | hub/message_manager.go:52-65 | over any run the table holds exactly the ids saved, each with the row of its first successful save |
| Dedup.ExistIsExact | hub/message_manager.go:40-65 | Exist says yes if and only if the id was saved and is cached or readable, whatever has been evicted |
| Dedup.StoredExactly | hub.go:83-152 | the stored ids are exactly the non-empty ones of dispatched messages whose save could succeed |
| Dedup.StoreIsRun | hub.go:83-152 | the store behind the messages is that of a run of lookups and saves |
| Dedup.CachedIsRecent | hub.go:83-152 | the ids cached when a message arrives are those of the last 1000 lookups the database confirmed |
| Dedup.ForwardedExactly | hub.go:83-152 | a message is forwarded if and only if nothing drops it, its id is not among those 1000, and the id is empty, was not saved before, or cannot be read |
| Dedup.ForwardedInOrder | hub.go:83-102 | each forwarded message adds its id behind those before it |
| Dedup.DuplicateNeedsFault | hub.go:83-152 | a non-empty id goes out twice only after a failed save or during a failed read |
| Dedup.AtMostOnce | hub.go:83-152 | without database faults no non-empty id is forwarded twice, in runs of any length |
| Dedup.EmptyIdAlwaysForwarded | hub.go:84-89 | a message without id is never taken for a duplicate |
| Dedup.FailedSaveForwardsTwice | hub.go:85-88 | one failed save and the same id goes out twice |
| Broadcast.StepKeepsInv | redirect/websocket_server.go:63-98 | every step of every goroutine keeps the protocol invariant |
| Broadcast.LocalKeepsOk | redirect/websocket_conn.go:37-133 | the steps of one connection keep its pool, its writer and its socket in order |
| Broadcast.BroadcastOrder | redirect/websocket_server.go:89-98 | in every interleaving the messages put for a client are one contiguous in-order block of what was enqueued, from the current or next message at registration to its first failed send; complete whenever the broadcaster is idle |
| Broadcast.SocketOrder | redirect/websocket_conn.go:123-133 | what reaches the socket is a prefix of what was put for the client, followed at most by empty messages |
| Broadcast.EmptyWriteExactly | redirect/websocket_conn.go:48-133 | in a reachable state an empty message can be written next if and only if the pool is closed, the socket open, the writer at work and everything put already written |
| Broadcast.EmptyMessageSent | redirect/websocket_conn.go:48-133 | six steps after which a client that was sent nothing has got an empty message |
| Broadcast.HistoryIsRun | redirect/websocket_conn.go:75-133 | the history of puts and writes kept for a connection is the one read off the run |
| Broadcast.FailedIsFirstFail | redirect/websocket_conn.go:75-83 | the failed send recorded for a client is the first in the run |
| Broadcast.NoReachableDeadlock | redirect/websocket_server.go:69-98 | in every reachable state with a message queued or in hand the system can take a step of its own |
| Broadcast.NoDeadlock | redirect/websocket_conn.go:37-67 | if a send waits for room, the connection it waits for can take a step of its own |
| Broadcast.BlockedBriefly | redirect/websocket_conn.go:53-133 | a blocked send outlasts at most nine steps of the connection it waits for |
| Broadcast.ReachableDrains | redirect/websocket_server.go:69-98 | from every reachable state steps of the system alone, without a failure, lead to one where everything enqueued has been broadcast |
| Broadcast.BroadcasterBounded | redirect/websocket_server.go:69-98 | under every schedule, without arrivals the broadcaster takes at most 2 + 3 * clients steps for each queued message and what is left of the current one, and then the queue is empty |
| Broadcast.BroadcasterStepsOrWaits | redirect/websocket_server.go:69-98 | until then, in every reachable state, it can take a step of its own if and only if it does not wait for room in an open full pool |
| Deliveries.EverythingDelivered | redirect/websocket_server.go:63-98 | for every sequence of messages there is a run that enqueues exactly those and writes each of them, in order, to a client's socket |
| Deliveries.AcceptedExactly | redirect/websocket_server.go:143 | in every run the next message is accepted if and only if fewer than ten more have been enqueued than dequeued |
| Deliveries.SendExactly | redirect/websocket_conn.go:75-83 | the message in hand is put if and only if the pool is open and its writer has taken all but four of what was put; the send fails if and only if the pool is closed |
| Deliveries.ClientsExactly | redirect/websocket_server.go:69-98 | unless one is being removed, the clients are those registered whose sends have not failed, and the others have been told to close |
| Deliveries.BothStarts | redirect/websocket_server.go:89-98 | a client that registers while a message is in hand may get that message or miss it |
| Deliveries.DroppedAfterFailure | redirect/websocket_conn.go:37-67 | no client loses its pool, its registration or its socket unless its own ping, read or write has failed |
| Deliveries.AnyFailureDrops | redirect/websocket_conn.go:37-133 | each of the three failures alone is enough to have the socket closed |
| Deliveries.ConnectionCloses | redirect/websocket_conn.go:37-67 | a connection told to close, or whose reader or writer has failed, closes pool and socket in three steps |
| GoStrings.LeadIsPrefix | functions.go:22-24 | joining the first parts of a split gives back a prefix, and all parts the whole |
| Utf8.DecodeEncodeAll | functions.go:16-18 | converting runes to bytes and back is the identity |
| Utf8.InvalidByte | functions.go:16-18 | a byte with which no encoding starts becomes U+FFFD, and decoding goes on after it |
| Utf8.RfcExamples | functions.go:16-18 | the encodings RFC 3629 gives as examples |
| Utf8.WhiteSpace | functions.go:18-20 | the code points trimmed are those with Unicode's White_Space property |
| Utf8.OccurrenceAtRune | hub.go:337-340 | valid text occurs in valid text only at rune boundaries |
| Utf8.ByteIndexIsRuneIndex | hub.go:337-340 | byte search agrees with code-point search |
| Utf8.TrimSpaceAgrees | functions.go:18-20 | trimming bytes agrees with trimming code points |
| Names.GetUserFromContent | functions.go:15-30 | the countdown loop returns the first accepted lead from the longest down |
| Names.UserIsLongest | functions.go:15-30 | the result is the longest prefix of the trimmed 16-rune window that ends at a split boundary or the end and is accepted; the name is empty without a target only if none is |
| Names.LongestIsUnique | functions.go:23-28 | if one boundary prefix only is accepted it is the answer |
| Quotes.GetQuoteDecomposes | functions.go:39-54 | a parsed message is prefix, quote, suffix and body, cut at the first suffix |
| Quotes.RulerBytes | functions.go:32-37 | every byte of the ruler: a newline, fifteen dashes with a blank between any two, a newline |
| Quotes.SuffixLiteral | functions.go:32-37 | a suffix is its quotation mark, in bytes, and that ruler |
| Quotes.SliceInBounds | functions.go:42-48 | the slice is out of bounds exactly for the English form on a message that starts with the suffix |
| Quotes.PanicsExactly | functions.go:39-54 | the parser panics if and only if the message starts with the English suffix |
| Quotes.PrintedParsesExactly | functions.go:39-54 | printing then parsing gives back quote and body if and only if no suffix ends within prefix and quote |
| QuoteRoundTrip.SplitQuote | hub.go:280-301 | the quote part of the handler computes the parsed reply and the quote, which is dropped if the member's id cannot be looked up |
| QuoteRoundTrip.NamedExactly | functions.go:15-30 | a name without outer white space keeps its separator in the window for exactly these lengths: up to 16 runes for "：", and for ": " 16, or at most 13 with a non-space in the first 14 minus that many runes of text |
| QuoteRoundTrip.QuoteRoundTrip | hub.go:280-301 | a printed quote comes back as the member's id, name, bot flag, text and reply exactly for those lengths, and otherwise as the reply alone |
| QuoteRoundTrip.PlainMessage | hub.go:280-282 | a message that is no printed quote, and does not make the parser panic, is kept as it is |
| QuoteRoundTrip.CrashesExactly | hub.go:280-282 | the handler panics exactly on messages that start with the English suffix |
| QuoteRoundTrip.QuoteOfLongest | hub.go:280-301 | any printed quote: the reply is kept, and the quote is that of the longest accepted name, with name and separator taken off, if that is not empty and its id can be looked up |
| Mentions.LocateMention | hub.go:333-343 | the flag loop returns the rune offset and length of the first flag found, or -1 and 0 |
| Mentions.FindAddressee | hub.go:316-328 | the name between @ and the mark, or the longest one found after @ |
| Mentions.FindMention | hub.go:304-356 | the mention part of the handler computes the message without its mark and the stored span |
| Mentions.NoMention | hub.go:316 | a text without an @ mentions nobody and stays as it is |
| Mentions.MentionSpan | hub.go:333-343 | offset and length are the code-point index and length of the first occurrence of the flag with a blank, else of the one without |
| Mentions.MentionSlice | hub.go:333-343 | the slice of code points is the flag at its first occurrence; -1 and 0 exactly when the name does not occur after an @ |
| Mentions.MentionAtFirstAt | hub.go:333-343 | the stored span starts at the first @ if and only if a blank follows the name there or no later occurrence is followed by one |
| Mentions.MarkedMention | hub.go:316-353 | any text with a mark after its first @: the trimmed name before that mark is looked up, and for a member the text without its first mark is stored with the code-point span of the name in it |
| Mentions.BotMention | hub.go:307-353 | a message for the bot: the same for the name the bot is shown under, if it is a member |
| Mentions.RightMarkRemoved | hub.go:330-332 | the mark after the name is the one removed if and only if no mark precedes its @; otherwise the name keeps it |
| Mentions.MarkedSpan | hub.go:321-343 | the span stored for a marked name is in range with the flag as its slice if and only if no white space follows the @ or the flag occurs elsewhere |
| Mentions.UnmarkedMention | hub.go:316-353 | any text with no mark after its first @: the longest name found there is looked up, and for a member the text without its first mark is stored with that span |
| Mentions.UnmarkedSpan | hub.go:323-343 | the same condition for the span of that name |
| TextHandler.OnText | hub.go:266-368 | the handler computes the trimmed text, and for a group message its quote and then the mention in the reply |
| TextHandler.PrivateText | hub.go:272-276 | outside groups a text is trimmed and nothing else |
| TextHandler.PlainGroupText | hub.go:272-316 | so is a group text that quotes nobody and has no @ |
| TextHandler.PanicsExactly | hub.go:272-280 | the handler panics if and only if a group message, once trimmed, starts with the English suffix |
| TextHandler.QuoteAndMention | hub.go:276-356 | of a printed quote with a mention in its reply both are stored, the mention with its span in the reply |
| TextHandler.QuoteToBot | hub.go:276-356 | of a printed quote whose reply is for the bot both are stored, the mention with the bot's shown name |
| TextWitnesses.QuoteFound | hub.go:280-301 | a quote in either form, with any reply and bot flag, that comes back whole |
| TextWitnesses.HeadlessPanics | functions.go:46-48 | trimmed messages on which the quote parser panics |
| TextWitnesses.LongNameLost | functions.go:15-30 | a printed quote of a member with 14 or 15 runes comes back without the quote |
| TextWitnesses.FourteenRunesLost | functions.go:15-30 | one such message |
| TextWitnesses.LaterMention | hub.go:316-353 | a trimmed message with two mentions in a row: the second is the one located |
| TextWitnesses.MarkKept | hub.go:316-353 | a trimmed message with a mark before its @: that mark is removed and the one after the name stored |
| TextWitnesses.BotMarkKept | hub.go:307-353 | the same for a message to the bot that mentions somebody else first |
| TextWitnesses.MentionNowhere | hub.go:316-353 | for "@ bob" a mention with offset -1 and length 0 is stored |

## Left out

- Names.GetUserFromContent: an empty separator, which Go splits into characters, is excluded; the callers pass three non-empty constants.
- Mentions.FindMention: the search among the members, the id lookup, the test for the bot and emoji formatting are functions passed in; what an id lookup does to the identity store is proved apart from the text.
- Broadcast.BroadcastOrder: stops at cancellation of the server's context, needs a positive heartbeat (with none the Serve loop dereferences a nil ticker), treats map operations as atomic, and leaves out the callback on received messages.
- Text comparison in the database is equality of strings; a collation that ignores case is not modelled.
- The id hash is any function of the user name and may collide; update times are left out.
- Concurrent calls of the member and message managers: calls run one at a time.
- HTTP API, authentication, storage, the sender, main: input and output over libraries.
- The MQTT redirector and the websocket client redirector: the first is library behaviour, the second promises no order across reconnects.
- Media and system messages, JSON marshalling, regular expressions for group renames, emoji formatting, rate limiting and cron.
