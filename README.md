# In-memory messaging store

A model of the store behind a small messaging backend. Users register with a
name and a phone and get a short code. Users befriend each other by code.
Friends exchange text messages. The store is three arrays (`users`,
`friendships`, `messages`) that only ever grow. Three write handlers append to
them after guard checks: register, add-friend and send-message. Three read
handlers compute answers from them: the chat list of a user, the conversation
between two users, and the lookup of one user.

Layout, one module per component:

- `list_ops.dfy` (`ListOps`): the array operations `find` and `filter` that every handler is built from.
- `stable_sort.dfy` (`StableSort`): `Array.prototype.sort` with a numeric
  comparator. This is a stable sort. A comparator `(a, b) => key(a) - key(b)`
  sorts by ascending `key`. The descending comparator
  `(a, b) => b.timestamp - a.timestamp` is the same thing with key `-timestamp`.
- `entities.dfy` (`Entities`): users, edges, messages, the public user view, chat entries, and the error kinds.
- `directory.dfy` (`Directory`): lookups of a user by code and by phone.
- `friend_graph.dfy` (`FriendGraph`): the either-orientation edge lookup, and the edges that touch one user.
- `message_log.dfy` (`MessageLog`): the messages of one conversation, oldest first, and the newest one.
- `chat_summaries.dfy` (`ChatSummaries`): the chat list.
- `store_invariants.dfy` (`StoreInvariants`): what the guarded writes keep true.
- `store.dfy` (`Messenger`): class `Store`. It has the three arrays as `seq`
  fields, one method per write handler and one function per read handler.
- `scenario.dfy` (`Scenario`): a client run. Two users register, befriend each
  other and exchange one message. Every answer is fixed by the contracts and
  the query definitions.

The store invariant (`StoreInvariants.StoreInvariant`) says:

- no two users share a phone;
- no edge joins a code to itself;
- no two edges join the same unordered pair;
- both ends of every edge are registered codes;
- every message was sent along an edge.

Codes are not assumed to be unique, because the source does not enforce it.
Every lookup by code is "the first user with that code".

Behaviour of the code worth knowing:

- The chat list is built from edges, in the order the edges were added. A
  friend's code may resolve to no user. Such an entry is dropped, but under
  the invariant this never happens (`ChatsForComplete`).
- A chat's `lastMessage` comes from the head of a stable descending sort by
  timestamp. So it is the earliest-logged of the messages with the largest
  timestamp. A second message logged in the same millisecond does not replace
  it (`LatestAfterSend`).
- Add-friend checks "not found" before "self". So befriending oneself with an
  unknown code answers "not found".

## Model

| member | source | states |
|---|---|---|
| `ListOps.FindIndex` | server.js:60-61 | the index of the first element satisfying the predicate; none exactly when no element does |
| `ListOps.Find` | server.js:60-61 | `find` returns an element satisfying the predicate with no satisfying element before it; none exactly when no element satisfies it |
| `ListOps.FindIndexAppend` | server.js:44 | appending to an array does not move an existing first match |
| `ListOps.Filter` | server.js:108-110 | `filter` keeps exactly the satisfying elements, and the result is no longer than the input |
| `ListOps.FilterCount` | server.js:186-188 | each satisfying element is kept as many times as it occurs; every other element is dropped |
| `ListOps.FilterAppend` | server.js:186-188 | filtering distributes over concatenation, so the log order is kept |
| `ListOps.FilterKeepsPairwise` | server.js:108-110 | a relation between earlier and later elements survives filtering |
| `ListOps.Present` | server.js:131 | `.filter(chat => chat !== null)` keeps every present entry and nothing that was absent |
| `ListOps.PresentAppend` | server.js:131 | dropping the absent entries distributes over concatenation, so the present entries keep their order |
| `ListOps.PresentAll` | server.js:131 | when no entry is absent, nothing is dropped and the order is kept |
| `StableSort.SortBy` | server.js:189 | the sort keeps the length (the same sort, newest first, is at line 122); `SortByAscending`, `SortByPermutes`, `SortByStable` and `SortByCharacterized` state that it is Array.prototype.sort with a numeric comparator |
| `StableSort.SortByAscending` | server.js:189 | the sorted result has non-decreasing keys |
| `StableSort.SortByPermutes` | server.js:189 | the sorted result is a permutation of the input |
| `StableSort.SortByStable` | server.js:189 | elements with equal keys keep their input order |
| `StableSort.StableSortUnique` | server.js:189 | two sorted sequences with the same per-key subsequences are equal, so there is only one stable sort |
| `StableSort.SortByCharacterized` | server.js:189 | any sorted, stable rearrangement of the input equals the model's sort |
| `StableSort.ArgMinFirst` | server.js:122-124 | the first position holding a smallest key |
| `StableSort.SortByHead` | server.js:122-124 | the head of the sorted sequence is the first element with the smallest key |
| `StableSort.FilterArgMin` | server.js:119-124 | the first smallest element of a filtering, located in the unfiltered sequence |
| `Directory.FindUser` | server.js:60-61 | the first user with the code; none exactly when the code is not registered |
| `Directory.FindUserByPhone` | server.js:27 | a user with the phone; none exactly when no user has it |
| `Directory.FindUserStable` | server.js:44 | once a code resolves, registering more users does not change what it resolves to |
| `FriendGraph.FindFriendship` | server.js:78-81 | an edge joining the two codes in either orientation; none exactly when they are not friends |
| `FriendGraph.FindFriendshipSymmetric` | server.js:154-157 | the edge lookup gives the same answer for `(a, b)` and `(b, a)` |
| `FriendGraph.Touching` | server.js:108-110 | exactly the edges with the user at either end |
| `FriendGraph.OtherEnd` | server.js:113 | for an edge touching the user, the result is the friend that the edge joins to the user |
| `MessageLog.PairMessages` | server.js:119-121 | the messages between the two codes, in either direction: no longer than the log, each one in the conversation, and every such message of the log kept (multiplicity and order in `FilterCount`, `FilterAppend`) |
| `MessageLog.History` | server.js:186-189 | the conversation sorted: as long as the unsorted conversation, and every entry between the two codes; `HistoryContents` and `HistoryOrder` state the rest |
| `MessageLog.Latest` | server.js:119-124 | none exactly when the conversation is empty, otherwise a message between the two codes; `LatestSpec` says which one |
| `MessageLog.SortedPairMessages` | server.js:189 | sorting the conversation by any key keeps every entry between the two codes |
| `MessageLog.HistoryContents` | server.js:186-188 | the conversation holds every message between the two codes, in either direction, as often as the log does, and nothing else |
| `MessageLog.HistoryOrder` | server.js:189 | oldest first; messages with equal timestamps keep their log order |
| `MessageLog.HistorySymmetric` | server.js:186-188 | the conversation is the same for `(a, b)` and `(b, a)` |
| `MessageLog.PairMessagesSymmetric` | server.js:119-121 | the unsorted filter is the same for `(a, b)` and `(b, a)` |
| `MessageLog.PairMessagesAppend` | server.js:174 | logging a message extends its conversation by that message and leaves other conversations alone |
| `MessageLog.HistoryAfterSend` | server.js:174 | logging a message no older than its conversation appends it to that conversation's history; other conversations are unchanged |
| `MessageLog.LatestSpec` | server.js:119-124 | the newest message is absent exactly when the conversation is empty; otherwise it is the earliest-logged message with the largest timestamp |
| `MessageLog.NewestUnique` | server.js:119-124 | only one position is the earliest-logged newest one |
| `MessageLog.LatestAfterSend` | server.js:119-124 | after one more message, the newest message changes only if the new one is in the conversation and strictly newer; on a tie the earlier message stays |
| `MessageLog.LatestSymmetric` | server.js:119-121 | the newest message is the same for `(a, b)` and `(b, a)` |
| `StoreInvariants.EmptyStoreInvariant` | server.js:13-15 | the empty store satisfies the invariant |
| `StoreInvariants.RegisteredGrows` | server.js:44 | registering keeps every registered code registered |
| `StoreInvariants.FriendsGrow` | server.js:91 | adding an edge keeps every friendship |
| `StoreInvariants.RegisterKeepsInvariant` | server.js:27-44 | appending a user whose phone is not taken keeps the invariant |
| `StoreInvariants.AddFriendKeepsInvariant` | server.js:60-96 | appending an edge between two distinct registered codes that are not yet friends keeps the invariant, including no self-loop and one edge per unordered pair |
| `StoreInvariants.SendKeepsInvariant` | server.js:154-174 | appending a message between friends keeps the invariant, including "every message lies on an edge" |
| `StoreInvariants.NoSelfFriendship` | server.js:154-164 | under the invariant no code is its own friend, so sending to oneself is refused |
| `StoreInvariants.MessagesJoinRegisteredPairs` | server.js:143-174 | under the invariant every logged message joins two distinct registered codes |
| `ChatSummaries.LastText` | server.js:124 | `lastMessage` is null exactly when the two codes have exchanged no message |
| `ChatSummaries.SummaryFor` | server.js:112-130 | an edge yields no entry exactly when its other end resolves to no user; otherwise the entry names that other end and carries the last text between them |
| `ChatSummaries.ChatsFor` | server.js:108-131 | no more entries than edges touching the user; `ChatsForSound`, `ChatsForComplete` and `ChatsForDistinct` state the rest |
| `ChatSummaries.ChatsForSound` | server.js:108-131 | there are at most as many chat entries as edges touching the user; each entry names the other end of such an edge, that user's name, and the newest message between them |
| `ChatSummaries.ChatsForComplete` | server.js:112-131 | when every edge's ends resolve, entry `i` summarises the `i`-th edge touching the user, in edge order, and none is dropped |
| `ChatSummaries.ChatsForDistinct` | server.js:108-131 | under the invariant no friend appears twice in a chat list |
| `ChatSummaries.ChatsForUnderInvariant` | server.js:108-131 | in any state that satisfies the invariant, the chat list has one entry per touching edge, in edge order, with no friend twice |
| `ChatSummaries.ChatsForUnknownUser` | server.js:108-110 | under the invariant a code that resolves to no user has an empty chat list |
| `Entities.View` | server.js:48-52 | no contract of its own: the `{code, name, phone}` answer, also given at lines 211-215; `Messenger.Store.Register` and `Messenger.Store.UserInfo` state what it returns |
| `Messenger.Store.constructor` | server.js:13-15 | the store starts with three empty arrays, which satisfy the invariant |
| `Messenger.Store.Register` | server.js:23-54 | a taken phone gives `DuplicatePhone` and changes nothing; otherwise exactly the new user is appended and `{code, name, phone}` is returned; edges and messages are untouched; the invariant is kept |
| `Messenger.Store.AddFriend` | server.js:57-102 | `UserNotFound` if either code is not registered, else `SelfFriendship` if the codes are equal, else `AlreadyFriends` if an edge joins them in either orientation, else success; exactly one edge `(userCode, friendCode)` is appended on success and nothing otherwise; users and messages are untouched; the invariant is kept |
| `Messenger.Store.SendMessage` | server.js:140-180 | `UserNotFound` if either code is not registered, else `NotFriends` if no edge joins them, else success; exactly one message is appended on success and nothing otherwise; users and edges are untouched; the invariant is kept |
| `Messenger.Store.Chats` | server.js:105-137 | the chat list: in every state, no more entries than edges touching the user, each summarising such an edge; in a valid state, entry `i` summarises the `i`-th such edge, none is dropped, and no friend appears twice |
| `Messenger.Store.Messages` | server.js:183-195 | the conversation: exactly the messages between the two codes, oldest first, with equal timestamps in log order |
| `Messenger.Store.UserInfo` | server.js:198-217 | `UserNotFound` exactly when the code is not registered; otherwise the public view of the first user with that code |
| `Scenario.AliceAndBobBefriend` | server.js:23-102 | after two registrations and three friend requests, the store holds exactly Alice, Bob and one edge between them; the repeated and the self-directed requests are refused |
| `Scenario.QueriesAfterHi` | server.js:105-195 | after Alice and Bob befriend each other and Alice sends "hi", the chat list and the conversation are exactly the expected ones |

## Left out

- HTTP transport is not modelled, because it is routing and I/O: Express
  routing, `cors()`, `express.json()`, `app.listen`, the `PORT` variable and
  the startup log line. The write handlers and the user lookup answer with a
  `Result`/`Outcome` value. The chats and messages
  handlers always answer `success: true`, so they return their payload
  directly. The always-200 JSON shape and the Russian message strings are not
  modelled; each failure string maps to one `Error` kind.
- `uuidv4()` and `generateUserCode()` are not modelled, because they depend on
  randomness and a foreign library. The id and the code are parameters of the
  write methods. Codes are not checked for uniqueness, and neither does the
  source check them.
- `new Date()` is not modelled, because it reads the clock. Every timestamp
  and `createdAt` is a caller-supplied millisecond count (`nat`). The clock is
  not assumed to be monotone. Only `MessageLog.HistoryAfterSend` needs a
  non-decreasing timestamp, and it states that as a precondition.
  `LatestAfterSend` covers both the newer and the not-newer cases.
- Request bodies with missing fields are not modelled. In JavaScript they
  make `undefined === undefined` match in `find`. Every field here is a string.
- Concurrency is not modelled: each method is one atomic step, as under the
  single-threaded event loop.
