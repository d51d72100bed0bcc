# Shiritori bot core in Dafny

A model of the game core of the Shiritori Discord bot. Players in a channel
(a "room") take turns proposing English words. The other players vote on
each proposal with reactions. An accepted word joins the room's word list,
and the turn passes to the next player. The model covers:

- **the word index** (`FuzzyIndex`, `EditDistance`): a BK-tree keyed by
  Levenshtein distance, with its edit-distance search and its
  exact/substring/prefix/suffix search;
- **room state** (`Room`): the vote in progress, the turn order, the lazily
  loaded word index, and the registry of rooms;
- **actions** (`Actions`): proposing a word, voting, setting and extending
  the turn order, adding words, searching, and skipping turns;
- **status texts** (`Message`, `Mentions`): the texts the bot posts, read
  back through the bot's own `<@id>` mention parser;
- **text commands** (`MessageCommands`): routing a channel message to an
  action and decoding its arguments;
- **the `/find` slash command** (`FindCommand`): decoding its options;
- **SQLite parameter conversions** (`WrapParams`): the `u64` ⇄ `i64`
  reinterpretation and the `into_value` conversions.

Every side effect becomes an explicit input or output:

- sending and editing Discord messages become returned strings (`Option`
  when nothing is posted);
- reading the stored word file becomes an `Option<Index>` argument (`None`
  when there is no file);
- the outcome of writing it becomes an `Option<StoreFailure>` argument;
- the dictionary lookup becomes a `mean` string argument;
- `msg.mentions_me` becomes a boolean argument.

Rust `usize`/`u64` arithmetic is written out on unbounded integers. The one
subtraction that can underflow is modelled with release-build wrap-around
(`WrappingSub`).

Shared helper modules:

- `Wrappers`: `Option` and `Result`;
- `Ints`: integer ranges and wrap-around;
- `Text`: the ASCII character classes, `trim`, `split`, `split_whitespace`,
  `join`, `to_lowercase` and decimal rendering the commands use.

## Model

| member | source | states |
|---|---|---|
| EditDistance.DistBasics | src/fuzzy_index.rs:211-227 | a word is at distance 0 from itself and at its own length from the empty word (the table's first row and column) |
| EditDistance.DistSymmetric | src/fuzzy_index.rs:211-227 | the edit distance does not depend on argument order |
| EditDistance.DistLengthBounds | src/fuzzy_index.rs:211-227 | the distance is at least the length difference and at most the length sum |
| EditDistance.Triangle | src/fuzzy_index.rs:34-48 | the triangle inequality, which is what makes pruning by the window `[d-m, d+m]` safe |
| EditDistance.DistanceTable | src/fuzzy_index.rs:211-227 | the two-row dynamic-programming loop returns the true edit distance when the row has one cell per character of `b`, and the row's width when the row is wider (its last cell is never written) |
| EditDistance.LevenshteinAsWritten | src/fuzzy_index.rs:211-227 | `levenshtein` as written (row sized by the byte length of `b`) equals the edit distance when `b` is ASCII and returns `b`'s UTF-8 length otherwise |
| EditDistance.MultiByteMismatch | src/fuzzy_index.rs:211-227 | the word "é" is at distance 0 from itself, but it is not ASCII and has UTF-8 length 2 |
| EditDistance.Levenshtein | src/fuzzy_index.rs:211-227 | the loop with a row sized by characters returns the edit distance on every input |
| FuzzyIndex.MetricInvariant | src/fuzzy_index.rs:25-32 | in a valid tree each child hangs under the key equal to its distance from the parent, and sibling keys differ |
| FuzzyIndex.InsertWords | src/fuzzy_index.rs:25-32 | `insert` adds exactly one copy of the word (duplicates included) and loses none |
| FuzzyIndex.InsertValid | src/fuzzy_index.rs:25-32 | `insert` keeps the BK-tree invariant (every word under key `k` is at distance `k` from the parent) |
| FuzzyIndex.InsertExtends | src/fuzzy_index.rs:25-32 | `insert` only adds: every existing node keeps its word and its edges |
| FuzzyIndex.InsertDuplicate | src/fuzzy_index.rs:25-32 | a duplicate of a node's word descends under key 0 |
| FuzzyIndex.NewIndex | src/fuzzy_index.rs:94-96 | a new index holds no words and is valid |
| FuzzyIndex.AddWord | src/fuzzy_index.rs:99-106 | the first word becomes the root; the stored multiset grows by exactly the word; the tree stays valid and only grows |
| FuzzyIndex.AddWords | src/fuzzy_index.rs:109-117 | the words are added one by one in order; the stored multiset grows by exactly the given words; validity is kept |
| FuzzyIndex.SearchFuzzyWith | src/fuzzy_index.rs:34-48 | whatever window the search prunes with, every word it returns is within the maximum distance |
| FuzzyIndex.SearchFuzzyComplete | src/fuzzy_index.rs:34-48 | on a valid tree the pruned search returns exactly the stored words within the maximum distance, in traversal order |
| FuzzyIndex.SearchFuzzy | src/fuzzy_index.rs:120-126 | an empty index gives nothing; on a valid index the result is exactly the stored words within `max_dist` of the query |
| FuzzyIndex.WindowTruncationLosesMatch | src/fuzzy_index.rs:40-41 | with the window cast `as u32`, the index {"a","b"} searched for "a" within 2^32 misses "b", which the untruncated search finds |
| FuzzyIndex.SearchMatchExact | src/fuzzy_index.rs:50-65 | the unpruned traversal returns exactly the stored words that satisfy the mode's predicate |
| FuzzyIndex.SearchMatch | src/fuzzy_index.rs:129-135 | `search_match` returns exactly the stored words equal to, containing, starting with or ending with the query, as the mode says |
| Mentions.ParsePlainPrefix | src/commands/message_commands.rs:17-23 | text without `<` contributes no mention |
| Mentions.ParseMentionFirst | src/commands/message_commands.rs:17-23 | a rendered `<@id>` is parsed back as `id` |
| Mentions.ParseMentionList | src/commands/message_commands.rs:17-23 | a separated list of rendered mentions is parsed back as the same ids, in order |
| Mentions.ParseMentionListAlone | src/commands/message_commands.rs:17-23 | the same for a list on its own |
| Message.DefaultBuilder | src/message.rs:3-12 | a fresh builder has no proposer, word, meaning or similar words, and empty voter and ballot lists |
| Message.InitBuilder | src/message.rs:17-24 | `init` sets the proposer, the word and the voters and leaves everything else at its default |
| Message.NotVoted | src/message.rs:79-84 | the not-voted list holds exactly the voters asked who cast no ballot |
| Message.NotVotedCount | src/message.rs:74-75 | the printed count is the voters asked minus the ballots cast, wrapped modulo 2^64 when the ballots outnumber the voters |
| Message.Build | src/message.rs:26-92 | an answered word gives only the "already answered" text; otherwise the sections are followed by the tally with the as-written not-voted count |
| Message.BuildCorrected | src/message.rs:26-92 | the same text, with the not-voted count equal to the length of the not-voted list |
| Message.VoteSectionMentions | src/message.rs:73-89 | the vote section mentions the good voters, then the bad voters, then the voters who have not voted |
| Message.SectionsEnd | src/message.rs:44-89 | the status text ends with the not-voted line |
| Message.NotVotedLine | src/message.rs:73-89 | the as-written text ends with the wrapped count, the corrected text with the list's length, and that line mentions exactly the voters still to vote |
| Message.OutsiderBallotsMiscount | src/message.rs:74-89 | one ballot from outside the voters makes the count 1 while two users are listed; two such ballots wrap it to 2^64-1 while one is listed |
| Message.BuildMentions | src/message.rs:26-92 | the status text mentions the proposer, then the good, bad and not-yet voters, and the corrected text mentions the same |
| Message.SimilarSectionLines | src/message.rs:59-65 | the similar-words section is a header, a fence, one line per word and a closing fence |
| Message.RegisterMessage | src/message.rs:95-101 | the "already registered" text is given exactly when the room was registered |
| Message.SetQueueMentions | src/message.rs:103-129 | a new order is mentioned in full and then its first player; with no new order, the current one is; with neither, the "no queue" text is given |
| Message.AddQueueMentions | src/message.rs:131-149 | the added player, the whole new order and the next player are mentioned |
| Message.FindMessageLines | src/message.rs:151-161 | the find reply is a header line followed by one line per found word |
| Message.AddedWordsLines | src/message.rs:163-177 | the added-words reply is a header, one line per word and a closing fence |
| Room.DefaultVote | src/room.rs:10-24 | the default vote has no target, no message, empty ballots and a default builder |
| Room.NewRoom | src/room.rs:74-81 | a new room has an empty order, the default vote and no index loaded |
| Room.GetIndexOrNew | src/room.rs:83-93 | an index already loaded is returned with the room unchanged; otherwise the stored index is loaded first |
| Room.GetIndexSettles | src/room.rs:83-93 | after the first call the room keeps returning the same index, whatever the storage says |
| Room.LoadWords | src/room.rs:95-115 | the stored index is used when there is one and an empty valid index otherwise; nothing but the index changes |
| Room.LoadWordsSettles | src/room.rs:95-115 | loading twice is loading once, and a loaded room needs no further load |
| Room.SaveWords | src/room.rs:117-133 | saving fails with "not loaded" exactly when no index is loaded, and reports the storage failure otherwise |
| Room.SaveAfterLoad | src/room.rs:117-133 | after a load, saving never reports "not loaded" and succeeds exactly when the storage write does |
| Room.CreateRoom | src/room.rs:147-150 | afterwards the room exists; an existing room is kept; no other room changes |
| Room.GetOrNewRoom | src/room.rs:152-178 | afterwards the room exists; an existing room is returned unchanged and a new one is fresh; no other room changes |
| Room.GetOrNewIsCreate | src/room.rs:147-165 | getting a room registers it exactly as `create_room` does, and both are idempotent |
| Room.SaveAndUnloadAll | src/room.rs:185-202 | every room is saved and reports its own outcome, and the registry is left empty |
| Room.UnloadLeavesNoRoom | src/room.rs:185-202 | after unloading no room exists, the next access creates a fresh one, and loaded rooms report success exactly when the write succeeds |
| Actions.WithoutCounts | src/actions.rs:34 | removal keeps exactly the other values, each as often as before, and keeps a set a set |
| Actions.WithoutAppend | src/actions.rs:34 | filtering commutes with concatenation, so queue order is kept |
| Actions.WithoutAbsent | src/actions.rs:34 | filtering out a user who is not there changes nothing |
| Actions.TryWord | src/actions.rs:22-62 | a proposal replaces only the vote; it targets the proposer and the word, has no ballots and no message yet, asks the order without the proposer, and renders the status text |
| Actions.TryWordVoters | src/actions.rs:34 | the voters asked are the turn order before and after the proposer, in order, or the whole order when the proposer is not in it |
| Actions.AttachVoteMessage | src/actions.rs:57-61 | the posted status message is recorded and nothing else changes |
| Actions.TryWordOpensVote | src/actions.rs:118-130 | once the status message is recorded the ballot sets are valid, the proposer's ballot is ignored with nothing changed, and anyone else's ballot counts |
| Actions.EnrichSimilar | src/actions.rs:66-85 | similar words are written into the room's current builder, and the text is re-rendered only when the vote's word is still the looked-up one |
| Actions.EnrichMeaning | src/actions.rs:87-102 | the meaning is written into the room's current builder, and the text is re-rendered only when the vote's word is still the looked-up one |
| Actions.StaleMeaningLeaks | src/actions.rs:93-97 | a late meaning of "apple" lands in the builder of a newer vote on "banana" |
| Actions.EnrichMeaningGuarded | src/actions.rs:93-97 | with the word checked first, a stale meaning changes nothing, and a current one acts as before |
| Actions.EnrichSimilarGuarded | src/actions.rs:76-80 | with the word checked first, stale similar words leave the vote unchanged, and current ones act as before |
| Actions.GuardedLookupsKeepVote | src/actions.rs:64-103 | stale lookups with the check first leave the vote untouched |
| Actions.UpdateBallots | src/actions.rs:140-152 | a cancel removes the voter from both sets, a good or bad ballot moves them into that set only, and no other ballot changes |
| Actions.Majority | src/actions.rs:166 | the threshold is the least count above half the turn order |
| Actions.Vote | src/actions.rs:106-224 | an ignored ballot changes nothing; otherwise the voter is answered "有効/無効 に投票しました。", the ballot is applied, and the vote is accepted (word added, turn passed, vote reset, the message edited to the YES/NO result naming the new head), rejected (vote reset, the message edited to the NO/YES result naming the head) or kept pending (status text re-rendered), according to the majority of the turn order |
| Actions.AcceptedMentions | src/actions.rs:170-176 | the acceptance text names the head of the rotated turn order and nobody else, and nobody when the turn order is empty |
| Actions.RejectedMentions | src/actions.rs:193-198 | the rejection text names the head of the turn order, who must answer again, and nobody else |
| Actions.ResolutionNamesNextPlayer | src/actions.rs:170-198 | whatever the threshold, an accepted vote's message names the player after the old head (the old head when alone) and a rejected vote's message names the head |
| Actions.VoteKeepsBallots | src/actions.rs:140-152 | every vote keeps the ballot lists duplicate-free and disjoint |
| Actions.AcceptKeepsIndexValid | src/actions.rs:171-189 | an accepted word keeps a valid index valid |
| Actions.TwoPlayersNeedOutsiders | src/actions.rs:155-166 | with two players, the one who may vote can never reach the majority alone |
| Actions.Tally | src/actions.rs:120-224 | against any threshold: an ignored ballot changes nothing; otherwise the voter is answered, the ballot is applied, and the word is accepted once the good ballots reach the threshold (word added, turn passed, vote reset, result text with the new head), rejected once the bad ones do (vote reset, result text with the head), and otherwise kept pending with the status text re-rendered |
| Actions.VoteOverVoters | src/actions.rs:155-166 | the corrected vote: accepted or rejected by a majority of the voters asked rather than of the turn order, with the same room effects and texts as `vote` for each outcome, and identical to `vote` whenever the two thresholds give the same outcome |
| Actions.TwoPlayersAcceptOverVoters | src/actions.rs:155-166 | in a two-player game, the other player's good ballot passes the word under the corrected vote, while `vote` as written leaves it pending |
| Actions.TwoPlayersPassOverVoters | src/actions.rs:155-166 | measured against the voters asked, that one good ballot is a majority, though it is short of the turn-order majority |
| Actions.RotateLeft | src/actions.rs:350-352 | rotating keeps the players and moves the first `k` to the back in order |
| Actions.SetQueue | src/actions.rs:226-250 | a non-empty list replaces the order, an empty one keeps it, and the reply describes the new or current order |
| Actions.SetQueueRound | src/actions.rs:226-250 | after setting an order, skipping a full round gives the same order, and an empty `!queue` keeps it |
| Actions.AddQueue | src/actions.rs:252-274 | the player is appended to the order, even when already in it |
| Actions.AddQueueTurn | src/actions.rs:252-274 | the appended player's turn comes after everyone already queued; adding twice queues them twice |
| Actions.Skip | src/actions.rs:340-361 | the skipped player is the old head; the order is rotated by `count` modulo its length and the vote is reset |
| Actions.SkipCompose | src/actions.rs:340-361 | skipping `a` and then `b` is skipping `a + b` |
| Actions.Dedup | src/actions.rs:317-324 | the merge holds each found word exactly once |
| Actions.SearchMerged | src/actions.rs:305-324 | on a valid index the merged result is exactly the stored words within the distance or matching the mode, without repeats |
| Actions.MergedMembers | src/actions.rs:305-324 | the concatenated search lists hold exactly the wanted stored words |
| Actions.DefaultFind | src/actions.rs:409-423 | the default search returns no repeats |
| Actions.DefaultFindMembers | src/actions.rs:409-423 | on a valid index it finds exactly the stored words within a quarter of the query's byte length or containing the query |
| Actions.FindWords | src/actions.rs:297-338 | the index is loaded if needed, the merged search result is returned and the reply lists it |
| Actions.AddWordsTo | src/actions.rs:276-289 | the words are added to the room's (loaded) index in order, growing its multiset by exactly them, and validity is kept |
| Actions.InKnownRoom | src/actions.rs:23-25 | an action in an unregistered room changes nothing, and in a registered room changes that room only |
| Actions.InAnyRoom | src/room.rs:167-178 | an action through `get_or_new_room_mut` registers the room if needed and changes only it |
| MessageCommands.RouteOf | src/commands/message_commands.rs:25-132 | a mention of the bot registers; other messages in unknown rooms are ignored; a word-like message is a proposal; the command prefixes are tried in source order |
| MessageCommands.CommandRoute | src/commands/message_commands.rs:56-64 | a message starting with `!` is neither a proposal nor a find |
| MessageCommands.RouteCommands | src/commands/message_commands.rs:76-131 | each command prefix reaches its own command, `!queue` before `!addqueue` |
| MessageCommands.ProposedWord | src/commands/message_commands.rs:56-61 | the proposed word is the message lowercased: still word-like, no capitals, same length |
| MessageCommands.ProposeIdempotent | src/commands/message_commands.rs:56-61 | a proposed word is routed as a proposal again and lowercasing it changes nothing |
| MessageCommands.FindQuery | src/commands/message_commands.rs:64-65 | the query is the text after `?`, with no surrounding whitespace |
| MessageCommands.FindCommandRequest | src/commands/message_commands.rs:64-73 | `?` searches within a quarter of the query's byte length and by substring |
| MessageCommands.FindRoundTrip | src/commands/message_commands.rs:64-73 | `?` followed by a trimmed query is routed to find and yields that query |
| MessageCommands.FindCommandResults | src/commands/message_commands.rs:64-73 | `?q` finds exactly the stored words within a quarter of `q`'s byte length or containing `q` |
| MessageCommands.CleanWords | src/commands/message_commands.rs:106-111 | the cleaned pieces are no more than the parts, and each is a non-empty lowercase trimmed word |
| MessageCommands.CleanWordsNoop | src/commands/message_commands.rs:106-111 | cleaning pieces that are already lowercase words changes nothing |
| MessageCommands.AddWordsPayload | src/commands/message_commands.rs:97 | the payload after `!addwords` has no surrounding whitespace |
| MessageCommands.AddWordsRequest | src/commands/message_commands.rs:95-117 | the request is accepted exactly when the payload matches `[a-zA-Z\s,]+`; the error is the format message; the accepted words are clean |
| MessageCommands.AddWordsRoundTrip | src/commands/message_commands.rs:95-117 | `!addwords` with comma-joined lowercase words is routed there and yields exactly those words |
| MessageCommands.AddWordsRejects | src/commands/message_commands.rs:99-104 | a payload with any character outside the class is rejected with the format message |
| MessageCommands.QueueRoundTrip | src/commands/message_commands.rs:76-82 | `!queue` followed by mentions is routed there and yields those ids in order |
| MessageCommands.AddQueueRoundTrip | src/commands/message_commands.rs:85-92 | `!addqueue` followed by mentions is routed there and yields those ids in order |
| MessageCommands.SkipCount | src/commands/message_commands.rs:120-126 | the count is the second word's number, and 1 when it is missing or not a `u64` |
| MessageCommands.SkipRoundTrip | src/commands/message_commands.rs:120-131 | `!skip n` skips `n` turns, whatever `n` is |
| MessageCommands.SkipDefault | src/commands/message_commands.rs:120-131 | a bare `!skip` skips one turn |
| MessageCommands.RegisterRoom | src/commands/message_commands.rs:27-45 | a mention registers the room and the reply says whether it already was registered |
| MessageCommands.RegisterTwice | src/commands/message_commands.rs:27-45 | registering again changes nothing and answers "already registered" |
| MessageCommands.AddQueueAll | src/commands/message_commands.rs:85-92 | each mentioned player is appended in turn, with one reply per player built from the order so far |
| FindCommand.FindWord | src/commands/find.rs:31-35 | the word is the first option's string, and empty when it is missing or not a string |
| FindCommand.ModeCode | src/commands/find.rs:5-25 | the four predicate choices register the codes 0 to 3 |
| FindCommand.ModeOfCode | src/commands/find.rs:38-47 | codes 0 to 3 select Exact, Substring, Prefix and Suffix; code 4, other integers and a missing choice select none |
| FindCommand.ModeCodeRoundTrip | src/commands/find.rs:38-47 | a mode's code selects that mode, a selecting code is its mode's code, and the edit-distance code selects no mode |
| FindCommand.FindRequest | src/commands/find.rs:27-59 | the distance is set only by choice 4: the given maximum cast to `usize` (negative values wrap), or a quarter of the word's byte length when none is given |
| FindCommand.FindChoiceResults | src/commands/find.rs:27-59 | a predicate choice finds exactly the stored words its predicate accepts; choice 4 with maximum `d` finds exactly the stored words within `d` |
| FindCommand.NegativeDistanceFindsAll | src/commands/find.rs:50 | a maximum of -1 becomes 2^64-1 |
| WrapParams.U64ToI64 | src/database/wrap_params.rs:7-9 | an id below 2^63 is unchanged; larger ids become `u - 2^64` |
| WrapParams.I64ToU64 | src/database/wrap_params.rs:14-16 | a non-negative value is unchanged; a negative one becomes `i + 2^64` |
| WrapParams.BitsUnchanged | src/database/wrap_params.rs:7-16 | both conversions keep all eight bytes |
| WrapParams.FromBytesRoundTrip | src/database/wrap_params.rs:7-16 | every eight bytes read as `u64` or `i64` write back to the same bytes |
| WrapParams.ReinterpretRoundTrip | src/database/wrap_params.rs:7-16 | each conversion undoes the other on every input |
| WrapParams.U64Value | src/database/wrap_params.rs:29-33 | an id is stored as an integer, unchanged below 2^63 |
| WrapParams.BoolValue | src/database/wrap_params.rs:53-57 | a flag is stored as 1 or 0, non-zero exactly when true |
| WrapParams.ValuesReadBack | src/database/wrap_params.rs:29-57 | stored ids and flags read back unchanged, and different ids never share a stored value |

## Left out

- Locks, `async`/`await`, `tokio::join!` and `tokio::spawn`: each action is
  one atomic step on the room. The two lookups `try_word` starts are two
  separate steps (`EnrichSimilar` and `EnrichMeaning`) that can interleave
  with later actions in any order.
- Discord transport: sending, editing and responding to messages,
  `register_commands`, the slash-command builders of `src/commands/find.rs`
  (only their choice codes are kept), and `reaction_changed` (it maps a
  reaction to `vote`). Replies are returned strings.
- Serialisation and files: the bincode index files (`FuzzyIndex::save/load`),
  JSON room persistence (`to_json`, `from_json`, `save_to_file`,
  `load_or_new`, `save_all`, `save_all_words`) and file paths. Reading the
  stored index is an argument; writing it reports an abstract
  `StoreFailure`.
- The dictionary lookup `get_word_mean_jp` (src/util.rs) is not part of this
  model: its answer is the `mean` argument of `Actions.EnrichMeaning`.
- The SQLite repository (src/database/repository.rs, db.rs) is not part of
  this model. Only the parameter conversions of wrap_params.rs are. The
  `into_value` conversions for `i64`, `&str` and `String` are identities,
  and the one for `f64` is floating point; `to_value` and the `wrap_params!`
  macro only apply them.
- `SharedFuzzyIndex`: the `Arc<RwLock<…>>` wrapper is dropped, and its
  methods are the plain index operations.
- Actions.AddWordsTo: the reply listing the added words is not modelled.
  `add_words` (src/actions.rs:285-287) uses the result of
  `SharedFuzzyIndex::add_words`, which returns unit, so the source states
  no word list to show.
- Actions.Skip: returns the skipped player but no reply text.
  `generate_skip_message` (src/actions.rs:7, 359) is not defined in
  src/message.rs.
- Actions.FindWords: the `global_message` flag only chooses between sending
  and responding, so it is dropped.
- FuzzyIndex.SearchFuzzy: prunes with the untruncated window. The `as u32`
  window of src/fuzzy_index.rs:40-41 is `WindowAsWritten`. The two differ
  only when the distance plus the maximum reaches 2^32 (see Findings).
- FuzzyIndex.Insert: keys children by the character edit distance `Dist`.
  The source's `levenshtein` is byte-sized and differs when a node's word
  is not ASCII. Such words do reach the source's index: `\s` in the
  `[a-zA-Z\s,]` and `[a-zA-Z\-\s]` patterns (src/commands/message_commands.rs:12,
  100) is Unicode whitespace, so `!addwords ab\u{3000}cd` stores a word with
  an ideographic space inside. The model's patterns use the ASCII
  `Text.IsWhitespace`, so the words the model's commands add are ASCII. An
  index read from storage (`Room.LoadWords`) is any index, and a file the
  source wrote may hold such words; on them the model's keys and distances
  differ from the source's (see Findings).
- FuzzyIndex.Insert: child keys are unbounded naturals. The source casts the
  distance `as u32` (src/fuzzy_index.rs:27, 30), which differs only for a
  distance of 2^32 or more, that is for words of at least 2^32 characters.
- FuzzyIndex.SearchFuzzyWith: the same for the distance to the query (see
  Findings).
- FuzzyIndex.SearchFuzzyComplete: children are kept in insertion order.
  The source's `HashMap` iteration order is unspecified
  (src/fuzzy_index.rs:43, 62), so only the set of results is fixed there.
- FuzzyIndex.SearchMatch: returns the words in the order `Matching` lists
  them, a pre-order walk with children in insertion order. The source's
  `search_match` visits the `HashMap` children in unspecified order
  (src/fuzzy_index.rs:62), so only the set of results is its promise.
- Actions.ResolutionNamesNextPlayer, Actions.AcceptedMentions and
  Actions.RejectedMentions: read the resolution texts back only for a word
  without `<`. Every word a proposal admits is one; the model's vote state
  does not record that, so the lemmas ask for it.
- Actions.Dedup: keeps first occurrences in order, while the source's
  `HashSet` (src/actions.rs:318-324, 417-422) yields an unspecified order.
  Only membership and the absence of repeats are the source's promise.
- Actions.Vote: the ballot lists copied into the builder
  (src/actions.rs:211-212) are in a fixed order, while the source collects
  them from a `HashSet`.
- Actions.Vote: the sum of the two ballot counts is assumed not to
  overflow `usize`.
- Message.NotVotedCount: models the release build, which wraps
  `total - voted`. A debug build panics instead.
- Text.IsWhitespace and Text.ToLower: cover only the ASCII part of Unicode
  `\s`, `trim`, `split_whitespace` and `to_lowercase`. The source's
  patterns also admit words with non-ASCII whitespace inside, such as
  `ab\u{3000}cd`; the model's patterns reject them, so only the words the
  model's commands add are ASCII. A stored index may still hold non-ASCII
  words (see `FuzzyIndex.Insert` above).
- Room.SaveAndUnloadAll: the rooms are saved in no particular order, since
  each outcome depends only on its own room.

## Findings

| source | as written | input that shows it | evidently intended | confidence | as-written member | corrected member |
|---|---|---|---|---|---|---|
| src/fuzzy_index.rs:211-227 | the cost row is sized by `b.len()`, the byte length, but filled per character, so for a non-ASCII `b` the last cell is never written and the result is `b`'s byte length | `levenshtein("é", "é")` returns 2, not 0. A game reaches it: `!addwords ab\u{3000}cd` passes the Unicode `\s` of the pattern and stores a non-ASCII word, and the search for that same word measures distance 7 to it, not 0 | the row has one cell per character of `b` | high, not executed | EditDistance.LevenshteinAsWritten, EditDistance.MultiByteMismatch | EditDistance.Levenshtein |
| src/fuzzy_index.rs:40-41 | the search window bounds are cast `as u32`, so `d + max_dist` wraps modulo 2^32 and subtrees within range are pruned | index {"a", "b"}, `/find a` with type 4 and maximum 4294967296: "b" is missed | the window is `[d - m, d + m]` in `usize` | high, not executed | FuzzyIndex.WindowTruncationLosesMatch | FuzzyIndex.SearchFuzzy (proved by FuzzyIndex.SearchFuzzyComplete) |
| src/message.rs:74-89 | the not-voted count is `total - voted`, but `vote` accepts ballots from players outside the voters asked, so the count disagrees with the list and can underflow | voters [2, 3] with a good ballot from 4 prints 1 with two users listed; voters [2] with ballots from 3 and 4 wraps to 18446744073709551615 | the count of the listed not-voted users | medium, not executed | Message.Build, Message.OutsiderBallotsMiscount | Message.BuildCorrected (proved by Message.NotVotedLine) |
| src/actions.rs:93-97 | the lookup writes its result into the room's current builder before checking that the vote is still on its word | propose "apple", then "banana"; the meaning of "apple" arrives and is shown in the next status text for "banana" | check the word before writing | medium, not executed | Actions.StaleMeaningLeaks | Actions.EnrichMeaningGuarded (proved by Actions.GuardedLookupsKeepVote) |
| src/actions.rs:155-166 | the majority counts the whole turn order, including the proposer, whose own ballot is ignored | queue [1, 2]: 1 proposes, 2 votes good, and the vote stays pending | a majority of the voters asked | medium, not executed | Actions.TwoPlayersNeedOutsiders | Actions.VoteOverVoters (proved by Actions.TwoPlayersAcceptOverVoters) |

The actions render status texts with `Message.Build` and count ballots
against `Actions.Majority` of the turn order, as the source does. The
corrected members are separate definitions with their intended properties
proved: `Actions.VoteOverVoters` is the vote with the majority taken over
the voters asked, and both it and `Actions.Vote` are `Actions.Tally` with
their own threshold.
