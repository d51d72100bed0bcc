/** Per-channel game state and the registry of channels, from src/room.rs.
    A room holds the turn order, the vote in progress and, once loaded, the
    word index of the channel; the registry maps channel ids to rooms. The
    locks around both are left out: every operation here is one atomic step,
    and file I/O enters as a parameter giving its outcome. */
module Room {
  import opened Wrappers
  import opened Ints
  import opened Message
  import opened FuzzyIndex

  /** `VoteState`: the proposer, the proposed word, the id of the status
      message, the two ballot sets and the status-message builder. A `HashSet`
      of user ids is a duplicate-free sequence here, in insertion order. */
  datatype VoteState = VoteState(
    targetUser: Option<u64>,
    targetWord: Option<string>,
    voteMessage: Option<u64>,
    good: seq<u64>,
    bad: seq<u64>,
    builder: TryMessageBuilder)

  /** `VoteState::default()`: no vote is in progress. */
  function DefaultVote(): (v: VoteState)
    ensures v.targetUser.None? && v.targetWord.None? && v.voteMessage.None?
    ensures v.good == [] && v.bad == []
    ensures v.builder == DefaultBuilder()
  {
    VoteState(None, None, None, [], [], DefaultBuilder())
  }

  /** `RoomState`: the channel id, the turn order, the vote, and the word index
      when it has been loaded. */
  datatype RoomState = RoomState(id: u64, queue: seq<u64>, vote: VoteState, index: Option<Index>)

  /** `RoomState::new` */
  function NewRoom(id: u64): (r: RoomState)
    ensures r.id == id && r.queue == [] && r.vote == DefaultVote() && r.index.None?
  {
    RoomState(id, [], DefaultVote(), None)
  }

  /** `load_words`: `stored` is the outcome of reading the channel's index file
      (`None` when it is missing or unreadable). The room always ends up with
      an index: the stored one, or a fresh empty one. */
  function LoadWords(room: RoomState, stored: Option<Index>): (r: RoomState)
    ensures r.index.Some?
    ensures stored.Some? ==> r.index == stored
    ensures stored.None? ==> IndexWords(r.index.value) == [] && ValidIndex(r.index.value)
    ensures r.(index := room.index) == room
  {
    match stored
    case Some(ix) => room.(index := Some(ix))
    case None => room.(index := Some(NewIndex()))
  }

  /** `get_index_or_new`: the room's index, loading it first if the room has
      none yet. An index once present is returned without reading `stored`. */
  function GetIndexOrNew(room: RoomState, stored: Option<Index>): (r: (RoomState, Index))
    ensures r.0.index == Some(r.1)
    ensures room.index.Some? ==> r.0 == room
    ensures room.index.None? ==> r.0 == LoadWords(room, stored)
  {
    match room.index
    case Some(ix) => (room, ix)
    case None =>
      var loaded := LoadWords(room, stored);
      (loaded, loaded.index.value)
  }

  /** The lazy loading settles after the first call: a second call changes
      nothing and returns the same index, whatever the file would now hold. */
  lemma GetIndexSettles(room: RoomState, stored: Option<Index>, later: Option<Index>)
    ensures var (r1, ix) := GetIndexOrNew(room, stored);
      GetIndexOrNew(r1, later) == (r1, ix)
  {
  }

  /** Loading is idempotent, and a room that has loaded its words keeps them:
      loading again with the same file outcome gives the same room, and
      `get_index_or_new` on it reads nothing. */
  lemma LoadWordsSettles(room: RoomState, stored: Option<Index>, later: Option<Index>)
    ensures LoadWords(LoadWords(room, stored), stored) == LoadWords(room, stored)
    ensures GetIndexOrNew(LoadWords(room, stored), later).0 == LoadWords(room, stored)
  {
  }

  /** Failures of writing an index file: the encoder, or the file system. */
  datatype StoreFailure = IndexFailure | IoFailure

  /** `SaveError` */
  datatype SaveError = NotLoaded | Failed(cause: StoreFailure)

  /** `save_words`: `NotLoaded` exactly when the room has no index in memory;
      otherwise the outcome of creating the directory and writing the file. */
  function SaveWords(room: RoomState, written: Option<StoreFailure>): (r: Result<(), SaveError>)
    ensures r == Err(NotLoaded) <==> room.index.None?
    ensures r.Ok? <==> room.index.Some? && written.None?
    ensures room.index.Some? && written.Some? ==> r == Err(Failed(written.value))
  {
    if room.index.None? then Err(NotLoaded)
    else
      match written
      case None => Ok(())
      case Some(f) => Err(Failed(f))
  }

  /** Saving after loading never meets `NotLoaded`: once `get_index_or_new`
      has run, the save succeeds exactly when the write does. */
  lemma SaveAfterLoad(room: RoomState, stored: Option<Index>, written: Option<StoreFailure>)
    ensures SaveWords(GetIndexOrNew(room, stored).0, written) != Err(NotLoaded)
    ensures SaveWords(GetIndexOrNew(room, stored).0, written).Ok? <==> written.None?
    ensures SaveWords(LoadWords(room, stored), written).Ok? <==> written.None?
  {
  }

  // ---------------------------------------------------------------------------
  // The registry
  // ---------------------------------------------------------------------------

  /** `RoomManager`: the rooms by channel id. */
  type Registry = map<u64, RoomState>

  /** Every room is filed under its own channel id. */
  predicate WellKeyed(reg: Registry) {
    forall id :: id in reg ==> reg[id].id == id
  }

  /** `has_room` */
  predicate HasRoom(reg: Registry, id: u64) {
    id in reg
  }

  /** `create_room`: a fresh room for `id` unless one is there already, which
      is kept as it is; no other room changes. */
  function CreateRoom(reg: Registry, id: u64): (r: Registry)
    ensures HasRoom(r, id)
    ensures r.Keys == reg.Keys + {id}
    ensures HasRoom(reg, id) ==> r == reg
    ensures !HasRoom(reg, id) ==> r[id] == NewRoom(id)
    ensures forall other :: other in reg && other != id ==> r[other] == reg[other]
    ensures WellKeyed(reg) ==> WellKeyed(r)
  {
    if id in reg then reg else reg[id := NewRoom(id)]
  }

  /** `get_or_new_room` and `get_or_new_room_mut`: the room for `id`, created
      first when absent. The second variant hands out the shared room itself
      rather than a copy, which in this value model is the same thing. */
  function GetOrNewRoom(reg: Registry, id: u64): (r: (Registry, RoomState))
    ensures HasRoom(r.0, id) && r.0[id] == r.1
    ensures HasRoom(reg, id) ==> r.0 == reg && r.1 == reg[id]
    ensures !HasRoom(reg, id) ==> r.1 == NewRoom(id)
    ensures r.0.Keys == reg.Keys + {id}
    ensures forall other :: other in reg && other != id ==> r.0[other] == reg[other]
  {
    var created := CreateRoom(reg, id);
    (created, created[id])
  }

  /** Getting a room is creating it and then looking it up, and doing either
      twice is the same as doing it once. */
  lemma GetOrNewIsCreate(reg: Registry, id: u64)
    ensures GetOrNewRoom(reg, id).0 == CreateRoom(reg, id)
    ensures CreateRoom(CreateRoom(reg, id), id) == CreateRoom(reg, id)
    ensures GetOrNewRoom(GetOrNewRoom(reg, id).0, id) == GetOrNewRoom(reg, id)
  {
  }

  /** `save_and_unload_all_room`: every room is drained from the registry and
      saved; `written` gives the outcome of each room's file write. A failure
      is only logged, so the outcomes are reported per room and the registry
      is left empty either way. */
  function SaveAndUnloadAll(reg: Registry, written: u64 -> Option<StoreFailure>): (r: (Registry, map<u64, Result<(), SaveError>>))
    ensures r.0 == map[]
    ensures r.1.Keys == reg.Keys
    ensures forall id :: id in reg ==> r.1[id] == SaveWords(reg[id], written(id))
    ensures forall id :: id in reg ==> (r.1[id] == Err(NotLoaded) <==> reg[id].index.None?)
  {
    (map[], map id | id in reg :: SaveWords(reg[id], written(id)))
  }

  /** After the shutdown save no channel is registered any more: every id is
      absent, and asking for a room again yields a fresh one. Each room that
      had loaded its words reports success exactly when its write succeeded. */
  lemma UnloadLeavesNoRoom(reg: Registry, written: u64 -> Option<StoreFailure>, id: u64)
    ensures var (after, results) := SaveAndUnloadAll(reg, written);
      && !HasRoom(after, id)
      && GetOrNewRoom(after, id) == (map[id := NewRoom(id)], NewRoom(id))
      && (id in reg && reg[id].index.Some? ==> (results[id].Ok? <==> written(id).None?))
  {
  }
}
