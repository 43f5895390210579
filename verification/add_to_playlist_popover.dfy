/** The playlist picker on a channel card
    (`frontend/src/components/AddToPlaylistPopover.tsx`). Each row shows
    whether the channel is in that playlist, and a click sends exactly one
    add or remove mutation. A mutation remembers only the variables of its
    latest call, and a row is disabled while a call for its playlist is in
    flight. The backend behind the mutations is not part of this model. */
module AddToPlaylistPopover {
  import opened Maybe

  /** A playlist as the popover reads it: ids are `bigint`s. */
  datatype Playlist = Playlist(id: int, name: string, channels: seq<int>)

  /** The variables of a mutation call. */
  datatype Target = Target(playlistId: int, channelId: int)

  /** A react-query mutation as far as the popover looks at it. */
  datatype Mutation = Mutation(pending: bool, variables: Option<Target>)

  const Idle: Mutation := Mutation(false, None)

  /** The call a click sends. */
  datatype Dispatch = AddTo(target: Target) | RemoveFrom(target: Target)

  /** `isInPlaylist`. */
  predicate IsInPlaylist(p: Playlist, channelId: int) {
    exists k :: 0 <= k < |p.channels| && p.channels[k] == channelId
  }

  lemma IsInPlaylistIsMembership(p: Playlist, channelId: int)
    ensures IsInPlaylist(p, channelId) <==> channelId in p.channels
  {
  }

  /** The mutation is in flight for this playlist. */
  predicate Targets(m: Mutation, playlistId: int) {
    m.pending && m.variables.Some? && m.variables.value.playlistId == playlistId
  }

  /** `isPendingFor`. */
  predicate IsPendingFor(add: Mutation, remove: Mutation, playlistId: int) {
    Targets(add, playlistId) || Targets(remove, playlistId)
  }

  /** `handleToggle`: a member is removed, anything else is added, always for
      this row's playlist and this popover's channel. */
  function Toggle(playlistId: int, channelId: int, isInPlaylist: bool): (d: Dispatch)
    ensures d.RemoveFrom? <==> isInPlaylist
    ensures d.target == Target(playlistId, channelId)
  {
    if isInPlaylist then RemoveFrom(Target(playlistId, channelId))
    else AddTo(Target(playlistId, channelId))
  }

  /** One rendered row. */
  datatype Row = Row(checked: bool, pending: bool, disabled: bool)

  function RowOf(p: Playlist, channelId: int, add: Mutation, remove: Mutation): (r: Row)
    ensures r.checked <==> channelId in p.channels
    ensures r.disabled <==> r.pending
    ensures r.pending <==> IsPendingFor(add, remove, p.id)
  {
    var pending := IsPendingFor(add, remove, p.id);
    Row(IsInPlaylist(p, channelId), pending, pending)
  }

  /** A click on a row: a disabled button does nothing; an enabled one sends
      the toggle for that row. */
  function Click(p: Playlist, channelId: int, add: Mutation, remove: Mutation): (d: Option<Dispatch>)
    ensures d.None? <==> IsPendingFor(add, remove, p.id)
    ensures d.Some? ==> d.value.target == Target(p.id, channelId)
    ensures d.Some? ==> (d.value.AddTo? <==> channelId !in p.channels)
  {
    var row := RowOf(p, channelId, add, remove);
    if row.disabled then None else Some(Toggle(p.id, channelId, row.checked))
  }

  /** `mutate`: the called mutation becomes pending with the new variables,
      replacing any earlier ones; the other is untouched. */
  function Send(d: Dispatch, add: Mutation, remove: Mutation): (r: (Mutation, Mutation))
    ensures d.AddTo? ==> r.0 == Mutation(true, Some(d.target)) && r.1 == remove
    ensures d.RemoveFrom? ==> r.1 == Mutation(true, Some(d.target)) && r.0 == add
  {
    match d
    case AddTo(t) => (Mutation(true, Some(t)), remove)
    case RemoveFrom(t) => (add, Mutation(true, Some(t)))
  }

  /** After a click sends a call, that row is pending and disabled, so a
      second click on it sends nothing until the call settles. */
  lemma ClickDisablesRow(p: Playlist, channelId: int, add: Mutation, remove: Mutation)
    requires Click(p, channelId, add, remove).Some?
    ensures var (add', remove') := Send(Click(p, channelId, add, remove).value, add, remove);
      RowOf(p, channelId, add', remove').disabled && Click(p, channelId, add', remove').None?
  {
  }

  /** Pending tracks only the latest call of each mutation: after an add for
      one playlist, a playlist is pending exactly when it is that one or a
      remove is in flight for it. An add still in flight for another
      playlist no longer disables that playlist's row. */
  lemma PendingFollowsLatestCall(t: Target, add: Mutation, remove: Mutation, playlistId: int)
    ensures var (add', remove') := Send(AddTo(t), add, remove);
      IsPendingFor(add', remove', playlistId) <==> playlistId == t.playlistId || Targets(remove, playlistId)
  {
  }

  /** The call finishes: the mutation is no longer pending, and its variables
      stay as they were. */
  function Finish(m: Mutation): (r: Mutation)
    ensures !r.pending && r.variables == m.variables
    ensures forall playlistId :: !Targets(r, playlistId)
  {
    m.(pending := false)
  }

  /** Once both mutations have finished no row is disabled, and a click
      sends the toggle for the row's current membership. */
  lemma FinishedEnablesRows(p: Playlist, channelId: int, add: Mutation, remove: Mutation)
    ensures var d := Click(p, channelId, Finish(add), Finish(remove));
      d == Some(Toggle(p.id, channelId, channelId in p.channels))
  {
  }
}
