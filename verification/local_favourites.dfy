/** The favourites kept in the browser (`frontend/src/hooks/useLocalFavourites.ts`).

    The favourites are a JavaScript `Set` of channel ids: no repeats, and
    iteration in insertion order, which is the order `Array.from` saves them
    in. They are read from local storage once on mount (anything unreadable
    counts as no favourites), toggled one id at a time, and written back
    after every change, with write errors ignored. Storage is one optional
    string slot; `JSON.parse` and `JSON.stringify` are parameters. */
module LocalFavourites {
  import opened Maybe
  import opened Seqs

  const StorageKey: string := "streamvault_favourites"

  /** What `JSON.parse` makes of the stored text, as far as `new Set(…)`
      cares: a syntax error, `null`, an array of ids, a string (whose
      characters a `Set` iterates), or any other value (which makes the
      `Set` constructor throw). */
  datatype Decoded =
    | Unparseable
    | NullValue
    | ArrayOf(items: seq<string>)
    | StringValue(s: string)
    | OtherValue

  /** `set.add(x)`: appends `x` unless it is there already. */
  function Add(favs: seq<string>, x: string): (r: seq<string>)
    requires NoDuplicates(favs)
    ensures NoDuplicates(r)
    ensures forall y :: y in r <==> y in favs || y == x
    ensures x in favs ==> r == favs
  {
    if x in favs then favs else favs + [x]
  }

  /** `set.delete(x)`: drops `x`, keeping the others in order. */
  function Delete(favs: seq<string>, x: string): (r: seq<string>)
    requires NoDuplicates(favs)
    ensures NoDuplicates(r)
    ensures forall y :: y in r <==> y in favs && y != x
    ensures SubsequenceOf(r, favs)
  {
    var r := Filter(favs, (y: string) => y != x);
    FilterNoDuplicates(favs, (y: string) => y != x);
    r
  }

  /** `new Set(items)` started from `acc`: each item added in turn. */
  function AddAll(acc: seq<string>, items: seq<string>): (r: seq<string>)
    requires NoDuplicates(acc)
    ensures NoDuplicates(r)
    ensures forall y :: y in r <==> y in acc || y in items
    decreases |items|
  {
    if items == [] then acc else AddAll(Add(acc, items[0]), items[1..])
  }

  /** Adding items that are all new, once each, keeps their order. */
  lemma {:induction false} AddAllFresh(acc: seq<string>, items: seq<string>)
    requires NoDuplicates(acc + items)
    ensures NoDuplicates(acc)
    ensures AddAll(acc, items) == acc + items
    decreases |items|
  {
    NoDuplicatesPrefix(acc, items);
    if items != [] {
      var next := acc + [items[0]];
      assert acc + items == next + items[1..];
      assert items[0] !in acc by {
        forall k | 0 <= k < |acc|
          ensures acc[k] != items[0]
        {
          assert (acc + items)[k] == acc[k] && (acc + items)[|acc|] == items[0];
        }
      }
      AddAllFresh(next, items[1..]);
    }
  }

  /** The characters of a string, each as a one-character string. */
  function Characters(s: string): (r: seq<string>)
    ensures |r| == |s|
    ensures forall k :: 0 <= k < |s| ==> r[k] == [s[k]]
  {
    seq(|s|, k requires 0 <= k < |s| => [s[k]])
  }

  /** `loadFavourites`: the stored slot read back. A missing or empty slot,
      text that does not parse and a value the `Set` constructor rejects all
      give the empty set; nothing here can fail. */
  function Load(slot: Option<string>, decode: string -> Decoded): (favs: seq<string>)
    ensures NoDuplicates(favs)
    ensures slot.None? || slot == Some("") ==> favs == []
    ensures slot.Some? && slot.value != "" && decode(slot.value).ArrayOf? ==>
      forall y :: y in favs <==> y in decode(slot.value).items
    ensures slot.Some? && slot.value != "" && decode(slot.value).StringValue? ==>
      forall y :: y in favs <==> y in Characters(decode(slot.value).s)
    ensures slot.Some? && slot.value != "" && !decode(slot.value).ArrayOf? && !decode(slot.value).StringValue? ==>
      favs == []
  {
    match slot
    case None => []
    case Some(raw) =>
      if raw == "" then []
      else match decode(raw)
        case ArrayOf(items) => AddAll([], items)
        case StringValue(s) => AddAll([], Characters(s))
        case _ => []
  }

  /** `saveFavourites`: the slot after the write, which keeps its old value
      when the write throws. */
  function Save(slot: Option<string>, favs: seq<string>, writable: bool, encode: seq<string> -> string): (r: Option<string>)
    ensures writable ==> r == Some(encode(favs))
    ensures !writable ==> r == slot
  {
    if writable then Some(encode(favs)) else slot
  }

  /** The codec works: what `JSON.stringify` writes for an array is not empty
      and `JSON.parse` reads the same array back. */
  ghost predicate CodecRoundTrips(decode: string -> Decoded, encode: seq<string> -> string) {
    forall ids: seq<string> :: encode(ids) != "" && decode(encode(ids)) == ArrayOf(ids)
  }

  /** Saving then loading gives back the same favourites, in the same order. */
  lemma SaveLoadRoundTrip(slot: Option<string>, favs: seq<string>, decode: string -> Decoded, encode: seq<string> -> string)
    requires NoDuplicates(favs)
    requires CodecRoundTrips(decode, encode)
    ensures Load(Save(slot, favs, true, encode), decode) == favs
  {
    var raw := encode(favs);
    assert Save(slot, favs, true, encode) == Some(raw);
    assert raw != "" && decode(raw) == ArrayOf(favs);
    assert [] + favs == favs;
    AddAllFresh([], favs);
  }

  /** `toggleFavourite`: deletes the id when present, adds it otherwise. */
  function Toggle(favs: seq<string>, id: string): (r: seq<string>)
    requires NoDuplicates(favs)
    ensures NoDuplicates(r)
    ensures id in r <==> id !in favs
    ensures forall y :: y != id ==> (y in r <==> y in favs)
  {
    if id in favs then Delete(favs, id) else Add(favs, id)
  }

  /** Toggling twice gives back the same members; when the id was absent it
      gives back exactly the same sequence (a present id comes back at the end
      instead, as a re-added `Set` member does). */
  lemma ToggleTwice(favs: seq<string>, id: string)
    requires NoDuplicates(favs)
    ensures Elems(Toggle(Toggle(favs, id), id)) == Elems(favs)
    ensures id !in favs ==> Toggle(Toggle(favs, id), id) == favs
  {
    if id !in favs {
      var once := favs + [id];
      FilterKeepsAll(favs, (y: string) => y != id);
      FilterDropsLast(favs, id, (y: string) => y != id);
    }
  }

  /** `isFavourite`. */
  predicate IsFavourite(favs: seq<string>, id: string) {
    id in favs
  }

  /** The hook state: the favourites and the storage slot. */
  datatype State = State(favs: seq<string>, slot: Option<string>)

  /** Mounting: the initial state reads the slot, and the effect that runs
      after the first render writes the set straight back. */
  function Mount(slot: Option<string>, writable: bool, decode: string -> Decoded, encode: seq<string> -> string): (st: State)
    ensures NoDuplicates(st.favs)
    ensures st.favs == Load(slot, decode)
    ensures writable ==> st.slot == Some(encode(st.favs))
    ensures !writable ==> st.slot == slot
  {
    var favs := Load(slot, decode);
    State(favs, Save(slot, favs, writable, encode))
  }

  /** A toggle followed by the effect that saves the new set. */
  function ToggleAndSave(st: State, id: string, writable: bool, encode: seq<string> -> string): (r: State)
    requires NoDuplicates(st.favs)
    ensures NoDuplicates(r.favs)
    ensures IsFavourite(r.favs, id) <==> !IsFavourite(st.favs, id)
    ensures forall y :: y != id ==> (IsFavourite(r.favs, y) <==> IsFavourite(st.favs, y))
    ensures writable ==> r.slot == Some(encode(r.favs))
    ensures !writable ==> r.slot == st.slot
  {
    var favs := Toggle(st.favs, id);
    State(favs, Save(st.slot, favs, writable, encode))
  }

  /** The slot holds the current favourites. */
  ghost predicate Persisted(st: State, decode: string -> Decoded) {
    NoDuplicates(st.favs) && Load(st.slot, decode) == st.favs
  }

  /** With writable storage and a working codec, the slot holds the current
      favourites after mounting and after every toggle, so a reload finds
      exactly the set that was shown. */
  lemma StoragePersists(slot: Option<string>, id: string, decode: string -> Decoded, encode: seq<string> -> string)
    requires CodecRoundTrips(decode, encode)
    ensures Persisted(Mount(slot, true, decode, encode), decode)
    ensures forall st: State :: Persisted(st, decode) ==> Persisted(ToggleAndSave(st, id, true, encode), decode)
  {
    var m := Mount(slot, true, decode, encode);
    SaveLoadRoundTrip(slot, m.favs, decode, encode);
    forall st: State | Persisted(st, decode)
      ensures Persisted(ToggleAndSave(st, id, true, encode), decode)
    {
      var r := ToggleAndSave(st, id, true, encode);
      SaveLoadRoundTrip(st.slot, r.favs, decode, encode);
    }
  }
}
