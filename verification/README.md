# A verified model of the IPTV browser's frontend core

This project models the pure logic of a React frontend for live IPTV in Dafny:

- **Extended-M3U playlist parser.** Lines are trimmed and blank ones dropped. `#EXTINF:` metadata lines pair with the URL line that follows them. Names come from after the last comma. Attributes come from a case-insensitive `key="value"` lookup. Kept records get the ids `m3u-0`, `m3u-1`, ….
- **Fetch policy in front of the parser.** A direct request is accepted only when it is ok and carries the `#EXTM3U` marker. Otherwise exactly one request goes through a CORS proxy.
- **Two in-memory stores.**
  - Hand-added channels: trimmed, prepended, with ids made from a clock reading and a module counter.
  - Favourites kept in local storage: a JavaScript `Set` with toggle, load and save.
- **Channel browser derivations.**
  - The favourite id set.
  - The language and country option lists.
  - The three-stage filter.
  - The selection toggle, mode switch, empty message and counts.
  - The filter bar's "Clear" button, menus and count label.
- **Three dialogs.**
  - Add-channel validation and its submit/change/close handlers.
  - The create-playlist submit flow.
  - The add-to-playlist popover's dispatch and pending flags.

Everything is an immutable datatype and a pure function. Foreign calls are parameters:

| Foreign call | Modelled as |
|---|---|
| Network | a function from URL to an abstract outcome |
| `encodeURIComponent` | a function parameter |
| `JSON.parse` / `JSON.stringify` | a decoder and an encoder |
| `localStorage` | an optional string slot plus a "write succeeds" flag |
| `Date.now` | a natural number |
| `URL` constructor | a predicate |
| Backend result | a success flag |

One module per source file: M3uParser, M3uChannels, ManualChannels, LocalFavourites, ChannelBrowser, FilterControls, AddChannelModal, CreatePlaylistModal and AddToPlaylistPopover. Shared modules:

- Maybe: `Option`.
- Strings: JavaScript `trim` over the exact ECMAScript white-space set, `startsWith`, `includes`, `split` at line feeds, last-comma slicing, and decimal rendering.
- Seqs: `filter`, subsequence and duplicate-freedom.
- SortedStrings: dedup-and-sort of facet values.
- Backend: the backend `Channel` record with an integer id.

The parser's loop is modelled in two stages that take the same steps:

1. `Scan` walks the lines with the pending metadata as explicit state. It yields each (metadata, URL) pair at which the loop reaches its keep test.
2. `Number` applies the keep test and hands out consecutive ids.

The counter only moves on a kept record, so numbering afterwards gives the ids the loop gives.

Both stages also have a reference definition that does not run the scanner:
- `CompletedPairs` lists, line by line, every URL line that completes a metadata line. It gives one entry per such line, in file order.
- `KeptDrafts` filters their drafts by the keep test.

`ScanIsCompleted` and `NumberIsFilter` show the two stages equal these definitions, so `Parse` returns exactly the stamped `KeptDrafts`.

## Model

| member | source | states |
|---|---|---|
| Strings.Trim | frontend/src/utils/m3uParser.ts:17 | The trimmed line has no white space at either end and is never longer. It is empty exactly when the line is all white space. |
| Strings.TrimIsSlice | frontend/src/utils/m3uParser.ts:17 | Trimming removes only leading and trailing white space. The result is a slice of the input with nothing but white space outside it. |
| Strings.TrimIdempotent | frontend/src/utils/m3uParser.ts:17 | Trimming an already trimmed line changes nothing. |
| Strings.SplitLines | frontend/src/utils/m3uParser.ts:17 | Splitting at line feeds gives at least one piece. No piece holds a line feed, and the pieces joined with line feeds give back the text. |
| Strings.SplitJoinLines | frontend/src/utils/m3uParser.ts:17 | Splitting the line-feed join of line-feed-free pieces gives back exactly those pieces. |
| Strings.ContainsIffOccurs | frontend/src/hooks/useM3UChannels.ts:13 | `includes` holds exactly when the marker occurs at some offset of the text. |
| Strings.AfterLast | frontend/src/utils/m3uParser.ts:33-34 | There is no result exactly when the character is absent. Otherwise the result is the suffix right after its last occurrence, and that suffix does not contain the character. |
| Strings.NatToStringRoundTrip | frontend/src/utils/m3uParser.ts:46 | The decimal rendering of a counter reads back as the same number. |
| Strings.NatToStringInjective | frontend/src/utils/m3uParser.ts:46 | Two counters have the same decimal rendering exactly when they are equal. |
| Strings.IntToStringInjective | frontend/src/pages/ChannelBrowser.tsx:33 | Two `bigint` ids have the same string form exactly when they are equal. |
| Seqs.Filter | frontend/src/pages/ChannelBrowser.tsx:54 | `filter` keeps exactly the elements that pass, in their original order: the result is a subsequence of the input. Every passing value occurs in it as often as in the input, and no failing value occurs. |
| Seqs.FilterFuse | frontend/src/pages/ChannelBrowser.tsx:53-65 | Two filters in a row equal one filter by the conjunction of their tests. |
| Seqs.FilterCommutes | frontend/src/pages/ChannelBrowser.tsx:53-65 | The order of two filter stages does not matter. |
| SortedStrings.SortedDistinct | frontend/src/pages/ChannelBrowser.tsx:39-40 | The option list is strictly ascending, so it has no repeats. It holds exactly the non-empty values of the input. |
| SortedStrings.StrictlySortedUnique | frontend/src/pages/ChannelBrowser.tsx:40 | Two strictly ascending lists with the same elements are equal, so the sorted option list depends only on the set of values. |
| M3uParser.CapturedAt | frontend/src/utils/m3uParser.ts:11-13 | The captured value contains no quote, and a closing quote follows it directly. |
| M3uParser.ExtractAttr | frontend/src/utils/m3uParser.ts:10-14 | The attribute value comes back trimmed. |
| M3uParser.ExtractAttrLeftmost | frontend/src/utils/m3uParser.ts:10-14 | The value is the trimmed capture of the leftmost case-insensitive `key="…"` match. It is the empty string when there is no match. |
| M3uParser.Language | frontend/src/utils/m3uParser.ts:38-41 | The language is `tvg-language` when that is non-empty, otherwise `group-title`. |
| M3uParser.ChannelName | frontend/src/utils/m3uParser.ts:33-34 | A metadata line without a comma names its channel "Unknown Channel". |
| M3uParser.ChannelNameAfterLastComma | frontend/src/utils/m3uParser.ts:33-34 | With a comma, the name is the trimmed text after the last comma, and it contains no comma. |
| M3uParser.TrailingCommaDropped | frontend/src/utils/m3uParser.ts:33-46 | A metadata line ending in a comma gives an empty name. Its record is dropped without using up an id. |
| M3uParser.TrimmedPieces | frontend/src/utils/m3uParser.ts:17 | There is one trimmed piece per split piece, and none holds white space at its ends or a line feed. |
| M3uParser.Lines | frontend/src/utils/m3uParser.ts:17 | The scanned lines are the non-empty trimmed pieces, in order. They are a subsequence of the pieces and hold every non-empty piece as often as the pieces do, and no empty one. Each line is non-empty, unpadded and free of line feeds. |
| M3uParser.ExtinfIsComment | frontend/src/utils/m3uParser.ts:26-28 | A metadata line also starts with `#`, so it is never taken as a URL. |
| M3uParser.Scan | frontend/src/utils/m3uParser.ts:23-57 | Every URL of a pair is an input line not starting with `#`. Every metadata is an input `#EXTINF:` line or the metadata pending at the start. There are no more pairs than metadata lines. `ScanIsCompleted` pins the list down exactly. |
| M3uParser.ScanYieldsPairs | frontend/src/utils/m3uParser.ts:23-57 | Every pair joins a URL line with the most recent metadata line before it, with only non-metadata `#` lines between them. |
| M3uParser.Drafts | frontend/src/utils/m3uParser.ts:30-42 | There is one draft per pair, in order, and each draft's URL is its pair's URL line. |
| M3uParser.DraftsAt | frontend/src/utils/m3uParser.ts:30-42 | The draft at each position is built from the metadata and URL of the pair there. |
| M3uParser.Number | frontend/src/utils/m3uParser.ts:44-53 | Numbering never makes more records than there are drafts. |
| M3uParser.NumberIds | frontend/src/utils/m3uParser.ts:44-46 | Kept records carry consecutive ids from the counter's starting value. |
| M3uParser.NumberKeeps | frontend/src/utils/m3uParser.ts:44-53 | Every record is one of the drafts, stamped, and that draft has a non-empty name and URL. |
| M3uParser.NumberAppend | frontend/src/utils/m3uParser.ts:44-46 | Numbering a concatenation numbers the second part from where the first stopped, so only kept records advance the counter. |
| M3uParser.NumberOne | frontend/src/utils/m3uParser.ts:44-53 | A draft yields a record exactly when its name and URL are non-empty, and that record takes the counter's id. |
| M3uParser.Parse | frontend/src/utils/m3uParser.ts:16-60 | The records are exactly the drafts of the completed pairs that have a non-empty name and URL, in file order, one record per such pair, and record k has id `m3u-k`. The record of the pair completed at line j sits at the index that counts the kept pairs completed before line j. Every URL is a trimmed input line not starting with `#`. There are no more records than `#EXTINF:` lines. |
| M3uParser.ScanRecords | frontend/src/utils/m3uParser.ts:16-60 | For any line sequence scanned with nothing pending and the counter at 0, the records are exactly the kept drafts of the completed pairs, in file order, one per pair, record k stamped `m3u-k`. Each has a non-empty name and a URL that is an input line not starting with `#`. There are no more records than `#EXTINF:` lines. |
| M3uParser.ParsedFromPairs | frontend/src/utils/m3uParser.ts:16-60 | Every record is the record built from a metadata line and the URL line that completes it, with its position as id. |
| M3uParser.ScanFindsPair | frontend/src/utils/m3uParser.ts:23-57 | The converse of `ScanYieldsPairs`. Every URL line that completes a metadata line, with only non-metadata `#` lines between them, yields that pair. |
| M3uParser.ScanFindsDraft | frontend/src/utils/m3uParser.ts:23-42 | Every such pair's draft is among the drafts of the scan. |
| M3uParser.NumberFinds | frontend/src/utils/m3uParser.ts:44-53 | A draft with a non-empty name and URL is kept. Its id number is the count of records kept before it. |
| M3uParser.NumberComplete | frontend/src/utils/m3uParser.ts:44-53 | Every passing draft appears among the records, with its position as id. |
| M3uParser.ScanRecordsComplete | frontend/src/utils/m3uParser.ts:16-60 | Every completed pair whose draft passes the test is a record of the lines, with its position as id. |
| M3uParser.ScanStep | frontend/src/utils/m3uParser.ts:23-57 | One loop iteration. The first line completes a pair exactly when it is neither a metadata line nor a `#` line and metadata is pending. The loop then goes on from the state that line leaves. |
| M3uParser.ScanSnoc | frontend/src/utils/m3uParser.ts:23-57 | One more line at the end adds exactly the pair that line completes from the state the earlier lines leave, and nothing else. |
| M3uParser.AfterSnoc | frontend/src/utils/m3uParser.ts:26-56 | The state after one more line is that line's step from the state before it. |
| M3uParser.AfterIdle | frontend/src/utils/m3uParser.ts:20-28 | From the start, metadata is pending after some lines exactly when a metadata line among them is followed only by non-metadata `#` lines. The pending metadata is then that line. |
| M3uParser.PairedAtIsOpen | frontend/src/utils/m3uParser.ts:26-28 | A line completes a pair exactly when the lines before it leave a metadata line open and the line does not start with `#`. |
| M3uParser.PairedAtUnique | frontend/src/utils/m3uParser.ts:26-28 | A URL line completes at most one metadata line. |
| M3uParser.ScanPrefixCompleted | frontend/src/utils/m3uParser.ts:23-57 | Scanning the first n lines yields exactly the pairs those lines complete, in line order. |
| M3uParser.ScanIsCompleted | frontend/src/utils/m3uParser.ts:23-57 | The scan yields exactly the completed pairs: one per completing URL line, in increasing line order, none twice and none extra. |
| M3uParser.CompletedPrefix | frontend/src/utils/m3uParser.ts:23-57 | The pairs completed by the first n lines lead, unchanged, the pairs completed by any longer prefix. |
| M3uParser.CompletedAt | frontend/src/utils/m3uParser.ts:23-57 | The pair completed at line j comes right after the pairs completed before line j. |
| M3uParser.CompletedSplit | frontend/src/utils/m3uParser.ts:23-57 | The completed pairs are those before line j, then the pair at line j, then the rest. |
| M3uParser.DraftsAppend | frontend/src/utils/m3uParser.ts:30-42 | Each draft depends only on its own pair, so drafts of a concatenation concatenate. |
| M3uParser.DraftsSplit | frontend/src/utils/m3uParser.ts:30-42 | Splitting the pairs around one pair splits the drafts around that pair's draft. |
| M3uParser.NumberIsFilter | frontend/src/utils/m3uParser.ts:44-53 | Numbering keeps exactly the drafts with a non-empty name and URL, in order, and stamps the k-th kept one with the k-th id from the counter on. |
| M3uParser.StampedCons | frontend/src/utils/m3uParser.ts:44-46 | A record stamped in front shifts every later id by one. |
| M3uParser.ScanRecordsExact | frontend/src/utils/m3uParser.ts:16-60 | The records are the kept drafts of the completed pairs, in order, and record k is stamped `m3u-k`. |
| M3uParser.KeptAt | frontend/src/utils/m3uParser.ts:23-53 | A kept pair completed at line j follows exactly the kept pairs completed before line j. |
| M3uParser.RecordAt | frontend/src/utils/m3uParser.ts:16-60 | The record of a kept pair completed at line j sits after one record per kept pair completed before line j, and carries that count as its id. |
| M3uParser.RecordFromPair | frontend/src/utils/m3uParser.ts:16-60 | Every record of any line sequence is the record of a metadata line and the URL line that completes it. |
| M3uParser.RecordOfDraft | frontend/src/utils/m3uParser.ts:44-53 | Every record is some draft stamped with its own position. |
| M3uParser.ParseIdsDistinct | frontend/src/utils/m3uParser.ts:44-46 | The ids within one parse are pairwise distinct. |
| M3uParser.HashLinesThenExtinf | frontend/src/utils/m3uParser.ts:26-28 | After a run of `#` lines, a metadata line leaves the scan where that line alone would. |
| M3uParser.MetadataReplaced | frontend/src/utils/m3uParser.ts:26-27 | A second metadata line before any URL replaces the first, which yields no record at all. |
| M3uParser.CommentsIgnored | frontend/src/utils/m3uParser.ts:26-28 | `#` lines other than metadata lines are skipped and leave the pending metadata unchanged. |
| M3uParser.UrlIsNotExtinf | frontend/src/utils/m3uParser.ts:26-28 | A line taken as a URL is never a metadata line. |
| M3uParser.UrlWithoutMetadataIgnored | frontend/src/utils/m3uParser.ts:28 | A URL line with no metadata pending yields nothing. |
| M3uParser.UrlClearsPending | frontend/src/utils/m3uParser.ts:28-56 | A URL line completes the pending metadata and clears it, so a second URL line right after it is ignored. |
| M3uChannels.ProxyResult | frontend/src/hooks/useM3UChannels.ts:23-31 | Proxy failures are final: an exception propagates; a non-ok status becomes an error carrying status and text; a body without the marker becomes the missing-header error. Text comes back exactly when the outcome is acceptable. |
| M3uChannels.FetchM3U | frontend/src/hooks/useM3UChannels.ts:7-32 | There are one or two requests, the first to the URL itself. There is a second request exactly when the direct outcome is unacceptable. It goes to the proxy URL, and the proxy's outcome alone then decides the result. Returned text always contains `#EXTM3U` and is the body of the last, ok response. |
| M3uChannels.DirectAcceptedSkipsProxy | frontend/src/hooks/useM3UChannels.ts:9-15 | An acceptable direct answer is the result, and what the proxy would answer is never consulted. |
| M3uChannels.FallThroughToProxy | frontend/src/hooks/useM3UChannels.ts:9-23 | An exception, a bad status, an unreadable body or a missing marker on the direct request all lead to the same single proxy request. The proxy alone then decides the result. |
| M3uChannels.ErrorMessage | frontend/src/hooks/useM3UChannels.ts:24-30 | Messages exist for the bad-status and missing-header errors. The bad-status message starts with "Failed to fetch M3U playlist: ". |
| M3uChannels.StatusLineInjective | frontend/src/hooks/useM3UChannels.ts:25 | The status line determines the status code and its text. |
| M3uChannels.ErrorMessageInjective | frontend/src/hooks/useM3UChannels.ts:24-30 | Two errors have the same message exactly when they are the same error. |
| M3uChannels.LoadChannels | frontend/src/hooks/useM3UChannels.ts:37-40 | The query loads exactly when the fetch returns text, and otherwise fails with the fetch's error. |
| M3uChannels.LoadedFromMarkedText | frontend/src/hooks/useM3UChannels.ts:37-39 | Loaded channels are the parse of a fetched text that contains the marker. |
| ManualChannels.OptionalField | frontend/src/hooks/useManualChannels.ts:22-24 | An optional field is stored trimmed. It is empty exactly when it was missing or blank. |
| ManualChannels.ManualIdInjective | frontend/src/hooks/useManualChannels.ts:19 | A manual id determines both the clock reading and the counter value. |
| ManualChannels.NewChannel | frontend/src/hooks/useManualChannels.ts:18-25 | The new record has the `manual-` id, a trimmed name and URL, and trimmed-or-empty optional fields. |
| ManualChannels.AddChannel | frontend/src/hooks/useManualChannels.ts:17-28 | The counter grows by one. The list becomes the new record followed by the unchanged old list, one longer. The returned record is the one inserted. |
| ManualChannels.AddPreservesValid | frontend/src/hooks/useManualChannels.ts:17-27 | Adding keeps every id issued under an earlier counter value and keeps all ids distinct. |
| ManualChannels.SuccessiveIdsDiffer | frontend/src/hooks/useManualChannels.ts:19 | Two successive additions get different ids even at the same clock reading. |
| LocalFavourites.Add | frontend/src/hooks/useLocalFavourites.ts:39 | Adding keeps the set free of repeats and adds exactly the id. An id already present changes nothing. |
| LocalFavourites.Delete | frontend/src/hooks/useLocalFavourites.ts:37 | Deleting removes exactly the id and keeps the others in order. |
| LocalFavourites.AddAll | frontend/src/hooks/useLocalFavourites.ts:10 | Building a `Set` from an array gives each array value exactly once. |
| LocalFavourites.AddAllFresh | frontend/src/hooks/useLocalFavourites.ts:10 | Building a `Set` from a repeat-free array keeps the array's order. |
| LocalFavourites.Load | frontend/src/hooks/useLocalFavourites.ts:5-16 | Loading never fails. A missing or empty slot, unparsable text, and a non-iterable value all give the empty set. An array gives exactly its values. A stored string gives exactly its characters, since a `Set` iterates a string's characters. |
| LocalFavourites.Save | frontend/src/hooks/useLocalFavourites.ts:18-24 | A successful write stores the encoded array. A failing write is ignored and leaves the slot as it was. |
| LocalFavourites.SaveLoadRoundTrip | frontend/src/hooks/useLocalFavourites.ts:5-24 | With a working codec, saving and then loading gives back the same favourites in the same order. |
| LocalFavourites.Toggle | frontend/src/hooks/useLocalFavourites.ts:33-43 | Toggling flips the id's membership, leaves every other id's membership alone, and keeps the set free of repeats. |
| LocalFavourites.ToggleTwice | frontend/src/hooks/useLocalFavourites.ts:35-42 | Toggling the same id twice restores the set. For an id that was absent, the exact order is restored too. |
| LocalFavourites.Mount | frontend/src/hooks/useLocalFavourites.ts:27-31 | The initial set is the loaded one. The mount effect writes it straight back, and a failing write is swallowed and leaves the slot as it was. |
| LocalFavourites.ToggleAndSave | frontend/src/hooks/useLocalFavourites.ts:29-43 | `isFavourite` flips for the toggled id and nothing else, and the new set is written after the change. |
| LocalFavourites.StoragePersists | frontend/src/hooks/useLocalFavourites.ts:18-31 | With writable storage and a working codec, the slot reloads to the shown set after mount and after every toggle. |
| ChannelBrowser.FavouriteIds | frontend/src/pages/ChannelBrowser.tsx:32-35 | The favourite id set is exactly the string forms of the favourite channels' ids. |
| ChannelBrowser.FavouriteIdsByValue | frontend/src/pages/ChannelBrowser.tsx:32-35 | A channel's id string is in the set exactly when some favourite has the same id. |
| ChannelBrowser.Facet | frontend/src/pages/ChannelBrowser.tsx:37-46 | An option list is strictly ascending and holds exactly the non-empty field values present in the channels. |
| ChannelBrowser.FacetIsCanonical | frontend/src/pages/ChannelBrowser.tsx:38-46 | The option list has no repeats and no empty entry, and it is the only ascending list with those values. |
| ChannelBrowser.FilteredAsStages | frontend/src/pages/ChannelBrowser.tsx:49-68 | Each skipped stage acts as a filter that passes everything. |
| ChannelBrowser.FilteredIsOneFilter | frontend/src/pages/ChannelBrowser.tsx:49-68 | The three stages equal one filter by "favourite in favourites mode, language matches or is `all`, country matches or is `all`". So the result is an order-preserving subsequence, and a channel is in it exactly when it passes all three tests. |
| ChannelBrowser.UnfilteredShowsAll | frontend/src/pages/ChannelBrowser.tsx:49-68 | In the initial view (all channels, both facets at `all`), every channel is shown, in its original order. |
| ChannelBrowser.OfferedLanguageMatches | frontend/src/pages/ChannelBrowser.tsx:38-41 | Choosing any offered language leaves at least one channel. |
| ChannelBrowser.OfferedCountryMatches | frontend/src/pages/ChannelBrowser.tsx:43-46 | Choosing any offered country leaves at least one channel. |
| ChannelBrowser.SelectChannel | frontend/src/pages/ChannelBrowser.tsx:70-72 | The selection clears exactly when the clicked channel has the selected id. Otherwise the clicked channel becomes the selection. |
| ChannelBrowser.SelectTwiceClears | frontend/src/pages/ChannelBrowser.tsx:70-72 | Clicking a channel that is not selected twice leaves nothing selected. |
| ChannelBrowser.ChangeMode | frontend/src/pages/ChannelBrowser.tsx:74-81 | Switching to favourites resets both facets to `all`. Switching to all channels keeps them. |
| ChannelBrowser.FavouritesModeShowsFavourites | frontend/src/pages/ChannelBrowser.tsx:74-81 | Right after switching to favourites, the list is exactly the channels whose id is a favourite id. |
| ChannelBrowser.EmptyMessage | frontend/src/pages/ChannelBrowser.tsx:83-88 | "No channels found" appears exactly in the all-channels mode. "No favourites yet" appears exactly in favourites mode when signed in. "Sign in to save favourites" appears exactly in favourites mode when signed out. |
| ChannelBrowser.TotalCount | frontend/src/pages/ChannelBrowser.tsx:118-122 | The total is the favourites' count in favourites mode and the channels' count otherwise. |
| ChannelBrowser.FilteredWithinTotal | frontend/src/pages/ChannelBrowser.tsx:118-123 | In the all-channels mode the filtered count never exceeds the total. |
| FilterControls.ClearFilters | frontend/src/components/FilterControls.tsx:33-38 | After clearing, no filter is active and the mode is unchanged. |
| FilterControls.ClearedShowsModeOnly | frontend/src/components/FilterControls.tsx:35-38 | After clearing, only the favourites stage removes channels. |
| FilterControls.Options | frontend/src/components/FilterControls.tsx:53-58 | A menu is the `all` entry followed by one entry per given value, in the given order. |
| FilterControls.LanguageMenuNeverEmpties | frontend/src/components/FilterControls.tsx:53-58 | With at least one channel, the country facet at `all` and the all-channels mode, every entry of the language menu leaves a non-empty list. |
| FilterControls.CountLabel | frontend/src/components/FilterControls.tsx:91-94 | The label is a leading count, a space, and either "channels" or "of <total> channels". |
| FilterControls.CountLabelInjective | frontend/src/components/FilterControls.tsx:92-94 | The label determines both the filtered count and the total. |
| AddChannelModal.Validate | frontend/src/components/AddChannelModal.tsx:42-56 | There is a name error exactly when the trimmed name is empty. The "required" URL error appears exactly for a blank URL. The "valid URL" error appears exactly for a non-blank URL the `URL` constructor rejects, and there is no URL error otherwise. |
| AddChannelModal.Update | frontend/src/components/AddChannelModal.tsx:36 | Editing sets the edited field and leaves every other field as it was. |
| AddChannelModal.Change | frontend/src/components/AddChannelModal.tsx:35-40 | Editing a field updates only that field and clears only that field's error. |
| AddChannelModal.Submit | frontend/src/components/AddChannelModal.tsx:58-65 | `onAdd` is called exactly when validation passes, with the untrimmed form; then the form and errors reset and the dialog closes. Otherwise the form stays and shows the errors. |
| AddChannelModal.Close | frontend/src/components/AddChannelModal.tsx:67-71 | Closing resets the form and errors, closes, and never calls `onAdd`. |
| AddChannelModal.SubmittedChannelIsComplete | frontend/src/components/AddChannelModal.tsx:44-61 | A submitted form becomes a channel with a non-empty name and a non-empty URL that the `URL` constructor accepts. |
| AddChannelModal.RejectedStaysRejected | frontend/src/components/AddChannelModal.tsx:42-60 | Resubmitting a rejected form unchanged rejects it again with the same errors. |
| AddChannelModal.FixingNameClearsNameError | frontend/src/components/AddChannelModal.tsx:35-44 | Typing a non-blank name clears the name error, and the next validation finds none. |
| CreatePlaylistModal.Begin | frontend/src/components/CreatePlaylistModal.tsx:26-35 | A blank name sets only the "required" error and calls nothing. Otherwise the error clears and the backend gets the trimmed, non-empty name. |
| CreatePlaylistModal.Settle | frontend/src/components/CreatePlaylistModal.tsx:34-40 | On success the name clears and the dialog closes. On failure the error shows, the name stays and the dialog stays open. |
| CreatePlaylistModal.Edit | frontend/src/components/CreatePlaylistModal.tsx:72-75 | Typing sets the name and clears any error. |
| CreatePlaylistModal.OpenChange | frontend/src/components/CreatePlaylistModal.tsx:43-49 | Closing clears both name and error and calls `onClose`. Opening changes nothing. |
| CreatePlaylistModal.EnabledSubmitCreates | frontend/src/components/CreatePlaylistModal.tsx:96 | An enabled submit always reaches the backend with the trimmed name, and the button stays disabled while the call is in flight. |
| CreatePlaylistModal.AfterSettle | frontend/src/components/CreatePlaylistModal.tsx:34-40 | Success leaves an empty dialog with submit disabled. Failure keeps the name, so the same name can be sent again. |
| AddToPlaylistPopover.IsInPlaylistIsMembership | frontend/src/components/AddToPlaylistPopover.tsx:72 | A row is checked exactly when the channel id occurs in the playlist. |
| AddToPlaylistPopover.Toggle | frontend/src/components/AddToPlaylistPopover.tsx:26-33 | A toggle sends a remove exactly for a member and an add otherwise. It always targets this row's playlist and this popover's channel. |
| AddToPlaylistPopover.RowOf | frontend/src/components/AddToPlaylistPopover.tsx:72-81 | A row is disabled exactly when it is pending, and pending exactly when a call for its playlist is in flight. |
| AddToPlaylistPopover.Click | frontend/src/components/AddToPlaylistPopover.tsx:80-81 | A click sends nothing exactly when the row is pending. Otherwise it sends one call for this row, an add exactly when the channel is not a member. |
| AddToPlaylistPopover.Send | frontend/src/components/AddToPlaylistPopover.tsx:29-31 | Sending makes the called mutation pending with the new variables and leaves the other mutation alone. |
| AddToPlaylistPopover.ClickDisablesRow | frontend/src/components/AddToPlaylistPopover.tsx:22-24 | After a click the row is pending and disabled, so a second click sends nothing. |
| AddToPlaylistPopover.PendingFollowsLatestCall | frontend/src/components/AddToPlaylistPopover.tsx:22-24 | After an add, a playlist is pending exactly when it is the latest add's target or a remove is in flight for it. |
| AddToPlaylistPopover.Finish | frontend/src/components/AddToPlaylistPopover.tsx:22-24 | A finished mutation targets no playlist. |
| AddToPlaylistPopover.FinishedEnablesRows | frontend/src/components/AddToPlaylistPopover.tsx:80-81 | Once both mutations have finished, every click sends the toggle for the row's membership. |

## Left out

- I/O and the frameworks are not modelled: React rendering and effects scheduling, react-query caching, `staleTime` and the library `retry: 1`, and the `cache: 'no-store'` request option. The handlers are modelled as state transitions, and the network, storage, clock, `JSON`, `encodeURIComponent`, the `URL` constructor and the backend become parameters.
- The messages of runtime exceptions (a thrown `fetch`, an unreadable body) are not modelled. Such errors are kept as kinds without text.
- Strings.Trim: the white-space set is the ECMAScript one. JavaScript strings are UTF-16, while Dafny `char` is a code point, so lone surrogates and code-unit lengths are not modelled.
- M3uParser.ExtractAttr: case-insensitive matching is exact for ASCII letters in the key; attribute names are ASCII. Non-ASCII case folding by the regular expression engine is not modelled.
- SortedStrings.SortedDistinct: the order is code point by code point. JavaScript's default sort compares UTF-16 code units, which differs only for characters outside the Basic Multilingual Plane.
- LocalFavourites.Load: `Decoded` has only string arrays, so a stored JSON array with non-string members (numbers, objects) is not modelled. Its members would enter the `Set` as they are.
- LocalFavourites.ToggleTwice: re-adding a present id puts it at the end, as a JavaScript `Set` does. So for a present id only the members are restored, not the iteration order.
- ManualChannels: the counter lives at module level in the source and is shared by every mounted hook. The model threads it through one registry; the clock reading is any natural number.
- CreatePlaylistModal: the `maxLength={80}` input limit is enforced by the browser and is not modelled. Submit is split into `Begin` and `Settle` around the backend call.
- ChannelBrowser: the selection also closes through the player's close button, and the profile-setup dialog is shown from profile state. Both are rendering concerns and are not modelled.
- ChannelBrowser.FilteredWithinTotal: stated for the all-channels mode only. In favourites mode the filtered list comes from the channel list while the total comes from the favourites list, and the two backend lists are not related by the code.
- A facet value literally equal to `all` selects the same state as "All Languages"/"All Countries", so such a language or country cannot be filtered on by itself. The model keeps this behaviour.
- Playback, navigation, authentication, profile setup, the thin backend query wrappers and the rendering-only components are not part of this model. Search text, a playlist filter mode, merging hand-added and parsed channels, and id reconciliation do not occur in the modelled files and are not modelled.
