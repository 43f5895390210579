/** The derived state of the channel browser page
    (`frontend/src/pages/ChannelBrowser.tsx`): the set of favourite ids, the
    facet option lists, the filtered list, and the small handlers that move
    the page state. Everything is a pure function of the backend lists and
    the page state. */
module ChannelBrowser {
  import opened Maybe
  import opened Strings
  import opened Seqs
  import opened SortedStrings
  import opened Backend

  /** The facet value that means "no restriction". */
  const Any: string := "all"

  const NoFavouritesYet: string := "No favourites yet"
  const SignInForFavourites: string := "Sign in to save favourites"
  const NoChannelsFound: string := "No channels found"

  /** `activeFilter`. */
  datatype Mode = AllChannels | Favourites

  /** The page state the filter depends on. */
  datatype View = View(mode: Mode, language: string, country: string)

  const InitialView: View := View(AllChannels, Any, Any)

  /** `favouriteIds`: the decimal ids of the favourite channels. */
  function FavouriteIds(favourites: seq<Channel>): (ids: set<string>)
    ensures forall c :: c in favourites ==> IntToString(c.id) in ids
    ensures forall s :: s in ids ==> exists c :: c in favourites && IntToString(c.id) == s
  {
    set c | c in favourites :: IntToString(c.id)
  }

  /** A channel's id is in `favouriteIds` exactly when some favourite has
      the same id: the string form loses nothing. */
  lemma FavouriteIdsByValue(favourites: seq<Channel>, c: Channel)
    ensures IntToString(c.id) in FavouriteIds(favourites)
        <==> exists f :: f in favourites && f.id == c.id
  {
    if IntToString(c.id) in FavouriteIds(favourites) {
      var f :| f in favourites && IntToString(f.id) == IntToString(c.id);
      IntToStringInjective(f.id, c.id);
    }
  }

  /** The two fields the page has facets for. */
  datatype Field = LanguageField | CountryField

  function Get(c: Channel, field: Field): string {
    match field
    case LanguageField => c.language
    case CountryField => c.country
  }

  /** One field of every channel, in order. */
  function Column(channels: seq<Channel>, field: Field): (r: seq<string>)
    ensures |r| == |channels|
    ensures forall k :: 0 <= k < |channels| ==> r[k] == Get(channels[k], field)
  {
    seq(|channels|, k requires 0 <= k < |channels| => Get(channels[k], field))
  }

  /** The option list of one facet: the distinct non-empty values of the
      field over all channels, sorted. */
  function Facet(channels: seq<Channel>, field: Field): (r: seq<string>)
    ensures StrictlySorted(r)
    ensures forall v :: v in r <==> v != "" && exists c :: c in channels && Get(c, field) == v
  {
    var column := Column(channels, field);
    var r := SortedDistinct(column);
    assert forall v :: v in column <==> exists c :: c in channels && Get(c, field) == v by {
      forall v
        ensures v in column <==> exists c :: c in channels && Get(c, field) == v
      {
        if v in column {
          var k :| 0 <= k < |column| && column[k] == v;
          assert channels[k] in channels;
        }
        if exists c :: c in channels && Get(c, field) == v {
          var c :| c in channels && Get(c, field) == v;
          var k :| 0 <= k < |channels| && channels[k] == c;
          assert column[k] == v;
        }
      }
    }
    r
  }

  /** `languages`. */
  function Languages(channels: seq<Channel>): seq<string> {
    Facet(channels, LanguageField)
  }

  /** `countries`. */
  function Countries(channels: seq<Channel>): seq<string> {
    Facet(channels, CountryField)
  }

  /** Strictly ascending means no value is listed twice. */
  lemma StrictlySortedHasNoDuplicates(s: seq<string>)
    requires StrictlySorted(s)
    ensures NoDuplicates(s)
  {
    forall i, j | 0 <= i < j < |s|
      ensures s[i] != s[j]
    {
      PrecedesIrreflexive(s[i]);
    }
  }

  /** A facet list holds every non-empty value of the field once, in
      ascending order, and it is the only list that does: however the
      channels are ordered, the same values give the same list. */
  lemma FacetIsCanonical(channels: seq<Channel>, field: Field, other: seq<string>)
    requires StrictlySorted(other)
    requires forall v :: v in other <==> v != "" && exists c :: c in channels && Get(c, field) == v
    ensures NoDuplicates(Facet(channels, field)) && "" !in Facet(channels, field)
    ensures other == Facet(channels, field)
  {
    var r := Facet(channels, field);
    StrictlySortedHasNoDuplicates(r);
    assert Elems(other) == Elems(r);
    StrictlySortedUnique(other, r);
  }

  /** The test of the favourites stage, which passes everything in the
      other mode. */
  function ModePasses(favouriteIds: set<string>, mode: Mode): Channel -> bool {
    (c: Channel) => mode == AllChannels || IntToString(c.id) in favouriteIds
  }

  /** The test of a facet stage, which passes everything for `'all'`. */
  function FacetPasses(field: Field, value: string): Channel -> bool {
    (c: Channel) => value == Any || Get(c, field) == value
  }

  /** A channel the page shows: it passes all three tests. */
  predicate Shown(c: Channel, favouriteIds: set<string>, v: View) {
    && (v.mode == Favourites ==> IntToString(c.id) in favouriteIds)
    && (v.language == Any || c.language == v.language)
    && (v.country == Any || c.country == v.country)
  }

  function ShownBy(favouriteIds: set<string>, v: View): Channel -> bool {
    (c: Channel) => Shown(c, favouriteIds, v)
  }

  /** `filteredChannels`: the three stages, each applied only when it
      restricts something. */
  function Filtered(channels: seq<Channel>, favouriteIds: set<string>, v: View): seq<Channel> {
    var byMode := if v.mode == Favourites then Filter(channels, ModePasses(favouriteIds, v.mode)) else channels;
    var byLanguage := if v.language != Any then Filter(byMode, FacetPasses(LanguageField, v.language)) else byMode;
    if v.country != Any then Filter(byLanguage, FacetPasses(CountryField, v.country)) else byLanguage
  }

  /** A stage that is skipped is the same as a filter by its test. */
  lemma SkippedStage(s: seq<Channel>, p: Channel -> bool)
    requires forall c :: p(c)
    ensures Filter(s, p) == s
  {
    FilterKeepsAll(s, p);
  }

  /** The three stages, each written as a filter by its test. */
  lemma FilteredAsStages(channels: seq<Channel>, favouriteIds: set<string>, v: View)
    ensures Filtered(channels, favouriteIds, v)
         == Filter(Filter(Filter(channels, ModePasses(favouriteIds, v.mode)), FacetPasses(LanguageField, v.language)), FacetPasses(CountryField, v.country))
  {
    var s1 := Filter(channels, ModePasses(favouriteIds, v.mode));
    if v.mode != Favourites { SkippedStage(channels, ModePasses(favouriteIds, v.mode)); }
    var s2 := Filter(s1, FacetPasses(LanguageField, v.language));
    if v.language == Any { SkippedStage(s1, FacetPasses(LanguageField, v.language)); }
    if v.country == Any { SkippedStage(s2, FacetPasses(CountryField, v.country)); }
  }

  /** The three stages are one filter by `Shown`; so the stage order does
      not matter, the result keeps the input order, and a channel is in it
      exactly when it is an input channel that passes all three tests. */
  lemma FilteredIsOneFilter(channels: seq<Channel>, favouriteIds: set<string>, v: View)
    ensures Filtered(channels, favouriteIds, v) == Filter(channels, ShownBy(favouriteIds, v))
    ensures SubsequenceOf(Filtered(channels, favouriteIds, v), channels)
    ensures forall c :: c in Filtered(channels, favouriteIds, v) <==> c in channels && Shown(c, favouriteIds, v)
  {
    FilteredAsStages(channels, favouriteIds, v);
    forall c: Channel
      ensures ShownBy(favouriteIds, v)(c)
           == (ModePasses(favouriteIds, v.mode)(c) && FacetPasses(LanguageField, v.language)(c) && FacetPasses(CountryField, v.country)(c))
    {
    }
    FilterThree(channels, ModePasses(favouriteIds, v.mode), FacetPasses(LanguageField, v.language),
      FacetPasses(CountryField, v.country), ShownBy(favouriteIds, v));
  }

  /** With no restriction the list is shown as it is. */
  lemma UnfilteredShowsAll(channels: seq<Channel>, favouriteIds: set<string>)
    ensures Filtered(channels, favouriteIds, InitialView) == channels
  {
  }

  /** Every language the page offers matches at least one channel. */
  lemma OfferedLanguageMatches(channels: seq<Channel>, favouriteIds: set<string>, language: string)
    requires language in Languages(channels)
    ensures Filtered(channels, favouriteIds, View(AllChannels, language, Any)) != []
  {
    var c :| c in channels && c.language == language;
    FilteredIsOneFilter(channels, favouriteIds, View(AllChannels, language, Any));
    assert c in Filtered(channels, favouriteIds, View(AllChannels, language, Any));
  }

  /** Every country the page offers matches at least one channel. */
  lemma OfferedCountryMatches(channels: seq<Channel>, favouriteIds: set<string>, country: string)
    requires country in Countries(channels)
    ensures Filtered(channels, favouriteIds, View(AllChannels, Any, country)) != []
  {
    var c :| c in channels && c.country == country;
    FilteredIsOneFilter(channels, favouriteIds, View(AllChannels, Any, country));
    assert c in Filtered(channels, favouriteIds, View(AllChannels, Any, country));
  }

  /** `handleSelectChannel`: the current channel again clears the selection
      (ids compared by value), any other channel becomes the selection. */
  function SelectChannel(selected: Option<Channel>, c: Channel): (r: Option<Channel>)
    ensures r.None? <==> selected.Some? && selected.value.id == c.id
    ensures r.Some? ==> r.value == c
  {
    if selected.Some? && selected.value.id == c.id then None else Some(c)
  }

  /** Selecting a channel twice from a state without it leaves nothing
      selected. */
  lemma SelectTwiceClears(selected: Option<Channel>, c: Channel)
    requires selected.None? || selected.value.id != c.id
    ensures SelectChannel(SelectChannel(selected, c), c) == None
  {
  }

  /** `handleFilterChange`: the mode changes; switching to favourites also
      resets both facets, switching to all channels keeps them. */
  function ChangeMode(v: View, mode: Mode): (r: View)
    ensures r.mode == mode
    ensures mode == Favourites ==> r.language == Any && r.country == Any
    ensures mode == AllChannels ==> r.language == v.language && r.country == v.country
  {
    if mode == Favourites then View(mode, Any, Any) else View(mode, v.language, v.country)
  }

  /** Right after switching to favourites the list is exactly the channels
      whose id is a favourite id, whatever facets were chosen before. */
  lemma FavouritesModeShowsFavourites(channels: seq<Channel>, favouriteIds: set<string>, v: View)
    ensures Filtered(channels, favouriteIds, ChangeMode(v, Favourites))
         == Filter(channels, ModePasses(favouriteIds, Favourites))
    ensures forall c :: (c in Filtered(channels, favouriteIds, ChangeMode(v, Favourites))
                     <==> c in channels && IntToString(c.id) in favouriteIds)
  {
    FilteredIsOneFilter(channels, favouriteIds, ChangeMode(v, Favourites));
    FilterExt(channels, ShownBy(favouriteIds, ChangeMode(v, Favourites)), ModePasses(favouriteIds, Favourites));
  }

  /** `emptyMessage`: one message per situation. */
  function EmptyMessage(mode: Mode, authenticated: bool): (m: string)
    ensures m == NoChannelsFound <==> mode == AllChannels
    ensures m == NoFavouritesYet <==> mode == Favourites && authenticated
    ensures m == SignInForFavourites <==> mode == Favourites && !authenticated
  {
    assert NoChannelsFound[3] != NoFavouritesYet[3];
    assert NoChannelsFound[0] != SignInForFavourites[0] && NoFavouritesYet[0] != SignInForFavourites[0];
    match mode
    case Favourites => if authenticated then NoFavouritesYet else SignInForFavourites
    case AllChannels => NoChannelsFound
  }

  /** `totalCount`: the favourites in favourites mode, all channels otherwise. */
  function TotalCount(mode: Mode, channels: seq<Channel>, favourites: seq<Channel>): (n: nat)
    ensures mode == AllChannels ==> n == |channels|
    ensures mode == Favourites ==> n == |favourites|
  {
    if mode == Favourites then |favourites| else |channels|
  }

  /** In the all-channels mode the filtered count never exceeds the total. */
  lemma FilteredWithinTotal(channels: seq<Channel>, favourites: seq<Channel>, v: View)
    requires v.mode == AllChannels
    ensures |Filtered(channels, FavouriteIds(favourites), v)| <= TotalCount(v.mode, channels, favourites)
  {
    FilteredIsOneFilter(channels, FavouriteIds(favourites), v);
  }
}
