/** The filter bar (`frontend/src/components/FilterControls.tsx`): the two
    facet menus, the "Clear" button and the count label. */
module FilterControls {
  import opened Strings
  import opened ChannelBrowser

  /** A menu entry: the value it selects and the text it shows. */
  datatype Item = Item(value: string, text: string)

  const AllLanguagesLabel: string := "All Languages"
  const AllCountriesLabel: string := "All Countries"
  const ChannelsWord: string := "channels"

  /** `hasActiveFilters`: the "Clear" button shows when a facet restricts. */
  predicate HasActiveFilters(language: string, country: string) {
    language != Any || country != Any
  }

  /** `clearFilters`: both facets back to `'all'`. */
  function ClearFilters(v: View): (r: View)
    ensures r.mode == v.mode
    ensures !HasActiveFilters(r.language, r.country)
  {
    View(v.mode, Any, Any)
  }

  /** After clearing, the list is the favourites stage alone: the facets no
      longer remove anything. */
  lemma ClearedShowsModeOnly(channels: seq<Backend.Channel>, favouriteIds: set<string>, v: View)
    ensures forall c :: (c in Filtered(channels, favouriteIds, ClearFilters(v))
                     <==> c in channels && (v.mode == Favourites ==> IntToString(c.id) in favouriteIds))
  {
    FilteredIsOneFilter(channels, favouriteIds, ClearFilters(v));
  }

  /** A menu: the `'all'` entry, then one entry per value in the given order. */
  function Options(allLabel: string, values: seq<string>): (items: seq<Item>)
    ensures |items| == |values| + 1
    ensures items[0] == Item(Any, allLabel)
    ensures forall k :: 0 <= k < |values| ==> items[k + 1] == Item(values[k], values[k])
  {
    [Item(Any, allLabel)] + seq(|values|, k requires 0 <= k < |values| => Item(values[k], values[k]))
  }

  function LanguageOptions(languages: seq<string>): seq<Item> {
    Options(AllLanguagesLabel, languages)
  }

  function CountryOptions(countries: seq<string>): seq<Item> {
    Options(AllCountriesLabel, countries)
  }

  /** Choosing any entry of the language menu the page builds leaves a
      non-empty list in the all-channels mode: the `'all'` entry keeps every
      channel, and every other entry names a language some channel has. */
  lemma LanguageMenuNeverEmpties(channels: seq<Backend.Channel>, favouriteIds: set<string>, k: nat)
    requires channels != []
    requires k < |LanguageOptions(Languages(channels))|
    ensures Filtered(channels, favouriteIds, View(AllChannels, LanguageOptions(Languages(channels))[k].value, Any)) != []
  {
    var items := LanguageOptions(Languages(channels));
    if k == 0 {
      UnfilteredShowsAll(channels, favouriteIds);
    } else {
      assert items[k].value == Languages(channels)[k - 1];
      OfferedLanguageMatches(channels, favouriteIds, items[k].value);
    }
  }

  /** The count label: `<total> channels` when nothing is filtered out,
      `<filtered> of <total> channels` otherwise. It is built as the leading
      number, a space, and the rest. */
  function CountLabel(filtered: nat, total: nat): (shown: string)
    ensures filtered == total ==> shown == NatToString(total) + " channels"
    ensures filtered != total ==> shown == NatToString(filtered) + " of " + NatToString(total) + " channels"
    ensures shown == NatToString(LeadingCount(filtered, total)) + " " + LabelRest(filtered, total)
  {
    if filtered == total then NatToString(total) + " " + ChannelsWord
    else NatToString(filtered) + " " + ("of " + (NatToString(total) + " " + ChannelsWord))
  }

  function LeadingCount(filtered: nat, total: nat): nat {
    if filtered == total then total else filtered
  }

  function LabelRest(filtered: nat, total: nat): string {
    if filtered == total then ChannelsWord else "of " + (NatToString(total) + " " + ChannelsWord)
  }

  /** What follows the leading number starts with `c` when nothing is
      filtered out and with `o` otherwise. */
  lemma LabelRestHead(filtered: nat, total: nat)
    ensures LabelRest(filtered, total) != []
    ensures LabelRest(filtered, total)[0] == (if filtered == total then 'c' else 'o')
  {
  }

  /** The label determines both counts. */
  lemma CountLabelInjective(f1: nat, t1: nat, f2: nat, t2: nat)
    ensures CountLabel(f1, t1) == CountLabel(f2, t2) <==> f1 == f2 && t1 == t2
  {
    if CountLabel(f1, t1) == CountLabel(f2, t2) {
      DigitsThenSeparator(NatToString(LeadingCount(f1, t1)), ' ', LabelRest(f1, t1),
                          NatToString(LeadingCount(f2, t2)), LabelRest(f2, t2));
      NatToStringInjective(LeadingCount(f1, t1), LeadingCount(f2, t2));
      LabelRestHead(f1, t1);
      LabelRestHead(f2, t2);
      if f1 != t1 {
        PrefixCancel("of ", NatToString(t1) + " " + ChannelsWord, NatToString(t2) + " " + ChannelsWord);
        DigitsThenSeparator(NatToString(t1), ' ', ChannelsWord, NatToString(t2), ChannelsWord);
        NatToStringInjective(t1, t2);
      }
    }
  }
}
