/** The extended-M3U playlist parser (`frontend/src/utils/m3uParser.ts`).

    The text is split at line feeds, every line trimmed and blank lines
    dropped; a two-state scanner then walks the lines. A `#EXTINF:` line
    becomes the pending metadata (replacing any earlier one); a line that does
    not start with `#` completes a record when metadata is pending and clears
    it either way; every other line is ignored. A record is kept only when its
    name and stream URL are non-empty, and only kept records consume an id. */
module M3uParser {
  import opened Maybe
  import opened Strings
  import opened Seqs

  datatype Channel = Channel(
    id: string,
    name: string,
    streamUrl: string,
    language: string,
    country: string,
    thumbnailUrl: string)

  const ExtinfTag: string := "#EXTINF:"
  const UnknownChannel: string := "Unknown Channel"
  const IdPrefix: string := "m3u-"

  // ---------------------------------------------------------------------
  // Attribute lookup: a case-insensitive regular expression search for the
  // key, `="`, and a quoted value without quotes, capturing the value.

  /** The regular expression matches at offset `i`: the key (ASCII letters
      compared without case), then `="`, then a closing quote somewhere later. */
  predicate MatchAt(s: string, key: string, i: nat) {
    && i + |key| + 2 <= |s|
    && EqualsIgnoreCase(s[i..i + |key|], key)
    && s[i + |key|] == '='
    && s[i + |key| + 1] == '"'
    && '"' in s[i + |key| + 2..]
  }

  /** The captured group of the match at `i`: the quote-free text that runs
      from after `="` up to the closing quote. */
  function CapturedAt(s: string, key: string, i: nat): (v: string)
    requires MatchAt(s, key, i)
    ensures '"' !in v
    ensures StartsWith(s[i + |key| + 2..], v + "\"")
  {
    var rest := s[i + |key| + 2..];
    var q := IndexOf(rest, '"');
    assert rest[..q + 1] == rest[..q] + "\"";
    rest[..q]
  }

  /** The regular expression search from offset `from` on: the trimmed
      capture of the leftmost match, or the empty string when none is left. */
  function AttrFrom(s: string, key: string, from: nat): (v: string)
    requires from <= |s|
    ensures Unpadded(v)
    decreases |s| - from
  {
    if MatchAt(s, key, from) then Trim(CapturedAt(s, key, from))
    else if from == |s| then ""
    else AttrFrom(s, key, from + 1)
  }

  /** `extractAttr`: the trimmed value of the first `key="…"` on the line,
      or the empty string when there is none. */
  function ExtractAttr(extinf: string, key: string): (v: string)
    ensures Unpadded(v)
  {
    AttrFrom(extinf, key, 0)
  }

  lemma {:induction false} AttrFromLeftmost(s: string, key: string, from: nat, i: nat)
    requires from <= i <= |s| && MatchAt(s, key, i)
    requires forall j: nat :: from <= j < i ==> !MatchAt(s, key, j)
    ensures AttrFrom(s, key, from) == Trim(CapturedAt(s, key, i))
    decreases i - from
  {
    if from < i {
      AttrFromLeftmost(s, key, from + 1, i);
    }
  }

  lemma {:induction false} AttrFromNone(s: string, key: string, from: nat)
    requires from <= |s|
    requires forall j: nat :: from <= j <= |s| ==> !MatchAt(s, key, j)
    ensures AttrFrom(s, key, from) == ""
    decreases |s| - from
  {
    if from < |s| {
      AttrFromNone(s, key, from + 1);
    }
  }

  /** The value `extractAttr` returns is the trimmed capture of the leftmost
      match, and the empty string when the key does not occur in that form. */
  lemma ExtractAttrLeftmost(extinf: string, key: string)
    ensures (forall i: nat :: i <= |extinf| ==> !MatchAt(extinf, key, i)) ==> ExtractAttr(extinf, key) == ""
    ensures forall i: nat ::
      MatchAt(extinf, key, i) && (forall j: nat :: j < i ==> !MatchAt(extinf, key, j))
      ==> ExtractAttr(extinf, key) == Trim(CapturedAt(extinf, key, i))
  {
    if forall i: nat :: i <= |extinf| ==> !MatchAt(extinf, key, i) {
      AttrFromNone(extinf, key, 0);
    }
    forall i: nat | MatchAt(extinf, key, i) && (forall j: nat :: j < i ==> !MatchAt(extinf, key, j))
      ensures ExtractAttr(extinf, key) == Trim(CapturedAt(extinf, key, i))
    {
      AttrFromLeftmost(extinf, key, 0, i);
    }
  }

  /** The language of a channel: `tvg-language`, or `group-title` when that
      is missing or blank. */
  function Language(extinf: string): (lang: string)
    ensures ExtractAttr(extinf, "tvg-language") != "" ==> lang == ExtractAttr(extinf, "tvg-language")
    ensures ExtractAttr(extinf, "tvg-language") == "" ==> lang == ExtractAttr(extinf, "group-title")
  {
    var l := ExtractAttr(extinf, "tvg-language");
    if l != "" then l else ExtractAttr(extinf, "group-title")
  }

  /** The display name: the trimmed text after the last comma of the
      metadata line, or "Unknown Channel" when the line has no comma. */
  function ChannelName(extinf: string): (name: string)
    ensures ',' !in extinf ==> name == UnknownChannel
  {
    match AfterLast(extinf, ',')
    case Some(tail) => Trim(tail)
    case None => UnknownChannel
  }

  /** With a comma on the line, the name is the trimmed text after the last
      comma, so it holds no comma itself. */
  lemma ChannelNameAfterLastComma(extinf: string)
    requires ',' in extinf
    ensures exists k :: 0 <= k < |extinf| && extinf[k] == ',' && ',' !in extinf[k + 1..]
                     && ChannelName(extinf) == Trim(extinf[k + 1..])
    ensures ',' !in ChannelName(extinf)
  {
    var tail := AfterLast(extinf, ',').value;
    var k := |extinf| - |tail| - 1;
    assert extinf[k + 1..] == tail;
    TrimKeepsAbsent(tail, ',');
  }

  /** The fields a metadata line and a URL line give a record, before the
      record is kept and numbered. */
  datatype Draft = Draft(
    name: string,
    streamUrl: string,
    language: string,
    country: string,
    thumbnailUrl: string)

  function DraftOf(extinf: string, url: string): Draft {
    Draft(
      name := ChannelName(extinf),
      streamUrl := url,
      language := Language(extinf),
      country := ExtractAttr(extinf, "tvg-country"),
      thumbnailUrl := ExtractAttr(extinf, "tvg-logo"))
  }

  /** The test a record must pass to be kept: non-empty name and URL. */
  predicate Keeps(d: Draft) {
    d.name != "" && d.streamUrl != ""
  }

  /** The record pushed for a kept draft under the given id. */
  function Stamp(d: Draft, id: string): Channel {
    Channel(id, d.name, d.streamUrl, d.language, d.country, d.thumbnailUrl)
  }

  /** The draft a record was stamped from. */
  function Unstamp(c: Channel): Draft {
    Draft(c.name, c.streamUrl, c.language, c.country, c.thumbnailUrl)
  }

  // ---------------------------------------------------------------------
  // Line preparation: split at line feeds, trim each piece, drop the empty ones.

  /** The trimmed pieces of the text between line feeds: no white space at
      either end and no line feed inside. */
  function TrimmedPieces(text: string): (pieces: seq<string>)
    ensures |pieces| == |SplitLines(text)|
    ensures forall k :: 0 <= k < |pieces| ==> pieces[k] == Trim(SplitLines(text)[k])
    ensures forall k :: 0 <= k < |pieces| ==> Unpadded(pieces[k]) && '\n' !in pieces[k]
  {
    var raw := SplitLines(text);
    forall k | 0 <= k < |raw|
      ensures '\n' !in Trim(raw[k])
    {
      TrimKeepsAbsent(raw[k], '\n');
    }
    seq(|raw|, k requires 0 <= k < |raw| => Trim(raw[k]))
  }

  /** The lines the scanner sees: the non-blank trimmed pieces, in order.
      Being a subsequence that holds every non-empty piece as often as the
      pieces do, and no empty one, pins the result down. */
  function Lines(text: string): (lines: seq<string>)
    ensures SubsequenceOf(lines, TrimmedPieces(text))
    ensures forall l :: multiset(lines)[l] == if l != "" then multiset(TrimmedPieces(text))[l] else 0
    ensures forall k :: 0 <= k < |lines| ==> lines[k] != "" && Unpadded(lines[k]) && '\n' !in lines[k]
  {
    var pieces := TrimmedPieces(text);
    var lines := Filter(pieces, (l: string) => l != "");
    forall k | 0 <= k < |lines|
      ensures lines[k] != "" && Unpadded(lines[k]) && '\n' !in lines[k]
    {
      assert lines[k] in pieces;
    }
    lines
  }

  // ---------------------------------------------------------------------
  // The scanner. The loop of `parseM3U` is modelled in two stages that
  // together take the same steps: `Scan` walks the lines and yields, in
  // order, every (metadata, URL) pair at which the loop reaches its
  // keep test; `Number` performs that test on each pair
  // and gives the kept records consecutive ids. The counter only moves when
  // a record is kept, so numbering the pairs afterwards gives the same ids
  // as numbering them during the walk.

  predicate IsExtinf(line: string) {
    StartsWith(line, ExtinfTag)
  }

  predicate IsComment(line: string) {
    StartsWith(line, "#")
  }

  lemma ExtinfIsComment(line: string)
    requires IsExtinf(line)
    ensures IsComment(line)
  {
    assert line[..1] == line[..|ExtinfTag|][..1];
  }

  /** The scanner state: no metadata, or the pending `#EXTINF:` line. */
  datatype Pending = Idle | Awaiting(extinf: string)

  /** A metadata line together with the URL line that completes it. */
  datatype Pair = Pair(extinf: string, url: string)

  function CountExtinf(lines: seq<string>): nat {
    if lines == [] then 0
    else (if IsExtinf(lines[0]) then 1 else 0) + CountExtinf(lines[1..])
  }

  /** The pairs the scan of `lines` reaches from state `pending`: every URL
      is a non-comment line of the input, every metadata is a `#EXTINF:`
      line of the input or the metadata pending at the start, and there are
      no more pairs than metadata lines. */
  function Scan(lines: seq<string>, pending: Pending): (pairs: seq<Pair>)
    ensures forall k :: 0 <= k < |pairs| ==> pairs[k].url in lines && !IsComment(pairs[k].url)
    ensures forall k :: 0 <= k < |pairs| ==>
      (pairs[k].extinf in lines && IsExtinf(pairs[k].extinf)) || pending == Awaiting(pairs[k].extinf)
    ensures |pairs| <= CountExtinf(lines) + (if pending.Awaiting? then 1 else 0)
    decreases |lines|
  {
    if lines == [] then []
    else
      var line := lines[0];
      var rest := lines[1..];
      if IsExtinf(line) then
        var pairs := Scan(rest, Awaiting(line));
        ScanShift(lines, Awaiting(line), pending, pairs);
        pairs
      else if pending.Awaiting? && !IsComment(line) then
        var pairs := Scan(rest, Idle);
        ScanShift(lines, Idle, pending, pairs);
        ConsIndex(Pair(pending.extinf, line), pairs);
        [Pair(pending.extinf, line)] + pairs
      else
        var pairs := Scan(rest, pending);
        ScanShift(lines, pending, pending, pairs);
        pairs
  }

  /** What the scan of the rest guarantees carries over to the whole. */
  lemma ScanShift(lines: seq<string>, inner: Pending, pending: Pending, pairs: seq<Pair>)
    requires lines != []
    requires inner == Idle || inner == pending || (IsExtinf(lines[0]) && inner == Awaiting(lines[0]))
    requires forall k :: 0 <= k < |pairs| ==> pairs[k].url in lines[1..] && !IsComment(pairs[k].url)
    requires forall k :: 0 <= k < |pairs| ==>
      (pairs[k].extinf in lines[1..] && IsExtinf(pairs[k].extinf)) || inner == Awaiting(pairs[k].extinf)
    ensures forall k :: 0 <= k < |pairs| ==> pairs[k].url in lines && !IsComment(pairs[k].url)
    ensures forall k :: 0 <= k < |pairs| ==>
      (pairs[k].extinf in lines && IsExtinf(pairs[k].extinf)) || pending == Awaiting(pairs[k].extinf)
  {
    assert lines == [lines[0]] + lines[1..];
  }

  /** The drafts of the pairs, one per pair and in order. */
  function Drafts(pairs: seq<Pair>): (drafts: seq<Draft>)
    ensures |drafts| == |pairs|
    ensures forall k :: 0 <= k < |pairs| ==> drafts[k].streamUrl == pairs[k].url
    decreases |pairs|
  {
    if pairs == [] then []
    else
      ConsIndex(DraftOf(pairs[0].extinf, pairs[0].url), Drafts(pairs[1..]));
      [DraftOf(pairs[0].extinf, pairs[0].url)] + Drafts(pairs[1..])
  }

  /** The draft at each position is the draft of the pair there. */
  lemma {:induction false} DraftsAt(pairs: seq<Pair>, k: nat)
    requires k < |pairs|
    ensures Drafts(pairs)[k] == DraftOf(pairs[k].extinf, pairs[k].url)
    decreases k
  {
    if k > 0 {
      DraftsAt(pairs[1..], k - 1);
      assert Drafts(pairs)[k] == Drafts(pairs[1..])[k - 1];
    }
  }

  /** The drafts of two runs of pairs are the two runs of drafts. */
  lemma {:induction false} DraftsAppend(a: seq<Pair>, b: seq<Pair>)
    ensures Drafts(a + b) == Drafts(a) + Drafts(b)
    decreases |a|
  {
    if a != [] {
      TailOfAppend(a, b);
      DraftsAppend(a[1..], b);
      AppendAssoc([DraftOf(a[0].extinf, a[0].url)], Drafts(a[1..]), Drafts(b));
    } else {
      assert a + b == b;
    }
  }

  /** The records kept from the drafts, in order: a draft with an empty name
      or URL is dropped without using up an id, every kept one is stamped
      with the next id. */
  function Number(drafts: seq<Draft>, next: nat): (r: seq<Channel>)
    ensures |r| <= |drafts|
    decreases |drafts|
  {
    if drafts == [] then []
    else if Keeps(drafts[0]) then [Stamp(drafts[0], IdPrefix + NatToString(next))] + Number(drafts[1..], next + 1)
    else Number(drafts[1..], next)
  }

  /** Numbering keeps exactly the drafts `Keeps` accepts, in their order,
      and stamps the k-th of them with the k-th id from the counter on. */
  lemma {:induction false} NumberIsFilter(drafts: seq<Draft>, next: nat)
    ensures |Number(drafts, next)| == |Filter(drafts, Keeps)|
    ensures forall k :: 0 <= k < |Number(drafts, next)| ==>
      Number(drafts, next)[k] == Stamp(Filter(drafts, Keeps)[k], IdPrefix + NatToString(next + k))
    decreases |drafts|
  {
    if drafts != [] {
      var d, tail := drafts[0], drafts[1..];
      var f := Filter(tail, Keeps);
      FilterStep(drafts, Keeps);
      if Keeps(d) {
        var n := Number(tail, next + 1);
        NumberIsFilter(tail, next + 1);
        assert Number(drafts, next) == [Stamp(d, IdPrefix + NatToString(next))] + n;
        StampedCons(d, f, n, next);
      } else {
        NumberIsFilter(tail, next);
      }
    }
  }

  /** Stamping a draft in front of a stamped list shifts every later id by one. */
  lemma StampedCons(d: Draft, f: seq<Draft>, n: seq<Channel>, next: nat)
    requires |n| == |f|
    requires forall k :: 0 <= k < |n| ==> n[k] == Stamp(f[k], IdPrefix + NatToString(next + 1 + k))
    ensures var m, g := [Stamp(d, IdPrefix + NatToString(next))] + n, [d] + f;
      |m| == |g| && forall k :: 0 <= k < |m| ==> m[k] == Stamp(g[k], IdPrefix + NatToString(next + k))
  {
    var m, g := [Stamp(d, IdPrefix + NatToString(next))] + n, [d] + f;
    forall k | 1 <= k < |m|
      ensures m[k] == Stamp(g[k], IdPrefix + NatToString(next + k))
    {
      assert m[k] == n[k - 1] && g[k] == f[k - 1];
    }
  }

  /** The kept records carry consecutive ids from the counter on. */
  lemma {:induction false} NumberIds(drafts: seq<Draft>, next: nat)
    ensures forall k :: 0 <= k < |Number(drafts, next)| ==>
      Number(drafts, next)[k].id == IdPrefix + NatToString(next + k)
    decreases |drafts|
  {
    if drafts != [] {
      NumberIds(drafts[1..], next + 1);
      NumberIds(drafts[1..], next);
      var rest := Number(drafts[1..], next + 1);
      if Keeps(drafts[0]) {
        ConsIndex(Stamp(drafts[0], IdPrefix + NatToString(next)), rest);
      }
    }
  }

  /** Each kept record is one of the drafts, stamped, and passed the test. */
  lemma {:induction false} NumberKeeps(drafts: seq<Draft>, next: nat)
    ensures forall k :: 0 <= k < |Number(drafts, next)| ==>
      Unstamp(Number(drafts, next)[k]) in drafts && Keeps(Unstamp(Number(drafts, next)[k]))
    decreases |drafts|
  {
    if drafts != [] {
      NumberKeeps(drafts[1..], next + 1);
      NumberKeeps(drafts[1..], next);
      var rest := Number(drafts[1..], next + 1);
      var skipped := Number(drafts[1..], next);
      forall k | 0 <= k < |skipped|
        ensures Unstamp(skipped[k]) in drafts
      {
        assert Unstamp(skipped[k]) in drafts[1..];
      }
      if Keeps(drafts[0]) {
        var r := [Stamp(drafts[0], IdPrefix + NatToString(next))] + rest;
        ConsIndex(Stamp(drafts[0], IdPrefix + NatToString(next)), rest);
        forall k | 0 <= k < |r|
          ensures Unstamp(r[k]) in drafts && Keeps(Unstamp(r[k]))
        {
          if k == 0 {
            assert drafts[0] in drafts;
          } else {
            assert Unstamp(rest[k - 1]) in drafts[1..];
          }
        }
      }
    }
  }

  /** `parseM3U`: the records the scan of the prepared lines yields, with no
      metadata pending and the counter at 0 at the start. Every record is a
      kept one with its position as id, and every metadata line completed by
      a URL line whose draft passes the test is among them (`ParsedFromPairs`
      gives the other direction). */
  function Parse(text: string): (r: seq<Channel>)
    ensures forall k :: 0 <= k < |r| ==> r[k].id == IdPrefix + NatToString(k)
    ensures forall k :: 0 <= k < |r| ==> r[k].name != "" && r[k].streamUrl != ""
    ensures forall k :: 0 <= k < |r| ==>
      r[k].streamUrl in Lines(text) && !IsComment(r[k].streamUrl) && Unpadded(r[k].streamUrl)
    ensures |r| <= CountExtinf(Lines(text))
    ensures |r| == |KeptDrafts(Lines(text))|
    ensures forall k :: 0 <= k < |r| ==> r[k] == Stamp(KeptDrafts(Lines(text))[k], IdPrefix + NatToString(k))
    ensures forall i, j ::
      PairedAt(Lines(text), Idle, i, j) && Keeps(DraftOf(Lines(text)[i], Lines(text)[j])) ==>
        var c := |Filter(Drafts(CompletedUpTo(Lines(text), j)), Keeps)|;
        c < |r| && r[c] == Stamp(DraftOf(Lines(text)[i], Lines(text)[j]), IdPrefix + NatToString(c))
  {
    var lines := Lines(text);
    ScanRecords(lines);
    var r := Number(Drafts(Scan(lines, Idle)), 0);
    forall i, j | PairedAt(lines, Idle, i, j) && Keeps(DraftOf(lines[i], lines[j]))
      ensures var c := |Filter(Drafts(CompletedUpTo(lines, j)), Keeps)|;
        c < |r| && r[c] == Stamp(DraftOf(lines[i], lines[j]), IdPrefix + NatToString(c))
    {
      RecordAt(lines, i, j);
    }
    r
  }

  /** The records of any line sequence scanned from the start. */
  lemma ScanRecords(lines: seq<string>)
    ensures var r := Number(Drafts(Scan(lines, Idle)), 0);
      && (forall k :: 0 <= k < |r| ==> r[k].id == IdPrefix + NatToString(k))
      && (forall k :: 0 <= k < |r| ==> r[k].name != "" && r[k].streamUrl != "")
      && (forall k :: 0 <= k < |r| ==> r[k].streamUrl in lines && !IsComment(r[k].streamUrl))
      && |r| <= CountExtinf(lines)
      && |r| == |KeptDrafts(lines)|
      && (forall k :: 0 <= k < |r| ==> r[k] == Stamp(KeptDrafts(lines)[k], IdPrefix + NatToString(k)))
  {
    var pairs := Scan(lines, Idle);
    var drafts := Drafts(pairs);
    NumberIds(drafts, 0);
    NumberKeeps(drafts, 0);
    KeptUrls(lines, pairs, drafts, Number(drafts, 0));
    ScanRecordsExact(lines);
  }

  /** The records are the kept drafts of the completed pairs, in file order,
      one per pair, the k-th stamped `m3u-k`. */
  lemma ScanRecordsExact(lines: seq<string>)
    ensures var r := Number(Drafts(Scan(lines, Idle)), 0);
      && |r| == |KeptDrafts(lines)|
      && (forall k :: 0 <= k < |r| ==> r[k] == Stamp(KeptDrafts(lines)[k], IdPrefix + NatToString(k)))
  {
    ScanIsCompleted(lines);
    NumberIsFilter(Drafts(CompletedPairs(lines)), 0);
  }

  lemma KeptUrls(lines: seq<string>, pairs: seq<Pair>, drafts: seq<Draft>, r: seq<Channel>)
    requires forall k :: 0 <= k < |pairs| ==> pairs[k].url in lines && !IsComment(pairs[k].url)
    requires |drafts| == |pairs| && forall k :: 0 <= k < |pairs| ==> drafts[k].streamUrl == pairs[k].url
    requires forall k :: 0 <= k < |r| ==> Unstamp(r[k]) in drafts
    ensures forall k :: 0 <= k < |r| ==> r[k].streamUrl in lines && !IsComment(r[k].streamUrl)
  {
    forall k | 0 <= k < |r|
      ensures r[k].streamUrl in lines && !IsComment(r[k].streamUrl)
    {
      var m :| 0 <= m < |drafts| && drafts[m] == Unstamp(r[k]);
    }
  }

  // ---------------------------------------------------------------------
  // Properties of the scan

  /** Ids within one parse are pairwise different. */
  lemma ParseIdsDistinct(text: string)
    ensures forall i, j :: 0 <= i < j < |Parse(text)| ==> Parse(text)[i].id != Parse(text)[j].id
  {
    var r := Parse(text);
    forall i, j | 0 <= i < j < |r|
      ensures r[i].id != r[j].id
    {
      PrefixCancel(IdPrefix, NatToString(i), NatToString(j));
      NatToStringInjective(i, j);
    }
  }

  /** Lines that start with `#` never complete a pair: after a run of them,
      a metadata line leaves the scan where that line alone would, whatever
      was pending before. */
  lemma {:induction false} HashLinesThenExtinf(
    hashes: seq<string>, extinf: string, rest: seq<string>, pending: Pending)
    requires forall m :: 0 <= m < |hashes| ==> IsComment(hashes[m])
    requires IsExtinf(extinf)
    ensures Scan(hashes + [extinf] + rest, pending) == Scan(rest, Awaiting(extinf))
    decreases |hashes|
  {
    if hashes == [] {
      assert hashes + [extinf] + rest == [extinf] + rest;
      assert ([extinf] + rest)[1..] == rest;
    } else {
      var tail := hashes[1..] + [extinf] + rest;
      assert hashes + [extinf] + rest == [hashes[0]] + tail;
      assert ([hashes[0]] + tail)[1..] == tail;
      if IsExtinf(hashes[0]) {
        HashLinesThenExtinf(hashes[1..], extinf, rest, Awaiting(hashes[0]));
      } else {
        HashLinesThenExtinf(hashes[1..], extinf, rest, pending);
      }
    }
  }

  /** A second `#EXTINF:` line before any URL replaces the first, which
      yields nothing: the first metadata line has no effect at all. */
  lemma MetadataReplaced(
    first: string, between: seq<string>, second: string, rest: seq<string>, pending: Pending)
    requires IsExtinf(first) && IsExtinf(second)
    requires forall m :: 0 <= m < |between| ==> IsComment(between[m])
    ensures Scan([first] + between + [second] + rest, pending) == Scan([second] + rest, Idle)
  {
    ExtinfIsComment(first);
    var hashes := [first] + between;
    assert forall m :: 0 <= m < |hashes| ==> IsComment(hashes[m]);
    HashLinesThenExtinf(hashes, second, rest, pending);
    HashLinesThenExtinf([], second, rest, Idle);
    assert [] + [second] + rest == [second] + rest;
  }

  /** Comment lines other than `#EXTINF:` are skipped without touching the
      pending metadata. */
  lemma {:induction false} CommentsIgnored(comments: seq<string>, rest: seq<string>, pending: Pending)
    requires forall m :: 0 <= m < |comments| ==> IsComment(comments[m]) && !IsExtinf(comments[m])
    ensures Scan(comments + rest, pending) == Scan(rest, pending)
    decreases |comments|
  {
    if comments == [] {
      assert comments + rest == rest;
    } else {
      assert (comments + rest)[1..] == comments[1..] + rest;
      CommentsIgnored(comments[1..], rest, pending);
    }
  }

  /** A URL line is not a metadata line. */
  lemma UrlIsNotExtinf(url: string)
    requires !IsComment(url)
    ensures !IsExtinf(url)
  {
    if IsExtinf(url) {
      ExtinfIsComment(url);
    }
  }

  /** With nothing pending, a URL line is ignored. */
  lemma UrlWithoutMetadataIgnored(url: string, rest: seq<string>)
    requires !IsComment(url)
    ensures Scan([url] + rest, Idle) == Scan(rest, Idle)
  {
    UrlIsNotExtinf(url);
    assert ([url] + rest)[1..] == rest;
  }

  /** A URL line completes the pending metadata and clears it, so a second
      URL line right after it is ignored. */
  lemma UrlClearsPending(extinf: string, url1: string, url2: string, rest: seq<string>)
    requires !IsComment(url1) && !IsComment(url2)
    ensures Scan([url1, url2] + rest, Awaiting(extinf)) == [Pair(extinf, url1)] + Scan(rest, Idle)
  {
    UrlIsNotExtinf(url1);
    assert ([url1, url2] + rest)[1..] == [url2] + rest;
    UrlWithoutMetadataIgnored(url2, rest);
  }

  /** Numbering a concatenation numbers the second part from where the
      first left off: only kept records use up ids. */
  lemma {:induction false} NumberAppend(a: seq<Draft>, b: seq<Draft>, next: nat)
    ensures Number(a + b, next) == Number(a, next) + Number(b, next + |Number(a, next)|)
    decreases |a|
  {
    if a == [] {
      assert a + b == b;
    } else {
      TailOfAppend(a, b);
      if Keeps(a[0]) {
        var head := [Stamp(a[0], IdPrefix + NatToString(next))];
        NumberAppend(a[1..], b, next + 1);
        AppendAssoc(head, Number(a[1..], next + 1), Number(b, next + 1 + |Number(a[1..], next + 1)|));
      } else {
        NumberAppend(a[1..], b, next);
      }
    }
  }

  /** A metadata line that ends with a comma names its channel with the
      empty string, so its record is dropped and uses up no id. */
  lemma TrailingCommaDropped(extinf: string, url: string, next: nat)
    requires extinf != [] && extinf[|extinf| - 1] == ','
    ensures ChannelName(extinf) == ""
    ensures Number([DraftOf(extinf, url)], next) == []
  {
    assert AfterLast(extinf, ',') == Some([]);
    NumberOne(DraftOf(extinf, url), next);
  }

  /** A single draft is kept exactly when its name and URL are both
      non-empty, and then it becomes the record with the counter's id. */
  lemma NumberOne(d: Draft, next: nat)
    ensures |Number([d], next)| == (if Keeps(d) then 1 else 0)
    ensures Keeps(d) ==> Number([d], next)[0] == Stamp(d, IdPrefix + NatToString(next))
  {
    assert [d][1..] == [];
  }

  /** The metadata a pairing starts from: a line of the input, or (index -1)
      the metadata already pending when the scan starts. */
  function MetaAt(lines: seq<string>, pending: Pending, i: int): string
    requires -1 <= i < |lines|
    requires i == -1 ==> pending.Awaiting?
  {
    if i == -1 then pending.extinf else lines[i]
  }

  /** Line `j` is a URL line that completes the metadata at `i`: the metadata
      is the most recent `#EXTINF:` before `j`, and only other comment lines
      stand between them. */
  ghost predicate PairedAt(lines: seq<string>, pending: Pending, i: int, j: int) {
    && 0 <= j < |lines|
    && -1 <= i < j
    && !IsComment(lines[j])
    && (if i == -1 then pending.Awaiting? else IsExtinf(lines[i]))
    && forall m :: i < m < j ==> IsComment(lines[m]) && !IsExtinf(lines[m])
  }

  /** `p` is a pair of `lines` in the sense of `PairedAt`. */
  ghost predicate IsPairOf(lines: seq<string>, pending: Pending, p: Pair) {
    exists i, j :: PairedAt(lines, pending, i, j) && p == Pair(MetaAt(lines, pending, i), lines[j])
  }

  /** Pairings found in the rest of the lines are pairings of the whole. */
  lemma PairShift(lines: seq<string>, pending: Pending, inner: Pending, p: Pair)
    requires lines != []
    requires IsPairOf(lines[1..], inner, p)
    requires inner == Idle
      || (IsExtinf(lines[0]) && inner == Awaiting(lines[0]))
      || (IsComment(lines[0]) && !IsExtinf(lines[0]) && inner == pending)
    ensures IsPairOf(lines, pending, p)
  {
    var i, j :| PairedAt(lines[1..], inner, i, j) && p == Pair(MetaAt(lines[1..], inner, i), lines[1..][j]);
    var i' := if i == -1 && IsExtinf(lines[0]) then 0 else if i == -1 then -1 else i + 1;
    forall m | i' < m < j + 1
      ensures IsComment(lines[m]) && !IsExtinf(lines[m])
    {
      if m > 0 {
        assert lines[m] == lines[1..][m - 1];
      }
    }
    assert PairedAt(lines, pending, i', j + 1);
    assert p == Pair(MetaAt(lines, pending, i'), lines[j + 1]);
  }

  /** Every pair the scan yields is a metadata line (or the metadata pending
      at the start) and the URL line that completes it. */
  lemma {:induction false} ScanYieldsPairs(lines: seq<string>, pending: Pending, k: nat)
    requires k < |Scan(lines, pending)|
    ensures IsPairOf(lines, pending, Scan(lines, pending)[k])
    decreases |lines|
  {
    var pairs := Scan(lines, pending);
    var line := lines[0];
    var rest := lines[1..];
    if IsExtinf(line) {
      ScanYieldsPairs(rest, Awaiting(line), k);
      PairShift(lines, pending, Awaiting(line), pairs[k]);
    } else if pending.Awaiting? && !IsComment(line) {
      if k == 0 {
        assert PairedAt(lines, pending, -1, 0);
        assert pairs[0] == Pair(MetaAt(lines, pending, -1), lines[0]);
      } else {
        assert pairs[k] == Scan(rest, Idle)[k - 1];
        ScanYieldsPairs(rest, Idle, k - 1);
        PairShift(lines, pending, Idle, pairs[k]);
      }
    } else {
      ScanYieldsPairs(rest, pending, k);
      PairShift(lines, pending, pending, pairs[k]);
    }
  }

  /** Every record of a parse is the record that a metadata line and the URL
      line completing it make, stamped with the record's position as id. */
  lemma ParsedFromPairs(text: string, k: nat)
    requires k < |Parse(text)|
    ensures exists i, j ::
      && PairedAt(Lines(text), Idle, i, j)
      && Parse(text)[k] == Stamp(DraftOf(MetaAt(Lines(text), Idle, i), Lines(text)[j]), IdPrefix + NatToString(k))
  {
    RecordFromPair(Lines(text), k);
  }

  lemma RecordFromPair(lines: seq<string>, k: nat)
    requires k < |Number(Drafts(Scan(lines, Idle)), 0)|
    ensures exists i, j ::
      && PairedAt(lines, Idle, i, j)
      && Number(Drafts(Scan(lines, Idle)), 0)[k] == Stamp(DraftOf(MetaAt(lines, Idle, i), lines[j]), IdPrefix + NatToString(k))
  {
    var pairs := Scan(lines, Idle);
    var drafts := Drafts(pairs);
    RecordOfDraft(drafts, k);
    var m :| 0 <= m < |drafts| && Number(drafts, 0)[k] == Stamp(drafts[m], IdPrefix + NatToString(k));
    DraftsAt(pairs, m);
    ScanYieldsPairs(lines, Idle, m);
    var i, j :| PairedAt(lines, Idle, i, j) && pairs[m] == Pair(MetaAt(lines, Idle, i), lines[j]);
  }

  /** Each record is some draft stamped with its own position. */
  lemma RecordOfDraft(drafts: seq<Draft>, k: nat)
    requires k < |Number(drafts, 0)|
    ensures exists m :: 0 <= m < |drafts| && Number(drafts, 0)[k] == Stamp(drafts[m], IdPrefix + NatToString(k))
  {
    var c := Number(drafts, 0)[k];
    NumberKeeps(drafts, 0);
    NumberIds(drafts, 0);
    var m :| 0 <= m < |drafts| && drafts[m] == Unstamp(c);
    assert c == Stamp(drafts[m], IdPrefix + NatToString(k));
  }

  /** The converse of `ScanYieldsPairs`: a URL line that completes a metadata
      line (or the metadata pending at the start) always yields that pair. */
  lemma {:induction false} ScanFindsPair(lines: seq<string>, pending: Pending, i: int, j: int)
    requires PairedAt(lines, pending, i, j)
    ensures Pair(MetaAt(lines, pending, i), lines[j]) in Scan(lines, pending)
    decreases |lines|
  {
    var rest := lines[1..];
    if j == 0 {
      UrlIsNotExtinf(lines[0]);
      assert Scan(lines, pending) == [Pair(pending.extinf, lines[0])] + Scan(rest, Idle);
    } else {
      var inner :=
        if IsExtinf(lines[0]) then Awaiting(lines[0])
        else if pending.Awaiting? && !IsComment(lines[0]) then Idle
        else pending;
      var i' := if i <= 0 then -1 else i - 1;
      if i == -1 {
        assert IsComment(lines[0]) && !IsExtinf(lines[0]);
      }
      forall m | i' < m < j - 1
        ensures IsComment(rest[m]) && !IsExtinf(rest[m])
      {
        assert rest[m] == lines[m + 1];
      }
      assert PairedAt(rest, inner, i', j - 1);
      assert MetaAt(rest, inner, i') == MetaAt(lines, pending, i);
      ScanFindsPair(rest, inner, i', j - 1);
    }
  }

  /** Every draft that passes the test is kept, and it takes the id after
      the records kept before it. */
  lemma NumberFinds(drafts: seq<Draft>, next: nat, m: nat)
    requires m < |drafts| && Keeps(drafts[m])
    ensures var before := |Number(drafts[..m], next)|;
      && before < |Number(drafts, next)|
      && Number(drafts, next)[before] == Stamp(drafts[m], IdPrefix + NatToString(next + before))
  {
    var prefix, suffix := drafts[..m], drafts[m..];
    assert drafts == prefix + suffix;
    NumberAppend(prefix, suffix, next);
    var n := next + |Number(prefix, next)|;
    assert suffix == [drafts[m]] + drafts[m + 1..];
    NumberAppend([drafts[m]], drafts[m + 1..], n);
    NumberOne(drafts[m], n);
    assert Number(suffix, n)[0] == Stamp(drafts[m], IdPrefix + NatToString(n));
  }

  /** So every draft that passes the test appears among the records, under
      the id of its position. */
  lemma NumberComplete(drafts: seq<Draft>, d: Draft)
    requires d in drafts && Keeps(d)
    ensures exists k :: 0 <= k < |Number(drafts, 0)| && Number(drafts, 0)[k] == Stamp(d, IdPrefix + NatToString(k))
  {
    var m :| 0 <= m < |drafts| && drafts[m] == d;
    NumberFinds(drafts, 0, m);
  }

  /** Every pair of the lines the scan reaches gives a draft of the scan. */
  lemma ScanFindsDraft(lines: seq<string>, i: int, j: int)
    requires PairedAt(lines, Idle, i, j)
    ensures DraftOf(MetaAt(lines, Idle, i), lines[j]) in Drafts(Scan(lines, Idle))
  {
    var pairs := Scan(lines, Idle);
    ScanFindsPair(lines, Idle, i, j);
    var m :| 0 <= m < |pairs| && pairs[m] == Pair(MetaAt(lines, Idle, i), lines[j]);
    DraftsAt(pairs, m);
  }

  /** Every pair of the lines whose draft passes the test becomes a record,
      stamped with its position as id. */
  lemma ScanRecordsComplete(lines: seq<string>, i: int, j: int)
    requires PairedAt(lines, Idle, i, j)
    requires Keeps(DraftOf(MetaAt(lines, Idle, i), lines[j]))
    ensures var r := Number(Drafts(Scan(lines, Idle)), 0);
      exists k :: 0 <= k < |r| && r[k] == Stamp(DraftOf(MetaAt(lines, Idle, i), lines[j]), IdPrefix + NatToString(k))
  {
    ScanFindsDraft(lines, i, j);
    NumberComplete(Drafts(Scan(lines, Idle)), DraftOf(MetaAt(lines, Idle, i), lines[j]));
  }

  // ---------------------------------------------------------------------
  // The exact pair list. `CompletedPairs` names, independently of the
  // scanner, the pairs the loop completes: line by line in file order, every
  // URL line that completes a metadata line in the sense of `PairedAt`. The
  // scan yields exactly that list.

  /** The scanner state after one line. */
  function Inner(line: string, pending: Pending): Pending {
    if IsExtinf(line) then Awaiting(line)
    else if pending.Awaiting? && !IsComment(line) then Idle
    else pending
  }

  /** The line completes a pair from this state. */
  predicate Emits(line: string, pending: Pending) {
    !IsExtinf(line) && pending.Awaiting? && !IsComment(line)
  }

  /** The scanner state after all the lines. */
  function After(lines: seq<string>, pending: Pending): Pending
    decreases |lines|
  {
    if lines == [] then pending else After(lines[1..], Inner(lines[0], pending))
  }

  /** One step of the scan: the pair the first line completes, if any, then
      the scan of the rest from the next state. */
  lemma ScanStep(lines: seq<string>, pending: Pending)
    requires lines != []
    ensures Scan(lines, pending)
      == (if Emits(lines[0], pending) then [Pair(pending.extinf, lines[0])] else [])
         + Scan(lines[1..], Inner(lines[0], pending))
  {
  }

  /** A line appended at the end adds the pair it completes, if any. */
  lemma {:induction false} ScanSnoc(xs: seq<string>, x: string, pending: Pending)
    ensures Scan(xs + [x], pending)
      == Scan(xs, pending) + (if Emits(x, After(xs, pending)) then [Pair(After(xs, pending).extinf, x)] else [])
    decreases |xs|
  {
    ScanStep(xs + [x], pending);
    if xs == [] {
      assert [] + [x] == [x];
      assert [x][1..] == [];
    } else {
      TailOfAppend(xs, [x]);
      var q := Inner(xs[0], pending);
      ScanSnoc(xs[1..], x, q);
      ScanStep(xs, pending);
      var head := if Emits(xs[0], pending) then [Pair(pending.extinf, xs[0])] else [];
      var tail := if Emits(x, After(xs[1..], q)) then [Pair(After(xs[1..], q).extinf, x)] else [];
      AppendAssoc(head, Scan(xs[1..], q), tail);
    }
  }

  lemma {:induction false} AfterSnoc(xs: seq<string>, y: string, pending: Pending)
    ensures After(xs + [y], pending) == Inner(y, After(xs, pending))
    decreases |xs|
  {
    if xs == [] {
      assert [] + [y] == [y];
      assert [y][1..] == [];
    } else {
      TailOfAppend(xs, [y]);
      AfterSnoc(xs[1..], y, Inner(xs[0], pending));
    }
  }

  /** Line `i` is a metadata line that no later line of `xs` has completed
      or replaced: only other comment lines follow it. */
  ghost predicate Open(xs: seq<string>, i: int) {
    && 0 <= i < |xs|
    && IsExtinf(xs[i])
    && forall m :: i < m < |xs| ==> IsComment(xs[m]) && !IsExtinf(xs[m])
  }

  /** From the start, metadata is pending after `xs` exactly when some
      metadata line is still open, and then it is that line. */
  lemma {:induction false} AfterIdle(xs: seq<string>)
    ensures After(xs, Idle).Awaiting? <==> exists i :: Open(xs, i)
    ensures forall i :: Open(xs, i) ==> After(xs, Idle) == Awaiting(xs[i])
    decreases |xs|
  {
    if xs != [] {
      var ys, y := xs[..|xs| - 1], xs[|xs| - 1];
      assert xs == ys + [y];
      AfterSnoc(ys, y, Idle);
      AfterIdle(ys);
      forall i | 0 <= i < |ys|
        ensures Open(xs, i) <==> Open(ys, i) && IsComment(y) && !IsExtinf(y)
      {
        assert forall m :: 0 <= m < |ys| ==> xs[m] == ys[m];
      }
      if IsExtinf(y) {
        assert Open(xs, |ys|);
      } else if !IsComment(y) {
        assert !Open(xs, |ys|);
      } else {
        assert !Open(xs, |ys|);
        forall i | Open(ys, i)
          ensures Open(xs, i)
        {
        }
      }
    }
  }

  /** The pairs completed by the first `n` lines, in file order. */
  ghost function CompletedUpTo(lines: seq<string>, n: nat): seq<Pair>
    requires n <= |lines|
    decreases n
  {
    if n == 0 then []
    else
      var j := n - 1;
      CompletedUpTo(lines, j)
      + (if exists i :: PairedAt(lines, Idle, i, j) then
           var i :| PairedAt(lines, Idle, i, j); [Pair(lines[i], lines[j])]
         else [])
  }

  /** Every pair the loop completes over the whole file, in file order. */
  ghost function CompletedPairs(lines: seq<string>): seq<Pair> {
    CompletedUpTo(lines, |lines|)
  }

  /** The drafts of the completed pairs that name a channel and a URL, in
      file order: one per such pair, and nothing else. */
  ghost function KeptDrafts(lines: seq<string>): seq<Draft> {
    Filter(Drafts(CompletedPairs(lines)), Keeps)
  }

  /** Line `j` completes a pair exactly when the lines before it leave a
      metadata line open and line `j` is not a comment. */
  lemma PairedAtIsOpen(lines: seq<string>, i: int, j: nat)
    requires j < |lines|
    ensures PairedAt(lines, Idle, i, j) <==> Open(lines[..j], i) && !IsComment(lines[j])
  {
    assert forall m :: 0 <= m < j ==> lines[..j][m] == lines[m];
  }

  lemma {:induction false} ScanPrefixCompleted(lines: seq<string>, n: nat)
    requires n <= |lines|
    ensures Scan(lines[..n], Idle) == CompletedUpTo(lines, n)
    decreases n
  {
    if n > 0 {
      var xs, x := lines[..n - 1], lines[n - 1];
      assert lines[..n] == xs + [x];
      ScanPrefixCompleted(lines, n - 1);
      ScanSnoc(xs, x, Idle);
      AfterIdle(xs);
      forall i
        ensures PairedAt(lines, Idle, i, n - 1) <==> Open(xs, i) && !IsComment(x)
      {
        PairedAtIsOpen(lines, i, n - 1);
      }
      if !IsComment(x) {
        UrlIsNotExtinf(x);
      }
    } else {
      assert lines[..0] == [];
    }
  }

  /** The scan from the start yields exactly the completed pairs, each once,
      in file order. */
  lemma ScanIsCompleted(lines: seq<string>)
    ensures Scan(lines, Idle) == CompletedPairs(lines)
  {
    ScanPrefixCompleted(lines, |lines|);
    assert lines[..|lines|] == lines;
  }

  /** A URL line completes at most one metadata line: the last one before it. */
  lemma PairedAtUnique(lines: seq<string>, pending: Pending, i: int, i': int, j: int)
    requires PairedAt(lines, pending, i, j) && PairedAt(lines, pending, i', j)
    ensures i == i'
  {
  }

  /** The pairs of the first n lines lead the pairs of the first m lines. */
  lemma {:induction false} CompletedPrefix(lines: seq<string>, n: nat, m: nat)
    requires n <= m <= |lines|
    ensures |CompletedUpTo(lines, n)| <= |CompletedUpTo(lines, m)|
    ensures CompletedUpTo(lines, m)[..|CompletedUpTo(lines, n)|] == CompletedUpTo(lines, n)
    decreases m
  {
    if n < m {
      CompletedPrefix(lines, n, m - 1);
      var a, c := CompletedUpTo(lines, m - 1), CompletedUpTo(lines, n);
      assert CompletedUpTo(lines, m)[..|a|] == a;
      assert a[..|c|] == c;
    } else {
      assert CompletedUpTo(lines, m)[..|CompletedUpTo(lines, m)|] == CompletedUpTo(lines, m);
    }
  }

  /** The pair completed at line j is the one after the pairs completed
      before line j: one entry per completing line, in line order. */
  lemma CompletedAt(lines: seq<string>, i: int, j: nat)
    requires PairedAt(lines, Idle, i, j)
    ensures CompletedUpTo(lines, j + 1) == CompletedUpTo(lines, j) + [Pair(lines[i], lines[j])]
    ensures |CompletedUpTo(lines, j)| < |CompletedPairs(lines)|
    ensures CompletedPairs(lines)[|CompletedUpTo(lines, j)|] == Pair(lines[i], lines[j])
  {
    var i' :| PairedAt(lines, Idle, i', j);
    PairedAtUnique(lines, Idle, i, i', j);
    assert CompletedUpTo(lines, j + 1) == CompletedUpTo(lines, j) + [Pair(lines[i], lines[j])];
    CompletedPrefix(lines, j + 1, |lines|);
    var all := CompletedPairs(lines);
    assert all[..|CompletedUpTo(lines, j + 1)|][|CompletedUpTo(lines, j)|] == Pair(lines[i], lines[j]);
  }

  /** The kept draft of the pair completed at line j comes right after the
      kept drafts of the pairs completed before line j. */
  lemma KeptAt(lines: seq<string>, i: int, j: nat)
    requires PairedAt(lines, Idle, i, j) && Keeps(DraftOf(lines[i], lines[j]))
    ensures var c := |Filter(Drafts(CompletedUpTo(lines, j)), Keeps)|;
      c < |KeptDrafts(lines)| && KeptDrafts(lines)[c] == DraftOf(lines[i], lines[j])
  {
    var before, d := CompletedUpTo(lines, j), DraftOf(lines[i], lines[j]);
    var later := CompletedSplit(lines, i, j);
    DraftsSplit(before, Pair(lines[i], lines[j]), later);
    FilterAt(Drafts(before), d, Drafts(later), Keeps);
  }

  /** The completed pairs split around the one at line j. */
  lemma CompletedSplit(lines: seq<string>, i: int, j: nat) returns (later: seq<Pair>)
    requires PairedAt(lines, Idle, i, j)
    ensures CompletedPairs(lines) == CompletedUpTo(lines, j) + [Pair(lines[i], lines[j])] + later
  {
    var upto := CompletedUpTo(lines, j + 1);
    CompletedAt(lines, i, j);
    CompletedPrefix(lines, j + 1, |lines|);
    var all := CompletedPairs(lines);
    later := all[|upto|..];
    assert all == upto + later;
  }

  /** The drafts of a run split around one pair are split the same way. */
  lemma DraftsSplit(before: seq<Pair>, x: Pair, later: seq<Pair>)
    ensures Drafts(before + [x] + later) == Drafts(before) + [DraftOf(x.extinf, x.url)] + Drafts(later)
  {
    DraftsAppend(before + [x], later);
    DraftsAppend(before, [x]);
    assert Drafts([x]) == [DraftOf(x.extinf, x.url)];
  }

  /** The record of the pair completed at line j, when kept, sits after one
      record for each kept pair completed before line j, and carries that
      count as its id. */
  lemma RecordAt(lines: seq<string>, i: int, j: nat)
    requires PairedAt(lines, Idle, i, j) && Keeps(DraftOf(lines[i], lines[j]))
    ensures var r, c := Number(Drafts(Scan(lines, Idle)), 0), |Filter(Drafts(CompletedUpTo(lines, j)), Keeps)|;
      c < |r| && r[c] == Stamp(DraftOf(lines[i], lines[j]), IdPrefix + NatToString(c))
  {
    ScanRecordsExact(lines);
    KeptAt(lines, i, j);
  }
}
