/** The registry of channels the user adds by hand
    (`frontend/src/hooks/useManualChannels.ts`).

    `addChannel` trims the input, stamps it with an id made of the clock
    reading and a counter that lives at module level and grows by one per
    call, and puts the new record in front of the list (newest first). The
    clock is a parameter. */
module ManualChannels {
  import opened Maybe
  import opened Strings
  import opened Seqs
  import opened M3uParser

  const ManualPrefix: string := "manual-"

  /** `ManualChannelInput`: the optional fields may be missing. */
  datatype ManualInput = ManualInput(
    name: string,
    streamUrl: string,
    thumbnailUrl: Option<string>,
    language: Option<string>,
    country: Option<string>)

  /** The counter shared by every caller, and one caller's list. */
  datatype Registry = Registry(counter: nat, channels: seq<Channel>)

  /** An optional field as stored: a missing field becomes the empty
      string, a present one is trimmed. */
  function OptionalField(field: Option<string>): (r: string)
    ensures Unpadded(r)
    ensures r == "" <==> field.None? || Blank(field.value)
    ensures field.Some? ==> r == Trim(field.value)
  {
    match field
    case None => ""
    case Some(v) => Trim(v)
  }

  /** The id of a hand-added channel: `manual-`, the clock reading, a dash,
      and the counter value, both in decimal. */
  function ManualId(now: nat, counter: nat): string {
    ManualPrefix + (NatToString(now) + "-" + NatToString(counter))
  }

  /** Different clock readings or different counter values give different
      ids, so the id determines both. */
  lemma ManualIdInjective(t1: nat, c1: nat, t2: nat, c2: nat)
    ensures ManualId(t1, c1) == ManualId(t2, c2) <==> t1 == t2 && c1 == c2
  {
    if ManualId(t1, c1) == ManualId(t2, c2) {
      var r1 := NatToString(t1) + "-" + NatToString(c1);
      var r2 := NatToString(t2) + "-" + NatToString(c2);
      PrefixCancel(ManualPrefix, r1, r2);
      DigitsThenSeparator(NatToString(t1), '-', NatToString(c1), NatToString(t2), NatToString(c2));
      NatToStringInjective(t1, t2);
      NatToStringInjective(c1, c2);
    }
  }

  /** The record `addChannel` builds from the input at clock `now`. */
  function NewChannel(input: ManualInput, now: nat, counter: nat): (c: Channel)
    ensures c.id == ManualId(now, counter)
    ensures c.name == Trim(input.name) && c.streamUrl == Trim(input.streamUrl)
    ensures Unpadded(c.name) && Unpadded(c.streamUrl)
    ensures Unpadded(c.thumbnailUrl) && Unpadded(c.language) && Unpadded(c.country)
    ensures c.thumbnailUrl == OptionalField(input.thumbnailUrl)
    ensures c.language == OptionalField(input.language) && c.country == OptionalField(input.country)
  {
    Channel(
      id := ManualId(now, counter),
      name := Trim(input.name),
      streamUrl := Trim(input.streamUrl),
      language := OptionalField(input.language),
      country := OptionalField(input.country),
      thumbnailUrl := OptionalField(input.thumbnailUrl))
  }

  datatype Added = Added(registry: Registry, channel: Channel)

  /** `addChannel`: the counter moves on by one, the new record goes in front
      of the unchanged list, and the same record is returned. */
  function AddChannel(reg: Registry, input: ManualInput, now: nat): (a: Added)
    ensures a.registry.counter == reg.counter + 1
    ensures a.registry.channels == [a.channel] + reg.channels
    ensures |a.registry.channels| == |reg.channels| + 1
    ensures a.channel == NewChannel(input, now, reg.counter)
  {
    var c := NewChannel(input, now, reg.counter);
    Added(Registry(reg.counter + 1, [c] + reg.channels), c)
  }

  /** `id` was handed out before the counter reached `counter`. */
  ghost predicate IssuedBefore(id: string, counter: nat) {
    exists t: nat, c: nat :: c < counter && id == ManualId(t, c)
  }

  predicate IdsDistinct(channels: seq<Channel>) {
    forall i, j :: 0 <= i < j < |channels| ==> channels[i].id != channels[j].id
  }

  /** What the registry keeps true: every id was issued under an earlier
      counter value, and no two records share an id. */
  ghost predicate Valid(reg: Registry) {
    && (forall k :: 0 <= k < |reg.channels| ==> IssuedBefore(reg.channels[k].id, reg.counter))
    && IdsDistinct(reg.channels)
  }

  lemma EmptyIsValid()
    ensures Valid(Registry(0, []))
  {
  }

  /** Putting in front a record whose id carries the current counter value,
      which no earlier id carries, and moving the counter on keeps the
      registry valid. */
  lemma PushValid(reg: Registry, c: Channel, now: nat)
    requires Valid(reg) && c.id == ManualId(now, reg.counter)
    ensures Valid(Registry(reg.counter + 1, [c] + reg.channels))
  {
    var cs := [c] + reg.channels;
    ConsIndex(c, reg.channels);
    forall k | 0 <= k < |reg.channels|
      ensures reg.channels[k].id != c.id && IssuedBefore(reg.channels[k].id, reg.counter + 1)
    {
      var t: nat, n: nat :| n < reg.counter && reg.channels[k].id == ManualId(t, n);
      ManualIdInjective(t, n, now, reg.counter);
    }
    assert IssuedBefore(c.id, reg.counter + 1);
  }

  /** Adding keeps the registry valid, whatever the clock says. */
  lemma AddPreservesValid(reg: Registry, input: ManualInput, now: nat)
    requires Valid(reg)
    ensures Valid(AddChannel(reg, input, now).registry)
  {
    PushValid(reg, AddChannel(reg, input, now).channel, now);
  }

  /** Two additions, even at the same clock reading, give different ids. */
  lemma SuccessiveIdsDiffer(reg: Registry, first: ManualInput, second: ManualInput, now1: nat, now2: nat)
    ensures var a1 := AddChannel(reg, first, now1);
      AddChannel(a1.registry, second, now2).channel.id != a1.channel.id
  {
    ManualIdInjective(now1, reg.counter, now2, reg.counter + 1);
  }
}
