/** Loading the public playlist (`frontend/src/hooks/useM3UChannels.ts`).

    `fetchM3U` asks for the playlist directly and accepts the answer only if
    the response is ok and its body contains `#EXTM3U`; anything else (a
    thrown request, a bad status, an unreadable body, a body without the
    marker) falls through to exactly one request through a CORS proxy, whose
    failures are final. The network and `encodeURIComponent` are parameters:
    `network` gives the outcome of requesting a URL. */
module M3uChannels {
  import opened Strings
  import opened M3uParser

  const DefaultUrl: string := "https://iptv-org.github.io/iptv/index.m3u"
  const CorsProxy: string := "https://corsproxy.io/?url="
  const Marker: string := "#EXTM3U"
  const BadStatusPrefix: string := "Failed to fetch M3U playlist: "
  const MissingHeaderMessage: string := "Invalid M3U playlist: missing #EXTM3U header"

  /** What reading a response body gives: its text, or an exception. */
  datatype Body = Text(text: string) | Unreadable

  /** What a request gives: an exception, or a response. */
  datatype Outcome =
    | Threw
    | Response(ok: bool, status: nat, statusText: string, body: Body)

  /** Why loading failed. The first and third carry the exception of the
      runtime, whose message is not modelled. */
  datatype FetchError =
    | NetworkFailure
    | BadStatus(status: nat, statusText: string)
    | BodyFailure
    | MissingHeader

  datatype FetchResult = Fetched(text: string) | Failed(error: FetchError)

  /** The URLs requested, in order, and what `fetchM3U` resolved or rejected with. */
  datatype Fetch = Fetch(requested: seq<string>, result: FetchResult)

  /** An outcome the playlist is accepted from: an ok response whose body
      was read and contains the marker. */
  predicate Acceptable(o: Outcome) {
    o.Response? && o.ok && o.body.Text? && Contains(o.body.text, Marker)
  }

  function ProxyUrl(url: string, encode: string -> string): string {
    CorsProxy + encode(url)
  }

  /** What the proxy outcome turns into: the text when it is acceptable,
      otherwise the error for the first check that fails. */
  function ProxyResult(o: Outcome): (r: FetchResult)
    ensures r.Fetched? <==> Acceptable(o)
    ensures r.Fetched? ==> o.body == Text(r.text)
    ensures o.Threw? ==> r == Failed(NetworkFailure)
    ensures o.Response? && !o.ok ==> r == Failed(BadStatus(o.status, o.statusText))
    ensures o.Response? && o.ok && o.body.Unreadable? ==> r == Failed(BodyFailure)
    ensures o.Response? && o.ok && o.body.Text? && !Contains(o.body.text, Marker) ==> r == Failed(MissingHeader)
  {
    match o
    case Threw => Failed(NetworkFailure)
    case Response(ok, status, statusText, body) =>
      if !ok then Failed(BadStatus(status, statusText))
      else match body
        case Unreadable => Failed(BodyFailure)
        case Text(text) => if Contains(text, Marker) then Fetched(text) else Failed(MissingHeader)
  }

  /** `fetchM3U`: the direct request, then, unless its outcome is acceptable,
      the single proxy request. */
  function FetchM3U(url: string, network: string -> Outcome, encode: string -> string): (f: Fetch)
    ensures 1 <= |f.requested| <= 2 && f.requested[0] == url
    ensures |f.requested| == 1 <==> Acceptable(network(url))
    ensures |f.requested| == 2 ==> f.requested[1] == ProxyUrl(url, encode)
    ensures |f.requested| == 2 ==> f.result == ProxyResult(network(f.requested[1]))
    ensures f.result.Fetched? ==> Contains(f.result.text, Marker)
    ensures f.result.Fetched? ==>
      var last := network(f.requested[|f.requested| - 1]);
      last.Response? && last.ok && last.body == Text(f.result.text)
  {
    var direct := network(url);
    if Acceptable(direct) then Fetch([url], Fetched(direct.body.text))
    else
      var proxied := ProxyUrl(url, encode);
      Fetch([url, proxied], ProxyResult(network(proxied)))
  }

  /** When the direct answer is acceptable it is the result, and the proxy is
      never asked: what the network would say there does not matter. */
  lemma DirectAcceptedSkipsProxy(url: string, network: string -> Outcome, other: string -> Outcome, encode: string -> string)
    requires Acceptable(network(url)) && other(url) == network(url)
    ensures FetchM3U(url, network, encode) == Fetch([url], Fetched(network(url).body.text))
    ensures FetchM3U(url, other, encode) == FetchM3U(url, network, encode)
  {
  }

  /** Otherwise the result is decided by the proxy alone: whatever went wrong
      directly, the proxy outcome maps to the result by `ProxyResult`. */
  lemma FallThroughToProxy(url: string, network: string -> Outcome, encode: string -> string)
    requires !Acceptable(network(url))
    ensures FetchM3U(url, network, encode)
         == Fetch([url, ProxyUrl(url, encode)], ProxyResult(network(ProxyUrl(url, encode))))
  {
  }

  /** The message the error is raised with, where the code builds one. */
  function ErrorMessage(e: FetchError): (m: Maybe.Option<string>)
    ensures m.Some? <==> e.BadStatus? || e.MissingHeader?
    ensures e.BadStatus? ==> StartsWith(m.value, BadStatusPrefix)
  {
    match e
    case BadStatus(status, statusText) =>
      Maybe.Some(BadStatusPrefix + StatusLine(status, statusText))
    case MissingHeader => Maybe.Some(MissingHeaderMessage)
    case _ => Maybe.None
  }

  /** The status code in decimal, a space, and the status text. */
  function StatusLine(status: nat, statusText: string): string {
    NatToString(status) + " " + statusText
  }

  /** A status line gives back the status and its text. */
  lemma StatusLineInjective(s1: nat, t1: string, s2: nat, t2: string)
    ensures StatusLine(s1, t1) == StatusLine(s2, t2) <==> s1 == s2 && t1 == t2
  {
    if StatusLine(s1, t1) == StatusLine(s2, t2) {
      DigitsThenSeparator(NatToString(s1), ' ', t1, NatToString(s2), t2);
      NatToStringInjective(s1, s2);
    }
  }

  /** The two kinds of message already differ in their first character. */
  lemma MessageHead(e: FetchError)
    requires ErrorMessage(e).Some?
    ensures ErrorMessage(e).value != [] && ErrorMessage(e).value[0] == (if e.BadStatus? then 'F' else 'I')
  {
  }

  /** The messages tell the errors apart: a bad-status message determines
      the status and its text, and differs from the missing-header message. */
  lemma ErrorMessageInjective(e1: FetchError, e2: FetchError)
    requires ErrorMessage(e1).Some? && ErrorMessage(e2).Some?
    ensures ErrorMessage(e1) == ErrorMessage(e2) <==> e1 == e2
  {
    MessageHead(e1);
    MessageHead(e2);
    if ErrorMessage(e1) == ErrorMessage(e2) && e1.BadStatus? && e2.BadStatus? {
      PrefixCancel(BadStatusPrefix, StatusLine(e1.status, e1.statusText), StatusLine(e2.status, e2.statusText));
      StatusLineInjective(e1.status, e1.statusText, e2.status, e2.statusText);
    }
  }

  /** The outcome of the playlist query. */
  datatype Query = Loaded(channels: seq<Channel>) | Errored(error: FetchError)

  /** `queryFn`: the fetched text, parsed; a rejected fetch rejects the query. */
  function LoadChannels(url: string, network: string -> Outcome, encode: string -> string): (q: Query)
    ensures q.Loaded? <==> FetchM3U(url, network, encode).result.Fetched?
    ensures q.Errored? ==> q.error == FetchM3U(url, network, encode).result.error
  {
    match FetchM3U(url, network, encode).result
    case Fetched(text) => Loaded(Parse(text))
    case Failed(e) => Errored(e)
  }

  /** The parser only ever sees a text that carries the marker, and the
      loaded channels are exactly what it makes of that text. */
  lemma LoadedFromMarkedText(url: string, network: string -> Outcome, encode: string -> string)
    requires LoadChannels(url, network, encode).Loaded?
    ensures exists text ::
      && Contains(text, Marker)
      && FetchM3U(url, network, encode).result == Fetched(text)
      && LoadChannels(url, network, encode).channels == Parse(text)
  {
    var text := FetchM3U(url, network, encode).result.text;
    assert Contains(text, Marker);
  }
}
