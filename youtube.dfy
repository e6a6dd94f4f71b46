/**
 * toYouTubeEmbed (frontend/src/lib/youtube.js): turns a YouTube link into a
 * privacy-enhanced embed URL. The browser's URL parser is not modelled: the
 * caller passes what it produced (host name, path and the `v` query
 * parameter), or None when the parser threw.
 */
module YouTube {
  import opened Wrappers
  import opened Text

  /** What `new URL(raw)` exposes to the function. */
  datatype ParsedUrl = ParsedUrl(hostname: string, pathname: string, v: Option<string>)

  const EmbedPrefix: string := "https://www.youtube-nocookie.com/embed/"
  const EmbedSuffix: string := "?rel=0"

  /** The characters String.prototype.trim removes: white space and line terminators. */
  predicate IsSpace(c: char) {
    || c == ' ' || c == '\t' || c == '\n' || c == '\r' || c == '\U{000B}' || c == '\U{000C}'
    || c == '\U{00A0}' || c == '\U{1680}' || '\U{2000}' <= c <= '\U{200A}' || c == '\U{2028}'
    || c == '\U{2029}' || c == '\U{202F}' || c == '\U{205F}' || c == '\U{3000}' || c == '\U{FEFF}'
  }

  predicate Blank(s: string) {
    forall i :: 0 <= i < |s| ==> IsSpace(s[i])
  }

  /** parts = pathname.split('/').filter(Boolean): the non-empty segments. */
  function Segments(parts: seq<string>): (r: seq<string>)
    ensures forall k :: 0 <= k < |r| ==> r[k] != "" && r[k] in parts
    ensures forall p :: p in parts && p != "" ==> p in r
  {
    if parts == [] then []
    else if parts[0] == "" then Segments(parts[1..])
    else [parts[0]] + Segments(parts[1..])
  }

  /** Array.prototype.indexOf: the first position of w, or -1. */
  function IndexOf(parts: seq<string>, w: string): (i: int)
    ensures -1 <= i < |parts|
    ensures i >= 0 ==> parts[i] == w && forall k :: 0 <= k < i ==> parts[k] != w
    ensures i == -1 ==> w !in parts
  {
    if parts == [] then -1
    else if parts[0] == w then 0
    else var j := IndexOf(parts[1..], w); if j == -1 then -1 else j + 1
  }

  /** parts[k] as JavaScript reads it: undefined (here "") past the end. */
  function PartAt(parts: seq<string>, k: int): string {
    if 0 <= k < |parts| then parts[k] else ""
  }

  /** The id found in a youtube.com URL: a non-empty `v` wins; then the
      segment after the first "shorts"; then the segment after a leading "embed". */
  function WatchId(u: ParsedUrl): string {
    if u.v.Some? && u.v.value != "" then u.v.value
    else
      var parts := Segments(Split(u.pathname, '/'));
      var shorts := IndexOf(parts, "shorts");
      var fromShorts := if shorts >= 0 then PartAt(parts, shorts + 1) else "";
      if fromShorts != "" then fromShorts
      else if PartAt(parts, 0) == "embed" then PartAt(parts, 1)
      else ""
  }

  /** The id of a youtu.be link: the path without its leading "/", cut at the first "?". */
  function ShortLinkId(u: ParsedUrl): string {
    var path := if |u.pathname| > 0 && u.pathname[0] == '/' then u.pathname[1..] else u.pathname;
    Split(path, '?')[0]
  }

  /** The id the host selects, "" when it selects none. */
  function VideoId(u: ParsedUrl): string {
    var host := Lower(u.hostname);
    if Contains(host, "youtube.com") then WatchId(u)
    else if Contains(host, "youtu.be") then ShortLinkId(u)
    else ""
  }

  /** toYouTubeEmbed(url). `url` is None for null or undefined; `parsed` is
      what the URL parser made of the trimmed text, None when it threw. */
  function ToEmbed(url: Option<string>, parsed: Option<ParsedUrl>): (r: Option<string>)
    ensures url.None? || Blank(url.value) || parsed.None? ==> r.None?
    ensures r.Some? <==> url.Some? && !Blank(url.value) && parsed.Some? && VideoId(parsed.value) != ""
    ensures r.Some? ==> r.value == EmbedPrefix + VideoId(parsed.value) + EmbedSuffix
  {
    if url.None? || url.value == "" then None
    else if Blank(url.value) then None
    else if parsed.None? then None
    else
      var id := VideoId(parsed.value);
      if id != "" then Some(EmbedPrefix + id + EmbedSuffix) else None
  }

  /** The embed URL gives the id back: cutting the fixed prefix and suffix
      recovers exactly the id that was chosen, so distinct ids give distinct URLs. */
  lemma EmbedRoundTrip(url: Option<string>, parsed: Option<ParsedUrl>)
    requires ToEmbed(url, parsed).Some?
    ensures var e := ToEmbed(url, parsed).value;
      && |e| > |EmbedPrefix| + |EmbedSuffix|
      && e[..|EmbedPrefix|] == EmbedPrefix
      && e[|e| - |EmbedSuffix|..] == EmbedSuffix
      && e[|EmbedPrefix|..|e| - |EmbedSuffix|] == VideoId(parsed.value)
  {
    var id := VideoId(parsed.value);
    var e := EmbedPrefix + id + EmbedSuffix;
    assert e[..|EmbedPrefix|] == EmbedPrefix;
    assert e[|e| - |EmbedSuffix|..] == EmbedSuffix;
    assert e[|EmbedPrefix|..|e| - |EmbedSuffix|] == id;
  }

  /** On a youtube.com host a non-empty `v` parameter wins over the path. */
  lemma WatchParameterWins(u: ParsedUrl)
    requires Contains(Lower(u.hostname), "youtube.com")
    requires u.v.Some? && u.v.value != ""
    ensures VideoId(u) == u.v.value
  {
  }

  /** The segments of "/<word>/<id>" are word and id. */
  lemma TwoSegments(word: string, id: string)
    requires word != "" && '/' !in word && id != "" && '/' !in id
    ensures Segments(Split("/" + word + "/" + id, '/')) == [word, id]
  {
    var path := "/" + word + "/" + id;
    assert path == "" + ['/'] + (word + ['/'] + id);
    SplitAppend("", word + ['/'] + id, '/');
    SplitAppend(word, id, '/');
    SplitNoSep(word, '/');
    SplitNoSep(id, '/');
    assert Split(path, '/') == ["", word, id];
    assert ["", word, id][1..] == [word, id];
    assert [word, id][1..] == [id];
    assert [id][1..] == [];
    assert Segments([id]) == [id];
    assert Segments([word, id]) == [word] + Segments([id]);
  }

  /** Without `v`, /shorts/<id> yields id. */
  lemma ShortsPath(host: string, id: string)
    requires Contains(Lower(host), "youtube.com") && id != "" && '/' !in id
    ensures VideoId(ParsedUrl(host, "/shorts/" + id, None)) == id
  {
    assert "/shorts/" + id == "/" + "shorts" + "/" + id;
    TwoSegments("shorts", id);
    var parts := ["shorts", id];
    assert IndexOf(parts, "shorts") == 0;
    assert PartAt(parts, 1) == id;
  }

  /** Without `v` or "shorts", /embed/<id> yields id. */
  lemma EmbedPath(host: string, id: string)
    requires Contains(Lower(host), "youtube.com") && id != "" && '/' !in id && id != "shorts"
    ensures VideoId(ParsedUrl(host, "/embed/" + id, None)) == id
  {
    assert "/embed/" + id == "/" + "embed" + "/" + id;
    TwoSegments("embed", id);
    var parts := ["embed", id];
    assert parts[1..] == [id] && [id][1..] == [];
    assert IndexOf(parts, "shorts") == -1;
    assert PartAt(parts, 0) == "embed" && PartAt(parts, 1) == id;
  }

  /** A youtu.be link yields its path minus the leading slash. */
  lemma ShortLink(host: string, id: string)
    requires !Contains(Lower(host), "youtube.com") && Contains(Lower(host), "youtu.be")
    requires '?' !in id
    ensures VideoId(ParsedUrl(host, "/" + id, None)) == id
  {
    assert ("/" + id)[1..] == id;
    SplitNoSep(id, '?');
  }

  /** A host that is neither youtube.com nor youtu.be never yields a URL. */
  lemma OtherHostRejected(url: Option<string>, u: ParsedUrl)
    requires !Contains(Lower(u.hostname), "youtube.com") && !Contains(Lower(u.hostname), "youtu.be")
    ensures ToEmbed(url, Some(u)).None?
  {
  }
}
