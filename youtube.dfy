/**
 * The YouTube helpers of app/lib/gameData.js: `isYoutubeUrl`, a
 * case-insensitive test for the two host names, and `toYoutubeEmbed`, which
 * rewrites a short link or a watch link into the embed form. The two
 * regular expressions it uses are modelled as scans for their leftmost
 * match, with the id the greedy `[^?&]+` group captures.
 */
module Youtube {
  import opened Wrappers
  import opened Strings

  /** What a rewritten link starts with; the id follows it. */
  const EmbedPrefix: string := "https://www.youtube.com/embed/"

  /** The video-link test (app/lib/gameData.js:33-37): non-empty and naming one of the two hosts, ignoring case. */
  predicate IsYoutubeUrl(s: string)
  {
    if s == "" then false
    else
      var u := Lower(s);
      Contains(u, "youtube.com") || Contains(u, "youtu.be")
  }

  // ---------------------------------------------------------------------------
  // the two patterns

  /** The short-link pattern (app/lib/gameData.js:45) and the watch-parameter pattern (app/lib/gameData.js:49), tried in that order. */
  datatype Shape = ShortLink | WatchParam

  /** The length of the literal part of a pattern, which the id follows. */
  function Lead(shape: Shape): nat
  {
    match shape
    case ShortLink => 9
    case WatchParam => 3
  }

  /** The characters `[^?&]` excludes. */
  predicate IsQA(ch: char)
  {
    ch == '?' || ch == '&'
  }

  /**
   * The pattern matches starting at `p`: its literal part is there (letters
   * compared without case) and at least one character other than `?` and
   * `&` follows it.
   */
  predicate MatchAt(u: string, shape: Shape, p: nat)
  {
    && p + Lead(shape) < |u|
    && !IsQA(u[p + Lead(shape)])
    && match shape
       case ShortLink => Lower(u[p..p + 9]) == "youtu.be/"
       case WatchParam => IsQA(u[p]) && LowerChar(u[p + 1]) == 'v' && u[p + 2] == '='
  }

  /** The leftmost match at or after `from`, as `String.prototype.match` finds it. */
  function FindMatch(u: string, shape: Shape, from: nat): (r: Option<nat>)
    ensures r.Some? ==> from <= r.value && MatchAt(u, shape, r.value)
    ensures r.Some? ==> forall q :: from <= q < r.value ==> !MatchAt(u, shape, q)
    ensures r.None? ==> forall q :: from <= q ==> !MatchAt(u, shape, q)
    decreases |u| - from
  {
    if from >= |u| then None
    else if MatchAt(u, shape, from) then Some(from)
    else FindMatch(u, shape, from + 1)
  }

  /** Where the greedy run of characters other than `?` and `&` that starts at `k` ends. */
  function RunEnd(u: string, k: nat): (e: nat)
    requires k <= |u|
    ensures k <= e <= |u|
    ensures forall j :: k <= j < e ==> !IsQA(u[j])
    ensures e < |u| ==> IsQA(u[e])
    decreases |u| - k
  {
    if k == |u| || IsQA(u[k]) then k else RunEnd(u, k + 1)
  }

  /** The capture group of the match at `p`: a non-empty id without `?` or `&`. */
  function IdAt(u: string, shape: Shape, p: nat): (id: string)
    requires MatchAt(u, shape, p)
    ensures |id| > 0 && forall j :: 0 <= j < |id| ==> !IsQA(id[j])
  {
    u[p + Lead(shape)..RunEnd(u, p + Lead(shape))]
  }

  /**
   * `toYoutubeEmbed(url)`: the result is either the input itself or the
   * embed prefix followed by a non-empty id free of `?` and `&`.
   */
  function ToYoutubeEmbed(url: string): (r: string)
    ensures r == url || (|r| > |EmbedPrefix| && r[..|EmbedPrefix|] == EmbedPrefix &&
                         forall j :: |EmbedPrefix| <= j < |r| ==> !IsQA(r[j]))
  {
    if Contains(url, "/embed/") then url
    else
      match FindMatch(url, ShortLink, 0)
      case Some(p) => EmbedPrefix + IdAt(url, ShortLink, p)
      case None =>
        match FindMatch(url, WatchParam, 0)
        case Some(p) => EmbedPrefix + IdAt(url, WatchParam, p)
        case None => url
  }

  // ---------------------------------------------------------------------------
  // properties

  /** A URL that already contains `/embed/` comes back unchanged. */
  lemma EmbedUrlUnchanged(url: string)
    requires Contains(url, "/embed/")
    ensures ToYoutubeEmbed(url) == url
  {
  }

  /**
   * Otherwise the leftmost short-link match decides the id, even when a
   * watch parameter stands further left.
   */
  lemma ShortLinkWins(url: string, p: nat)
    requires !Contains(url, "/embed/")
    requires MatchAt(url, ShortLink, p)
    requires forall q: nat :: q < p ==> !MatchAt(url, ShortLink, q)
    ensures ToYoutubeEmbed(url) == EmbedPrefix + IdAt(url, ShortLink, p)
  {
    var r := FindMatch(url, ShortLink, 0);
    assert r.Some? && r.value <= p;
  }

  /** Only when no short-link match exists does the leftmost watch parameter decide the id. */
  lemma WatchParamFallback(url: string, p: nat)
    requires !Contains(url, "/embed/")
    requires forall q: nat :: !MatchAt(url, ShortLink, q)
    requires MatchAt(url, WatchParam, p)
    requires forall q: nat :: q < p ==> !MatchAt(url, WatchParam, q)
    ensures ToYoutubeEmbed(url) == EmbedPrefix + IdAt(url, WatchParam, p)
  {
    var r := FindMatch(url, WatchParam, 0);
    assert r.Some? && r.value <= p;
  }

  /** With neither pattern matching, the URL comes back unchanged. */
  lemma NoMatchUnchanged(url: string)
    requires forall q: nat :: !MatchAt(url, ShortLink, q) && !MatchAt(url, WatchParam, q)
    ensures ToYoutubeEmbed(url) == url
  {
  }

  /** A rewritten link contains `/embed/`. */
  lemma EmbedPrefixed(id: string)
    ensures Contains(EmbedPrefix + id, "/embed/")
  {
    var r := EmbedPrefix + id;
    assert r[23..30] == "/embed/";
    assert OccursAt(r, "/embed/", 23);
  }

  /** Rewriting is idempotent: a rewritten link is left alone the second time. */
  lemma ToYoutubeEmbedIdempotent(url: string)
    ensures ToYoutubeEmbed(ToYoutubeEmbed(url)) == ToYoutubeEmbed(url)
  {
    var r := ToYoutubeEmbed(url);
    if r != url {
      assert r == EmbedPrefix + r[|EmbedPrefix|..];
      EmbedPrefixed(r[|EmbedPrefix|..]);
    }
  }

  /**
   * A rewritten link carries no query at all: neither `?` nor `&` occurs in
   * it, so no start offset is ever passed on.
   */
  lemma RewriteHasNoQuery(url: string)
    ensures ToYoutubeEmbed(url) != url ==>
      Contains(ToYoutubeEmbed(url), "/embed/") && '?' !in ToYoutubeEmbed(url) && '&' !in ToYoutubeEmbed(url)
  {
    var r := ToYoutubeEmbed(url);
    if r != url {
      assert r == EmbedPrefix + r[|EmbedPrefix|..];
      EmbedPrefixed(r[|EmbedPrefix|..]);
      forall j | 0 <= j < |r| ensures !IsQA(r[j]) {
        if j < |EmbedPrefix| { assert r[j] == EmbedPrefix[j]; }
      }
    }
  }

  /** The empty-string guard changes nothing: "" contains neither host name anyway. */
  lemma IsYoutubeUrlHosts(s: string)
    ensures !IsYoutubeUrl("")
    ensures IsYoutubeUrl(s) <==> Contains(Lower(s), "youtube.com") || Contains(Lower(s), "youtu.be")
  {
  }

  /** The test ignores the case of ASCII letters. */
  lemma IsYoutubeUrlIgnoresCase(s: string)
    ensures IsYoutubeUrl(Lower(s)) == IsYoutubeUrl(s)
  {
    LowerIdempotent(s);
  }

  /** A URL with a short-link match passes the YouTube test. */
  lemma ShortLinkIsYoutube(url: string, p: nat)
    requires MatchAt(url, ShortLink, p)
    ensures IsYoutubeUrl(url)
  {
    var u := Lower(url);
    LowerSlice(url, p, p + 9);
    assert u[p..p + 8] == u[p..p + 9][..8] == "youtu.be/"[..8] == "youtu.be";
    assert OccursAt(u, "youtu.be", p);
  }

  /** A link in embed form passes the YouTube test. */
  lemma EmbedIsYoutube(id: string)
    ensures IsYoutubeUrl(EmbedPrefix + id)
  {
    var r := EmbedPrefix + id;
    LowerSlice(r, 12, 23);
    assert r[12..23] == "youtube.com";
    assert OccursAt(Lower(r), "youtube.com", 12);
  }

  /** Rewriting keeps a YouTube link a YouTube link. */
  lemma ToYoutubeEmbedStaysYoutube(url: string)
    requires IsYoutubeUrl(url)
    ensures IsYoutubeUrl(ToYoutubeEmbed(url))
  {
    var r := ToYoutubeEmbed(url);
    if r != url {
      assert r == EmbedPrefix + r[|EmbedPrefix|..];
      EmbedIsYoutube(r[|EmbedPrefix|..]);
    }
  }
}
