/** Playlist-ID extraction (main.py, `extract_playlist_id`): the search for
    `playlist/([a-zA-Z0-9]+)` in a URL, written as a plain string scan. */
module PlaylistUrl {

  /** The exception the extractor raises. */
  datatype Error = ValueError(message: string)

  datatype Result<T> = Ok(value: T) | Err(error: Error)

  datatype Option<T> = None | Some(value: T)

  const Marker: string := "playlist/"
  const InvalidUrlMessage: string := "Invalid playlist URL"

  /** The character class `[a-zA-Z0-9]`: ASCII letters and digits only. */
  predicate IsAlnum(c: char) {
    ('a' <= c <= 'z') || ('A' <= c <= 'Z') || ('0' <= c <= '9')
  }

  predicate AllAlnum(s: string) {
    forall k :: 0 <= k < |s| ==> IsAlnum(s[k])
  }

  /** The literal `playlist/` occurs in `url` at index `i`. */
  predicate MarkerAt(url: string, i: nat) {
    i + |Marker| <= |url| && url[i..i + |Marker|] == Marker
  }

  /** The whole pattern matches at `i`: the literal, then at least one
      alphanumeric character. */
  predicate MatchAt(url: string, i: nat) {
    MarkerAt(url, i) && i + |Marker| < |url| && IsAlnum(url[i + |Marker|])
  }

  /** The end of the longest run of alphanumerics that starts at `j`. */
  function RunEnd(url: string, j: nat): (e: nat)
    requires j <= |url|
    ensures j <= e <= |url|
    ensures forall k :: j <= k < e ==> IsAlnum(url[k])
    ensures e == |url| || !IsAlnum(url[e])
    decreases |url| - j
  {
    if j < |url| && IsAlnum(url[j]) then RunEnd(url, j + 1) else j
  }

  /** The leftmost index at or after `from` where the pattern matches. */
  function FindMatch(url: string, from: nat): (r: Option<nat>)
    requires from <= |url|
    ensures r.Some? ==> from <= r.value < |url| && MatchAt(url, r.value)
    ensures r.Some? ==> forall k: nat :: from <= k < r.value ==> !MatchAt(url, k)
    ensures r.None? ==> forall k: nat :: from <= k ==> !MatchAt(url, k)
    decreases |url| - from
  {
    if from == |url| then None
    else if MatchAt(url, from) then Some(from)
    else FindMatch(url, from + 1)
  }

  /** `extract_playlist_id`: the captured group of the first match, or
      `ValueError("Invalid playlist URL")`. */
  function ExtractPlaylistId(url: string): (r: Result<string>)
    ensures r.Err? ==> r.error == ValueError(InvalidUrlMessage)
    ensures r.Ok? ==> |r.value| > 0 && AllAlnum(r.value)
  {
    match FindMatch(url, 0)
    case None => Err(ValueError(InvalidUrlMessage))
    case Some(i) =>
      var j := i + |Marker|;
      Ok(url[j..RunEnd(url, j)])
  }

  /** `id` is what the pattern captures when it matches at `i`: it follows the
      literal directly, is a non-empty run of alphanumerics, and is not
      followed by another alphanumeric (the `+` is greedy). */
  ghost predicate CapturedAt(url: string, i: nat, id: string) {
    var j := i + |Marker|;
    && MarkerAt(url, i)
    && |id| > 0
    && AllAlnum(id)
    && j + |id| <= |url|
    && url[j..j + |id|] == id
    && (j + |id| == |url| || !IsAlnum(url[j + |id|]))
  }

  /** No match starts before `i`. */
  ghost predicate NoMatchBefore(url: string, i: nat) {
    forall k: nat :: k < i ==> !MatchAt(url, k)
  }

  /** A capture is a match. */
  lemma CapturedMatches(url: string, i: nat, id: string)
    requires CapturedAt(url, i, id)
    ensures MatchAt(url, i)
  {
    assert url[i + |Marker|] == id[0];
  }

  /** The extractor succeeds with `id` exactly when `id` is captured at the
      leftmost position where the pattern matches. */
  lemma ExtractCharacterised(url: string, id: string)
    ensures ExtractPlaylistId(url) == Ok(id) <==>
            exists i: nat :: NoMatchBefore(url, i) && CapturedAt(url, i, id)
  {
    match FindMatch(url, 0)
    case None =>
      forall i: nat | CapturedAt(url, i, id) ensures MatchAt(url, i) {
        CapturedMatches(url, i, id);
      }
    case Some(i) =>
      var j := i + |Marker|;
      var e := RunEnd(url, j);
      if ExtractPlaylistId(url) == Ok(id) {
        assert NoMatchBefore(url, i) && CapturedAt(url, i, id);
      }
      forall i': nat | NoMatchBefore(url, i') && CapturedAt(url, i', id)
        ensures ExtractPlaylistId(url) == Ok(id)
      {
        CapturedMatches(url, i', id);
        assert i' == i;
        assert forall k :: j <= k < j + |id| ==> url[k] == id[k - j];
        assert e == j + |id|;
      }
    }

  /** The extractor fails exactly when no occurrence of the literal is
      followed by an alphanumeric character. */
  lemma ExtractFails(url: string)
    ensures ExtractPlaylistId(url).Err? <==> forall k: nat :: !MatchAt(url, k)
  {
  }

  /** No suffix of `playlist/` other than itself is also a prefix of it:
      every later character differs from its leading `p`. */
  lemma MarkerHeadUnique(d: nat)
    requires 0 < d < |Marker|
    ensures Marker[d] != Marker[0]
  {
  }

  /** Surrounding text does not matter: whatever comes before the first
      `playlist/` and whatever follows the identifier after a non-alphanumeric
      character (a query string, further path segments), the identifier is
      returned exactly. */
  lemma ExtractIgnoresSurroundings(before: string, id: string, after: string)
    requires forall k: nat :: !MarkerAt(before, k)
    requires |id| > 0 && AllAlnum(id)
    requires after == [] || !IsAlnum(after[0])
    ensures ExtractPlaylistId(before + Marker + id + after) == Ok(id)
  {
    var url := before + Marker + id + after;
    var i := |before|;
    assert url[i..i + |Marker|] == Marker;
    assert url[i + |Marker|..i + |Marker| + |id|] == id;
    forall k: nat | k < i ensures !MatchAt(url, k) {
      if k + |Marker| <= i {
        assert url[k..k + |Marker|] == before[k..k + |Marker|];
        assert !MarkerAt(before, k);
      } else {
        MarkerHeadUnique(i - k);
        assert url[i] == Marker[0];
        assert url[k..k + |Marker|][i - k] == url[i];
      }
    }
    if after != [] {
      assert url[i + |Marker| + |id|] == after[0];
    }
    assert CapturedAt(url, i, id);
    ExtractCharacterised(url, id);
  }

  /** `url` holds the pair `pl` at index `k`. */
  predicate PlAt(url: string, k: nat) {
    k + 1 < |url| && url[k] == 'p' && url[k + 1] == 'l'
  }

  /** Every occurrence of `playlist/` starts with the pair `pl`. */
  lemma MarkerStartsWithPl(url: string, k: nat)
    requires MarkerAt(url, k)
    ensures PlAt(url, k)
  {
    assert url[k..k + |Marker|][0] == url[k];
    assert url[k..k + |Marker|][1] == url[k + 1];
  }

  /** A URL that never holds `pl` holds no `playlist/`. */
  lemma NoMarkerWithoutPl(url: string)
    requires forall k: nat :: !PlAt(url, k)
    ensures forall k: nat :: !MarkerAt(url, k)
  {
    forall k: nat | MarkerAt(url, k) ensures PlAt(url, k) {
      MarkerStartsWithPl(url, k);
    }
  }

  const AlbumUrl: string := "https://open.spotify.com/album/37i9dQZF1"
  const PlaylistShareUrl: string := "https://open.spotify.com/playlist/37i9dQZF1?si=abc"

  /** An album link is not a playlist link. */
  lemma AlbumUrlRejected()
    ensures ExtractPlaylistId(AlbumUrl) == Err(ValueError(InvalidUrlMessage))
  {
    forall k: nat ensures !PlAt(AlbumUrl, k) {
    }
    NoMarkerWithoutPl(AlbumUrl);
    ExtractFails(AlbumUrl);
  }

  /** A shared playlist link: the query string is not part of the identifier. */
  lemma PlaylistShareUrlAccepted()
    ensures ExtractPlaylistId(PlaylistShareUrl) == Ok("37i9dQZF1")
  {
    var before := "https://open.spotify.com/";
    forall k: nat ensures !PlAt(before, k) {
    }
    NoMarkerWithoutPl(before);
    assert PlaylistShareUrl == before + Marker + "37i9dQZF1" + "?si=abc";
    ExtractIgnoresSurroundings(before, "37i9dQZF1", "?si=abc");
  }

  const SkippedMarkerUrl: string := "playlist/-playlist/AB1"

  /** An earlier `playlist/` that is not followed by an alphanumeric is skipped. */
  lemma EarlierBareMarkerSkipped()
    ensures ExtractPlaylistId(SkippedMarkerUrl) == Ok("AB1")
  {
    var url := SkippedMarkerUrl;
    forall k: nat | k < 10 ensures !MatchAt(url, k) {
      if 0 < k && MarkerAt(url, k) {
        MarkerStartsWithPl(url, k);
      }
    }
    assert url[10..19] == Marker;
    assert url[19..22] == "AB1";
    assert CapturedAt(url, 10, "AB1");
    ExtractCharacterised(url, "AB1");
  }
}
