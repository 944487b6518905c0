/**
 * Extraction of the video identifier from what the user pasted: the value
 * after `v=` in a watch URL, the path after `youtu.be/` in a short link, or
 * else the first eleven characters of the input taken as a bare identifier.
 */
module VideoId {
  import opened Wrappers
  import opened Strings

  const QueryMarker: string := "v="
  const ShortLinkMarker: string := "youtu.be/"
  /** Identifiers are eleven characters long; every branch truncates to this. */
  const IdLength: nat := 11

  /** `url.split(marker)[1][:11]`: at most eleven characters of the text after the first `marker`. */
  function AfterMarker(url: string, marker: string): (id: string)
    requires |marker| > 0 && Contains(url, marker)
    ensures |id| <= IdLength
  {
    Take(Split(url, marker)[1], IdLength)
  }

  /** The identifier the script passes to the comment API. */
  function GetVideoId(url: string): (id: string)
    ensures |id| <= IdLength
  {
    if Contains(url, QueryMarker) then AfterMarker(url, QueryMarker)
    else if Contains(url, ShortLinkMarker) then AfterMarker(url, ShortLinkMarker)
    else Take(url, IdLength)
  }

  /**
   * What `AfterMarker` returns: a prefix of the text after the first `marker`,
   * with no `marker` starting inside it, and it stops early only at the end of
   * the URL or right before the next `marker`.
   */
  lemma AfterMarkerSpec(url: string, marker: string)
    requires |marker| > 0 && Contains(url, marker)
    ensures var rest := url[IndexOf(url, marker).value + |marker|..];
      var id := AfterMarker(url, marker);
      && IsPrefix(id, rest)
      && (forall j :: 0 <= j < |id| ==> !OccursAt(rest, marker, j))
      && (|id| == IdLength || id == rest || OccursAt(rest, marker, |id|))
      && OccursAt(url, id, IndexOf(url, marker).value + |marker|)
  {
    var i := IndexOf(url, marker).value;
    var rest := url[i + |marker|..];
    SecondPiece(url, marker);
    var piece := Split(url, marker)[1];
    var id := AfterMarker(url, marker);
    assert IsPrefix(id, piece);
    assert rest[..|id|] == id;
    assert url[i + |marker|..i + |marker| + |id|] == rest[..|id|];
  }

  /**
   * A URL with `v=` anywhere yields the text after its first `v=`, even when
   * the URL is also a short link.
   */
  lemma QueryMarkerWins(url: string)
    requires Contains(url, QueryMarker)
    ensures var rest := url[IndexOf(url, QueryMarker).value + |QueryMarker|..];
      var id := GetVideoId(url);
      && IsPrefix(id, rest)
      && (forall j :: 0 <= j < |id| ==> !OccursAt(rest, QueryMarker, j))
      && (|id| == IdLength || id == rest || OccursAt(rest, QueryMarker, |id|))
  {
    AfterMarkerSpec(url, QueryMarker);
  }

  /** A short link without `v=` yields the text after its first `youtu.be/`. */
  lemma ShortLinkId(url: string)
    requires !Contains(url, QueryMarker) && Contains(url, ShortLinkMarker)
    ensures var rest := url[IndexOf(url, ShortLinkMarker).value + |ShortLinkMarker|..];
      var id := GetVideoId(url);
      && IsPrefix(id, rest)
      && (forall j :: 0 <= j < |id| ==> !OccursAt(rest, ShortLinkMarker, j))
      && (|id| == IdLength || id == rest || OccursAt(rest, ShortLinkMarker, |id|))
  {
    AfterMarkerSpec(url, ShortLinkMarker);
  }

  /** Input with neither marker is taken as a bare identifier: its first eleven characters. */
  lemma BareId(url: string)
    requires !Contains(url, QueryMarker) && !Contains(url, ShortLinkMarker)
    ensures GetVideoId(url) == url[..if |url| < IdLength then |url| else IdLength]
    ensures |url| <= IdLength ==> GetVideoId(url) == url
  {
  }

  /** Whatever the input, the identifier is a contiguous piece of it. */
  lemma IdIsSubstring(url: string)
    ensures Contains(url, GetVideoId(url))
  {
    var id := GetVideoId(url);
    if Contains(url, QueryMarker) {
      AfterMarkerSpec(url, QueryMarker);
      assert OccursAt(url, id, IndexOf(url, QueryMarker).value + |QueryMarker|);
    } else if Contains(url, ShortLinkMarker) {
      AfterMarkerSpec(url, ShortLinkMarker);
      assert OccursAt(url, id, IndexOf(url, ShortLinkMarker).value + |ShortLinkMarker|);
    } else {
      assert OccursAt(url, id, 0);
    }
  }

  /**
   * The identifier after a marker: when `marker` first occurs right after
   * `before` and is followed by eleven characters none of which can start
   * another `marker`, those eleven characters are the identifier.
   */
  lemma MarkerThenId(before: string, marker: string, id: string, after: string)
    requires |marker| > 0 && |id| == IdLength
    requires marker[0] !in before && marker[0] !in id
    ensures Contains(before + marker + id + after, marker)
    ensures AfterMarker(before + marker + id + after, marker) == id
  {
    var url := before + marker + id + after;
    var n := |before|;
    assert url[..n] == before;
    assert url[n..n + |marker|] == marker;
    FirstOccurrenceAt(url, marker, n);
    var rest := url[n + |marker|..];
    assert rest == id + after;
    forall j | 0 <= j < IdLength
      ensures !OccursAt(rest, marker, j)
    {
      assert rest[j] == id[j];
    }
    AfterMarkerSpec(url, marker);
    var got := AfterMarker(url, marker);
    assert |got| == IdLength;
    assert got == rest[..IdLength] == id;
  }

  /**
   * A watch URL: the eleven characters after the first `v=` are the
   * identifier, whatever follows them and even if the URL is also a short link.
   * The condition that no `v` occurs before the marker or in the identifier is
   * what keeps this lemma simple; real identifiers may contain `v`, and
   * `QueryMarkerWins` covers every URL containing `v=`.
   */
  lemma WatchUrlShape(before: string, id: string, after: string)
    requires |id| == IdLength
    requires QueryMarker[0] !in before && QueryMarker[0] !in id
    ensures GetVideoId(before + QueryMarker + id + after) == id
  {
    MarkerThenId(before, QueryMarker, id, after);
  }

  /**
   * A short link: with no `v=` anywhere, the eleven characters after the first
   * `youtu.be/` are the identifier, whatever follows them. As for watch URLs,
   * the character conditions only keep the lemma simple; `ShortLinkId` covers
   * every short link, whatever characters its identifier has.
   */
  lemma ShortLinkShape(before: string, id: string, after: string)
    requires |id| == IdLength
    requires QueryMarker[0] !in before + ShortLinkMarker + id + after
    requires ShortLinkMarker[0] !in before && ShortLinkMarker[0] !in id
    ensures GetVideoId(before + ShortLinkMarker + id + after) == id
  {
    AbsentFirstChar(before + ShortLinkMarker + id + after, QueryMarker);
    MarkerThenId(before, ShortLinkMarker, id, after);
  }

  // A watch URL, a short link and a bare identifier of the same video give
  // the same identifier.

  /** The watch URL with a trailing time parameter gives the identifier after `v=`. */
  lemma WatchUrlExample()
    ensures GetVideoId("https://www.youtube.com/watch?" + QueryMarker + "dQw4w9WgXcQ" + "&t=42") == "dQw4w9WgXcQ"
  {
    WatchUrlShape("https://www.youtube.com/watch?", "dQw4w9WgXcQ", "&t=42");
  }

  /** The short link with a trailing share parameter gives the identifier after `youtu.be/`. */
  lemma ShortLinkExample()
    ensures GetVideoId("https://" + ShortLinkMarker + "dQw4w9WgXcQ" + "?si=x") == "dQw4w9WgXcQ"
  {
    ShortLinkShape("https://", "dQw4w9WgXcQ", "?si=x");
  }

  /** An eleven-character bare identifier is returned unchanged. */
  lemma BareIdExample()
    ensures GetVideoId("dQw4w9WgXcQ") == "dQw4w9WgXcQ"
  {
    AbsentFirstChar("dQw4w9WgXcQ", QueryMarker);
    AbsentFirstChar("dQw4w9WgXcQ", ShortLinkMarker);
  }
}
