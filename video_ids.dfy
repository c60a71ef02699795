/**
 * The YouTube video-id extraction and check that `summarize_youtube` in
 * api/index.py does inline: the URL is stripped, the first of four markers
 * it contains picks the branch, the branch takes what follows the marker
 * (`url.split(marker)[1]`) and cuts it at the first `&` or `?`
 * (`.split(c)[0]`); the result is accepted when it has 11 characters and is
 * alphanumeric apart from `-` and `_`.
 */
module VideoIds {
  import opened PyStr

  const IdLength: nat := 11

  const WatchMarker: string := "v="
  const ShortLinkMarker: string := "youtu.be/"
  const EmbedMarker: string := "embed/"
  const ShortsMarker: string := "youtube.com/shorts/"
  /** The shorts branch tests for `ShortsMarker` but splits on this shorter text. */
  const ShortsSplit: string := "shorts/"

  /** `s.split(sep)[1].split(cut)[0]`. */
  function Between(s: string, sep: string, cut: string): string
    requires sep != [] && cut != [] && Contains(s, sep)
  {
    Split(Split(s, sep)[1], cut)[0]
  }

  /** `"youtube.com/shorts/" in u` makes `u.split("shorts/")[1]` exist. */
  lemma {:induction false} ShortsSplitContained(u: string)
    requires Contains(u, ShortsMarker)
    ensures Contains(u, ShortsSplit)
  {
    var k := FindFrom(u, ShortsMarker, 0).value;
    assert ShortsMarker[12..19] == ShortsSplit;
    OccursInside(u, ShortsMarker, k, ShortsSplit, 12);
    OccurrenceIsContained(u, ShortsSplit, k + 12);
  }

  /** The id candidate `summarize_youtube` computes from the request's URL. */
  function ExtractVideoId(url: string): string {
    var u := Strip(url);
    if Contains(u, WatchMarker) then Between(u, WatchMarker, "&")
    else if Contains(u, ShortLinkMarker) then Between(u, ShortLinkMarker, "?")
    else if Contains(u, EmbedMarker) then Between(u, EmbedMarker, "?")
    else if Contains(u, ShortsMarker) then
      ShortsSplitContained(u);
      Between(u, ShortsSplit, "?")
    else ""
  }

  /** Python `s.isalnum()`: non-empty, and every character a letter or a digit. */
  predicate IsAlnumString(s: string) {
    s != [] && forall i :: 0 <= i < |s| ==> IsAlnum(s[i])
  }

  /** `len(video_id) == 11 and video_id.replace('-', '').replace('_', '').isalnum()`. */
  predicate ValidVideoId(id: string) {
    |id| == IdLength && IsAlnumString(Remove(Remove(id, '-'), '_'))
  }

  // ---------------------------------------------------------------- what the extraction means

  /**
   * `field` is what follows the first `sep` in `s`, up to but not including
   * the first `cut` character or the next occurrence of `sep`, whichever
   * comes first, or the end of `s`.
   */
  predicate IsFieldAfter(s: string, sep: string, cut: char, field: string)
    requires Contains(s, sep)
  {
    var rest := s[FindFrom(s, sep, 0).value + |sep|..];
    && |field| <= |rest|
    && field == rest[..|field|]
    && (forall p :: 0 <= p < |field| ==> rest[p] != cut && !OccursAt(rest, sep, p))
    && (|field| == |rest| || rest[|field|] == cut || OccursAt(rest, sep, |field|))
  }

  /** There is only one such field. */
  lemma {:induction false} FieldUnique(s: string, sep: string, cut: char, f1: string, f2: string)
    requires Contains(s, sep)
    requires IsFieldAfter(s, sep, cut, f1) && IsFieldAfter(s, sep, cut, f2)
    ensures f1 == f2
  {
    if |f1| < |f2| {
      assert false;
    } else if |f2| < |f1| {
      assert false;
    }
  }

  /** The first piece of a split on one character: everything before its first occurrence. */
  lemma {:induction false} CutAtFirst(s: string, cut: char)
    ensures |Split(s, [cut])[0]| <= |s| && Split(s, [cut])[0] == s[..|Split(s, [cut])[0]|]
    ensures forall p :: 0 <= p < |Split(s, [cut])[0]| ==> s[p] != cut
    ensures |Split(s, [cut])[0]| == |s| || s[|Split(s, [cut])[0]|] == cut
  {
    SplitFirst(s, [cut]);
    var r := FindFrom(s, [cut], 0);
    forall p | 0 <= p < |Split(s, [cut])[0]|
      ensures s[p] != cut
    {
      assert !OccursAt(s, [cut], p);
      assert s[p..p + 1] == [s[p]];
    }
    if r.Some? {
      assert s[r.value..r.value + 1] == [cut];
    }
  }

  /** `s.split(sep)[1].split(cut)[0]` is the field after the first `sep`. */
  lemma {:induction false} BetweenIsField(s: string, sep: string, cut: char)
    requires sep != [] && Contains(s, sep)
    ensures IsFieldAfter(s, sep, cut, Between(s, sep, [cut]))
  {
    var rest := s[FindFrom(s, sep, 0).value + |sep|..];
    SplitSecond(s, sep);
    PieceBeforeSep(rest, sep);
    var piece := Split(rest, sep)[0];
    CutAtFirst(piece, cut);
    FieldInPiece(rest, sep, cut, piece, Split(piece, [cut])[0]);
  }

  /** The first piece of a split on `sep`: everything before the first occurrence of `sep`. */
  lemma {:induction false} PieceBeforeSep(rest: string, sep: string)
    requires sep != []
    ensures var piece := Split(rest, sep)[0];
      && |piece| <= |rest| && piece == rest[..|piece|]
      && (forall p :: 0 <= p < |piece| ==> !OccursAt(rest, sep, p))
      && (|piece| == |rest| || OccursAt(rest, sep, |piece|))
  {
    SplitFirst(rest, sep);
  }

  /**
   * A field cut at `cut` from a piece that runs up to the first `sep` of
   * `rest` satisfies the conditions `IsFieldAfter` places on `rest`.
   */
  lemma {:induction false} FieldInPiece(rest: string, sep: string, cut: char, piece: string, field: string)
    requires |piece| <= |rest| && piece == rest[..|piece|]
    requires forall p :: 0 <= p < |piece| ==> !OccursAt(rest, sep, p)
    requires |piece| == |rest| || OccursAt(rest, sep, |piece|)
    requires |field| <= |piece| && field == piece[..|field|]
    requires forall p :: 0 <= p < |field| ==> piece[p] != cut
    requires |field| == |piece| || piece[|field|] == cut
    ensures |field| <= |rest| && field == rest[..|field|]
    ensures forall p :: 0 <= p < |field| ==> rest[p] != cut && !OccursAt(rest, sep, p)
    ensures |field| == |rest| || rest[|field|] == cut || OccursAt(rest, sep, |field|)
  {
    forall p | 0 <= p < |field|
      ensures rest[p] != cut && !OccursAt(rest, sep, p)
    {
      assert piece[p] == rest[p];
    }
    if |field| < |piece| {
      assert rest[|field|] == piece[|field|];
    }
  }

  /**
   * The extraction tries the markers in the order `v=`, `youtu.be/`,
   * `embed/`, `youtube.com/shorts/` on the stripped URL, and only the first
   * one present is used: the `v=` branch gives the field after `v=` cut at
   * `&`, the other three the field after their split text cut at `?` (the
   * shorts branch splits on `shorts/`); with no marker the id is empty.
   */
  lemma {:induction false} ExtractVideoIdBranches(url: string)
    ensures var u, id := Strip(url), ExtractVideoId(url);
      && (Contains(u, WatchMarker) ==> IsFieldAfter(u, WatchMarker, '&', id))
      && (!Contains(u, WatchMarker) && Contains(u, ShortLinkMarker) ==>
            IsFieldAfter(u, ShortLinkMarker, '?', id))
      && (!Contains(u, WatchMarker) && !Contains(u, ShortLinkMarker) && Contains(u, EmbedMarker) ==>
            IsFieldAfter(u, EmbedMarker, '?', id))
      && ((!Contains(u, WatchMarker) && !Contains(u, ShortLinkMarker) && !Contains(u, EmbedMarker)
            && Contains(u, ShortsMarker)) ==>
            Contains(u, ShortsSplit) && IsFieldAfter(u, ShortsSplit, '?', id))
      && ((!Contains(u, WatchMarker) && !Contains(u, ShortLinkMarker) && !Contains(u, EmbedMarker)
            && !Contains(u, ShortsMarker)) ==> id == [])
  {
    var u := Strip(url);
    if Contains(u, WatchMarker) {
      BetweenIsField(u, WatchMarker, '&');
    } else if Contains(u, ShortLinkMarker) {
      BetweenIsField(u, ShortLinkMarker, '?');
    } else if Contains(u, EmbedMarker) {
      BetweenIsField(u, EmbedMarker, '?');
    } else if Contains(u, ShortsMarker) {
      ShortsSplitContained(u);
      BetweenIsField(u, ShortsSplit, '?');
    }
  }

  /** The `v=` branch cuts only at `&`, so its id never holds one; the other branches cut only at `?`. */
  lemma {:induction false} ExtractVideoIdCuts(url: string)
    ensures Contains(Strip(url), WatchMarker) ==> '&' !in ExtractVideoId(url)
    ensures !Contains(Strip(url), WatchMarker) ==> '?' !in ExtractVideoId(url)
  {
    ExtractVideoIdBranches(url);
    var u, id := Strip(url), ExtractVideoId(url);
    if Contains(u, WatchMarker) {
      FieldAvoidsCut(u, WatchMarker, '&', id);
    } else if Contains(u, ShortLinkMarker) {
      FieldAvoidsCut(u, ShortLinkMarker, '?', id);
    } else if Contains(u, EmbedMarker) {
      FieldAvoidsCut(u, EmbedMarker, '?', id);
    } else if Contains(u, ShortsMarker) {
      FieldAvoidsCut(u, ShortsSplit, '?', id);
    }
  }

  /** A field never holds the character it is cut at. */
  lemma {:induction false} FieldAvoidsCut(s: string, sep: string, cut: char, field: string)
    requires Contains(s, sep) && IsFieldAfter(s, sep, cut, field)
    ensures cut !in field
  {
    var rest := s[FindFrom(s, sep, 0).value + |sep|..];
    forall p | 0 <= p < |field|
      ensures field[p] != cut
    {
      assert field[p] == rest[p];
    }
  }

  // ---------------------------------------------------------------- what validation means

  /**
   * An id is accepted exactly when it has 11 characters, each a letter, a
   * digit, `-` or `_`, and at least one of them a letter or a digit.
   */
  lemma {:induction false} ValidVideoIdIff(id: string)
    ensures ValidVideoId(id) <==>
      && |id| == IdLength
      && (forall i :: 0 <= i < |id| ==> IsAlnum(id[i]) || id[i] == '-' || id[i] == '_')
      && (exists i :: 0 <= i < |id| && IsAlnum(id[i]))
  {
    var r1 := Remove(id, '-');
    var r := Remove(r1, '_');
    if ValidVideoId(id) {
      forall i | 0 <= i < |id|
        ensures IsAlnum(id[i]) || id[i] == '-' || id[i] == '_'
      {
        if id[i] != '-' && id[i] != '_' {
          assert id[i] in r1;
          var j :| 0 <= j < |r1| && r1[j] == id[i];
          assert r1[j] in r;
        }
      }
      assert r[0] in r1;
      var j :| 0 <= j < |r1| && r1[j] == r[0];
      assert r1[j] in id;
    }
    if && |id| == IdLength
       && (forall i :: 0 <= i < |id| ==> IsAlnum(id[i]) || id[i] == '-' || id[i] == '_')
       && (exists i :: 0 <= i < |id| && IsAlnum(id[i]))
    {
      var i :| 0 <= i < |id| && IsAlnum(id[i]);
      assert id[i] in r1;
      var j :| 0 <= j < |r1| && r1[j] == id[i];
      assert r1[j] in r;
      forall k | 0 <= k < |r|
        ensures IsAlnum(r[k])
      {
        assert r[k] in r1;
        var m :| 0 <= m < |r1| && r1[m] == r[k];
        assert r1[m] in id;
      }
    }
  }

  /** The empty id, and an id made of 11 `-`/`_` only, are rejected. */
  lemma {:induction false} PunctuationOnlyRejected(id: string)
    requires forall i :: 0 <= i < |id| ==> id[i] == '-' || id[i] == '_'
    ensures !ValidVideoId(id)
  {
    ValidVideoIdIff(id);
  }

  // ---------------------------------------------------------------- examples
  //
  // The example URLs below are passed in as parameters, in pieces held equal
  // to literals by `requires`, rather than written as one literal: on a whole
  // literal the verifier unfolds `Strip`, `FindFrom` and `Split` character by
  // character and runs out of resources.  The pieces are the site, the marker
  // and the id, so each lemma reasons about where the marker sits.

  /**
   * The field after `sep` when `sep` starts right after `a` and its first
   * character does not come back before the cut: it is everything up to
   * the cut character or the end.
   */
  lemma {:induction false} BetweenPlain(u: string, a: string, sep: string, field: string, cut: char, tail: string)
    requires sep != [] && u == a + sep + field + tail
    requires sep[0] !in a && sep[0] !in field + tail
    requires cut !in field && (tail == [] || tail[0] == cut)
    ensures Contains(u, sep) && Between(u, sep, [cut]) == field
  {
    assert u == a + sep + (field + tail);
    NoStartIn(a, sep, field + tail);
    BetweenScan(u, a, sep, field, cut, tail);
  }

  /** As `BetweenPlain`, for an `a` in which `sep`'s first character may occur but `sep` does not start. */
  lemma {:induction false} BetweenScan(u: string, a: string, sep: string, field: string, cut: char, tail: string)
    requires sep != [] && u == a + sep + field + tail
    requires forall j: nat :: j < |a| ==> !OccursAt(u, sep, j)
    requires sep[0] !in field + tail
    requires cut !in field && (tail == [] || tail[0] == cut)
    ensures Contains(u, sep) && Between(u, sep, [cut]) == field
  {
    assert u == a + sep + (field + tail);
    SecondPieceIsRest(a, sep, field + tail);
    FirstPieceIsField(field, cut, tail);
  }

  /** A stripped URL whose only `v` starts the one `v=` marker gives the text after it, up to `&`. */
  lemma {:induction false} WatchBranch(url: string, a: string, id: string, tail: string)
    requires Strip(url) == url && url == a + WatchMarker + id + tail
    requires 'v' !in a && 'v' !in id + tail
    requires '&' !in id && (tail == [] || tail[0] == '&')
    ensures ExtractVideoId(url) == id
  {
    BetweenPlain(url, a, WatchMarker, id, '&', tail);
  }

  /** A stripped URL without `v=` whose only `y` starts the `youtu.be/` marker gives the text after it, up to `?`. */
  lemma {:induction false} ShortLinkBranch(url: string, a: string, id: string, tail: string)
    requires Strip(url) == url && url == a + ShortLinkMarker + id + tail
    requires !Contains(url, WatchMarker)
    requires 'y' !in a && 'y' !in id + tail
    requires '?' !in id && (tail == [] || tail[0] == '?')
    ensures ExtractVideoId(url) == id
  {
    BetweenPlain(url, a, ShortLinkMarker, id, '?', tail);
  }

  /** A watch URL: `https://www.youtube.com/watch?v=dQw4w9WgXcQ` gives `dQw4w9WgXcQ`. */
  lemma {:induction false} WatchUrlExample(site: string, id: string)
    requires site == "https://www.youtube.com/watch?" && id == "dQw4w9WgXcQ"
    ensures ExtractVideoId(site + WatchMarker + id) == id
  {
    WatchUrlFacts(site, id);
    WatchBranch(site + WatchMarker + id + [], site, id, []);
    assert site + WatchMarker + id + [] == site + WatchMarker + id;
  }

  /** The watch example URL meets every condition of `WatchBranch`. */
  lemma {:induction false} WatchUrlFacts(site: string, id: string)
    requires site == "https://www.youtube.com/watch?" && id == "dQw4w9WgXcQ"
    ensures var url := site + WatchMarker + id + [];
      && Strip(url) == url
      && 'v' !in site && 'v' !in id + [] && '&' !in id
  {
    StripWatchUrl(site, id);
  }

  lemma {:induction false} StripWatchUrl(site: string, id: string)
    requires site == "https://www.youtube.com/watch?" && id == "dQw4w9WgXcQ"
    ensures Strip(site + WatchMarker + id + []) == site + WatchMarker + id + []
  {
    var url := site + WatchMarker + id + [];
    assert url[0] == site[0] && url[|url| - 1] == id[|id| - 1];
    StripUnchanged(url);
  }

  /** A short link: `https://youtu.be/dQw4w9WgXcQ?t=5` gives `dQw4w9WgXcQ`, the `?t=5` cut off. */
  lemma {:induction false} ShortLinkExample(site: string, id: string, query: string)
    requires site == "https://" && id == "dQw4w9WgXcQ" && query == "?t=5"
    ensures ExtractVideoId(site + ShortLinkMarker + id + query) == id
  {
    ShortLinkUrlFacts(site, id, query);
    ShortLinkBranch(site + ShortLinkMarker + id + query, site, id, query);
  }

  /** The short-link example URL meets every condition of `ShortLinkBranch`. */
  lemma {:induction false} ShortLinkUrlFacts(site: string, id: string, query: string)
    requires site == "https://" && id == "dQw4w9WgXcQ" && query == "?t=5"
    ensures var url := site + ShortLinkMarker + id + query;
      && Strip(url) == url && !Contains(url, WatchMarker)
      && 'y' !in site && 'y' !in id + query && '?' !in id && query[0] == '?'
  {
    StripShortLink(site, id, query);
    NoWatchInShortLink(site, id, query);
  }

  lemma {:induction false} StripShortLink(site: string, id: string, query: string)
    requires site == "https://" && id == "dQw4w9WgXcQ" && query == "?t=5"
    ensures Strip(site + ShortLinkMarker + id + query) == site + ShortLinkMarker + id + query
  {
    var url := site + ShortLinkMarker + id + query;
    assert url[0] == site[0] && url[|url| - 1] == query[|query| - 1];
    StripUnchanged(url);
  }

  lemma {:induction false} NoWatchInShortLink(site: string, id: string, query: string)
    requires site == "https://" && id == "dQw4w9WgXcQ" && query == "?t=5"
    ensures !Contains(site + ShortLinkMarker + id + query, WatchMarker)
  {
    var url := site + ShortLinkMarker + id + query;
    assert WatchMarker[0] !in url;
    MissingCharNotContained(url, WatchMarker, 0);
  }

  /**
   * A stripped URL with none of the first three markers, whose `shorts/`
   * first starts right after `a`, gives what follows it when that holds no
   * `s` and no `?`.
   */
  lemma {:induction false} ShortsBranch(url: string, a: string, id: string)
    requires Strip(url) == url && url == a + ShortsSplit + id
    requires !Contains(url, WatchMarker) && !Contains(url, ShortLinkMarker) && !Contains(url, EmbedMarker)
    requires Contains(url, ShortsMarker)
    requires forall j: nat :: j < |a| ==> !OccursAt(url, ShortsSplit, j)
    requires 's' !in id && '?' !in id
    ensures ExtractVideoId(url) == id
  {
    assert url == a + ShortsSplit + id + [];
    BetweenScan(url, a, ShortsSplit, id, '?', []);
  }

  /**
   * A shorts URL: `https://youtube.com/shorts/abcDEF12345` gives
   * `abcDEF12345`.  Here `youtu` and an `s` occur before the marker, so the
   * first occurrences are located by hand.
   */
  lemma {:induction false} ShortsExample(site: string, id: string)
    requires site == "https://youtube.com/" && id == "abcDEF12345"
    ensures ExtractVideoId(site + ShortsSplit + id) == id
  {
    ShortsUrlFacts(site, id);
    ShortsBranch(site + ShortsSplit + id, site, id);
  }

  /** The shorts example URL meets every condition of `ShortsBranch`. */
  lemma {:induction false} ShortsUrlFacts(site: string, id: string)
    requires site == "https://youtube.com/" && id == "abcDEF12345"
    ensures var url := site + ShortsSplit + id;
      && Strip(url) == url
      && !Contains(url, WatchMarker) && !Contains(url, ShortLinkMarker) && !Contains(url, EmbedMarker)
      && Contains(url, ShortsMarker)
      && (forall j: nat :: j < |site| ==> !OccursAt(url, ShortsSplit, j))
      && 's' !in id && '?' !in id
  {
    StripShortsUrl(site, id);
    ShortsUrlMarkers(site, id);
    ShortsSplitFoundAfterSite(site, id);
  }

  lemma {:induction false} StripShortsUrl(site: string, id: string)
    requires site == "https://youtube.com/" && id == "abcDEF12345"
    ensures Strip(site + ShortsSplit + id) == site + ShortsSplit + id
  {
    StripUnchanged(site + ShortsSplit + id);
  }

  /** Of the four markers only the last is in the shorts URL. */
  lemma {:induction false} ShortsUrlMarkers(site: string, id: string)
    requires site == "https://youtube.com/" && id == "abcDEF12345"
    ensures var url := site + ShortsSplit + id;
      && !Contains(url, WatchMarker) && !Contains(url, ShortLinkMarker)
      && !Contains(url, EmbedMarker) && Contains(url, ShortsMarker)
  {
    var url := site + ShortsSplit + id;
    MissingCharNotContained(url, WatchMarker, 0);
    MissingCharNotContained(url, EmbedMarker, 4);
    NoShortLinkInShortsUrl(site, id);
    ShortsMarkerInShortsUrl(site, id);
  }

  lemma {:induction false} ShortsMarkerInShortsUrl(site: string, id: string)
    requires site == "https://youtube.com/" && id == "abcDEF12345"
    ensures Contains(site + ShortsSplit + id, ShortsMarker)
  {
    var url := site + ShortsSplit + id;
    assert url == "https://" + ShortsMarker + id;
    assert url[8..27] == ShortsMarker;
    OccurrenceIsContained(url, ShortsMarker, 8);
  }

  lemma {:induction false} NoShortLinkInShortsUrl(site: string, id: string)
    requires site == "https://youtube.com/" && id == "abcDEF12345"
    ensures !Contains(site + ShortsSplit + id, ShortLinkMarker)
  {
    var x, z := "https://", "outube.com/";
    var url := site + ShortsSplit + id;
    var y := z + (ShortsSplit + id);
    assert site == x + ['y'] + z;
    AppendAssoc(site, ShortsSplit, id);
    AppendAssoc(x + ['y'], z, ShortsSplit + id);
    OnlyAt(x, 'y', y);
    assert url[13] == y[4] == z[4] == 'b';
    NoStartBefore(url, ShortLinkMarker, |url| + 1, 8, 5);
    NotContained(url, ShortLinkMarker);
  }

  lemma {:induction false} ShortsSplitFoundAfterSite(site: string, id: string)
    requires site == "https://youtube.com/" && id == "abcDEF12345"
    ensures forall j: nat :: j < |site| ==> !OccursAt(site + ShortsSplit + id, ShortsSplit, j)
  {
    var x, y := "http", "://youtube.com/";
    var url := site + ShortsSplit + id;
    assert site == x + ['s'] + y;
    OnlyAt(x, 's', y);
    assert forall j :: 0 <= j < |site| ==> url[j] == site[j];
    assert url[5] == site[5] == ':';
    NoStartBefore(url, ShortsSplit, |site|, 4, 1);
  }

  /** The id of the shorts example, `abcDEF12345`, is accepted. */
  // The id is a parameter equal to the literal, for the reason given above the examples.
  lemma {:induction false} ShortsIdValid(id: string)
    requires id == "abcDEF12345"
    ensures ValidVideoId(id)
  {
    assert forall i :: 0 <= i < |id| ==> IsAlnum(id[i]);
    ValidVideoIdIff(id);
    assert IsAlnum(id[0]);
  }

  /** Text with no marker at all, such as `not a url`, gives the empty id, which is rejected. */
  // The URL is a parameter equal to the literal, for the reason given above the examples.
  lemma {:induction false} NotAUrlExample(url: string)
    requires url == "not a url"
    ensures ExtractVideoId(url) == ""
    ensures !ValidVideoId(ExtractVideoId(url))
  {
    StripUnchanged(url);
    MissingCharNotContained(url, WatchMarker, 0);
    MissingCharNotContained(url, ShortLinkMarker, 0);
    MissingCharNotContained(url, EmbedMarker, 0);
    MissingCharNotContained(url, ShortsMarker, 0);
  }

  /** The id of the watch and short-link examples, `dQw4w9WgXcQ`, is accepted. */
  // The id is a parameter equal to the literal, for the reason given above the examples.
  lemma {:induction false} DemoIdValid(id: string)
    requires id == "dQw4w9WgXcQ"
    ensures ValidVideoId(id)
  {
    assert forall i :: 0 <= i < |id| ==> IsAlnum(id[i]);
    ValidVideoIdIff(id);
    assert IsAlnum(id[0]);
  }
}
