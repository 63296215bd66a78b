/**
 * The pure fragments of the upload and download handlers in app.py: YouTube-id
 * extraction from a video URL, the fallback id, tag splitting and cleanup,
 * privacy-status normalisation, snippet truncation and the download content type.
 */
module AppFragments {
  import opened Wrappers
  import opened Strings
  import opened SplitPieces

  // ---------------------------------------------------------------------------
  // YouTube ids

  /**
   * The id in a shorts, watch or youtu.be URL, tried in that order; None
   * when the URL has none of the three forms.
   */
  function ExtractYoutubeId(url: string): (r: Option<string>)
    ensures r.Some? <==>
      Contains(url, "youtube.com/shorts/") || Contains(url, "youtube.com/watch?v=") || Contains(url, "youtu.be/")
  {
    assert "youtube.com/" + "shorts/" == "youtube.com/shorts/";
    assert "youtube.com/" + "watch?v=" == "youtube.com/watch?v=";
    if In(url, "youtube.com/shorts/") then
      ContainsLonger(url, "youtube.com/", "shorts/");
      Some(TextAfter(url, "shorts/", "?"))
    else if In(url, "youtube.com/watch?v=") then
      ContainsLonger(url, "youtube.com/", "watch?v=");
      Some(TextAfter(url, "watch?v=", "&"))
    else if In(url, "youtu.be/") then
      Some(TextAfter(url, "youtu.be/", "?"))
    else
      None
  }

  /** A string containing `a + b` contains `b`. */
  lemma ContainsLonger(s: string, a: string, b: string)
    requires Contains(s, a + b)
    ensures Contains(s, b)
  {
    var j :| OccursAt(s, a + b, j);
    assert s[j + |a|..j + |a| + |b|] == (a + b)[|a|..];
    assert OccursAt(s, b, j + |a|);
  }

  /** A shorts URL's id is the text right after the first "shorts/", and it has no '?'. */
  lemma ShortsIdFollowsMarker(url: string)
    requires Contains(url, "youtube.com/shorts/")
    ensures ExtractYoutubeId(url).Some? && Contains(url, "shorts/")
    ensures OccursAt(url, ExtractYoutubeId(url).value, Find(url, "shorts/").value + 7)
    ensures '?' !in ExtractYoutubeId(url).value
  {
    assert "youtube.com/" + "shorts/" == "youtube.com/shorts/";
    ContainsLonger(url, "youtube.com/", "shorts/");
    var k, id := Find(url, "shorts/").value + 7, ExtractYoutubeId(url).value;
    TextAfterPosition(url, "shorts/", "?", k, id);
    ContainsChar(id, '?');
  }

  /** A shorts URL's id ends at the end of the URL, or the URL goes on with '?' or with the next "shorts/". */
  lemma {:induction false} ShortsIdStops(url: string, k: nat)
    requires Contains(url, "youtube.com/shorts/")
    requires Contains(url, "shorts/") && k == Find(url, "shorts/").value + 7
    ensures ExtractYoutubeId(url).Some? && k + |ExtractYoutubeId(url).value| <= |url|
    ensures || k + |ExtractYoutubeId(url).value| == |url|
            || StartsWith(url[k + |ExtractYoutubeId(url).value|..], "?")
            || StartsWith(url[k + |ExtractYoutubeId(url).value|..], "shorts/")
  {
    TextAfterEnds(url, "shorts/", "?", k, ExtractYoutubeId(url).value, k + |ExtractYoutubeId(url).value|);
  }

  /** A watch URL's id is the text right after the first "watch?v=", and it has no '&'. */
  lemma WatchIdFollowsMarker(url: string)
    requires !Contains(url, "youtube.com/shorts/") && Contains(url, "youtube.com/watch?v=")
    ensures ExtractYoutubeId(url).Some? && Contains(url, "watch?v=")
    ensures OccursAt(url, ExtractYoutubeId(url).value, Find(url, "watch?v=").value + 8)
    ensures '&' !in ExtractYoutubeId(url).value
  {
    assert "youtube.com/" + "watch?v=" == "youtube.com/watch?v=";
    ContainsLonger(url, "youtube.com/", "watch?v=");
    var k, id := Find(url, "watch?v=").value + 8, ExtractYoutubeId(url).value;
    TextAfterPosition(url, "watch?v=", "&", k, id);
    ContainsChar(id, '&');
  }

  /** A watch URL's id ends at the end of the URL, or the URL goes on with '&' or with the next "watch?v=". */
  lemma {:induction false} WatchIdStops(url: string, k: nat)
    requires !Contains(url, "youtube.com/shorts/") && Contains(url, "youtube.com/watch?v=")
    requires Contains(url, "watch?v=") && k == Find(url, "watch?v=").value + 8
    ensures ExtractYoutubeId(url).Some? && k + |ExtractYoutubeId(url).value| <= |url|
    ensures || k + |ExtractYoutubeId(url).value| == |url|
            || StartsWith(url[k + |ExtractYoutubeId(url).value|..], "&")
            || StartsWith(url[k + |ExtractYoutubeId(url).value|..], "watch?v=")
  {
    TextAfterEnds(url, "watch?v=", "&", k, ExtractYoutubeId(url).value, k + |ExtractYoutubeId(url).value|);
  }

  /** A youtu.be link's id is the text right after the first "youtu.be/", and it has no '?'. */
  lemma ShortLinkIdFollowsMarker(url: string)
    requires !Contains(url, "youtube.com/shorts/") && !Contains(url, "youtube.com/watch?v=")
    requires Contains(url, "youtu.be/")
    ensures ExtractYoutubeId(url).Some?
    ensures OccursAt(url, ExtractYoutubeId(url).value, Find(url, "youtu.be/").value + 9)
    ensures '?' !in ExtractYoutubeId(url).value
  {
    var k, id := Find(url, "youtu.be/").value + 9, ExtractYoutubeId(url).value;
    TextAfterPosition(url, "youtu.be/", "?", k, id);
    ContainsChar(id, '?');
  }

  /** A youtu.be link's id ends at the end of the URL, or the URL goes on with '?' or with the next "youtu.be/". */
  lemma {:induction false} ShortLinkIdStops(url: string, k: nat)
    requires !Contains(url, "youtube.com/shorts/") && !Contains(url, "youtube.com/watch?v=")
    requires Contains(url, "youtu.be/")
    requires k == Find(url, "youtu.be/").value + 9
    ensures ExtractYoutubeId(url).Some? && k + |ExtractYoutubeId(url).value| <= |url|
    ensures || k + |ExtractYoutubeId(url).value| == |url|
            || StartsWith(url[k + |ExtractYoutubeId(url).value|..], "?")
            || StartsWith(url[k + |ExtractYoutubeId(url).value|..], "youtu.be/")
  {
    TextAfterEnds(url, "youtu.be/", "?", k, ExtractYoutubeId(url).value, k + |ExtractYoutubeId(url).value|);
  }

  /** The fallback id: the text after the last "v=" when there is one, else after the last '/'. */
  function FallbackYoutubeId(url: string): (r: string)
    ensures EndsWith(url, r)
    ensures Contains(url, "v=") ==> !Contains(r, "v=") && EndsWith(url, "v=" + r)
    ensures !Contains(url, "v=") ==> '/' !in r && ('/' in url ==> EndsWith(url, "/" + r))
    ensures !Contains(url, "v=") && '/' !in url ==> r == url
  {
    if In(url, "v=") then
      var parts := Split(url, "v=");
      SplitRejoins(url, "v=");
      LastPieceIsSuffix(parts, "v=");
      Last(parts)
    else
      var parts := Split(url, "/");
      SplitRejoins(url, "/");
      LastPieceIsSuffix(parts, "/");
      ContainsChar(url, '/');
      ContainsChar(Last(parts), '/');
      Last(parts)
  }

  // ---------------------------------------------------------------------------
  // Tags

  /** `request_data.get('tags', '').split(',') if request_data.get('tags') else []`; an absent field is "". */
  function SplitTags(raw: string): (tags: seq<string>)
    ensures raw == [] <==> tags == []
    ensures tags != [] ==> Join(tags, ",") == raw
    ensures forall i :: 0 <= i < |tags| ==> ',' !in tags[i]
  {
    if raw == [] then []
    else
      var tags := Split(raw, ",");
      SplitRejoins(raw, ",");
      forall i | 0 <= i < |tags| ensures ',' !in tags[i] {
        ContainsChar(tags[i], ',');
      }
      tags
  }

  /** `f` applied to every string of `xs`, in place. */
  function Map(f: string -> string, xs: seq<string>): (r: seq<string>)
    ensures |r| == |xs|
  {
    if xs == [] then [] else [f(xs[0])] + Map(f, xs[1..])
  }

  lemma {:induction false} MapAt(f: string -> string, xs: seq<string>, i: nat)
    requires i < |xs|
    ensures Map(f, xs)[i] == f(xs[i])
  {
    if i > 0 {
      MapAt(f, xs[1..], i - 1);
    }
  }

  lemma {:induction false} MapAppend(f: string -> string, a: seq<string>, b: seq<string>)
    ensures Map(f, a + b) == Map(f, a) + Map(f, b)
  {
    if a != [] {
      assert (a + b)[0] == a[0];
      assert (a + b)[1..] == a[1..] + b;
      MapAppend(f, a[1..], b);
    } else {
      assert a + b == b;
    }
  }

  /** The non-empty strings of `xs`, in their original order. */
  function NonBlank(xs: seq<string>): (r: seq<string>)
    ensures |r| <= |xs|
    ensures forall i :: 0 <= i < |r| ==> r[i] != [] && r[i] in xs
    ensures forall x :: x != [] ==> multiset(r)[x] == multiset(xs)[x]
  {
    if xs == [] then []
    else
      assert xs == [xs[0]] + xs[1..];
      (if xs[0] != [] then [xs[0]] else []) + NonBlank(xs[1..])
  }

  /** `[tag.strip() for tag in tags if tag.strip()]`. */
  function NonBlankStripped(tags: seq<string>): (r: seq<string>)
    ensures |r| <= |tags|
    ensures forall i :: 0 <= i < |r| ==> r[i] != []
    ensures forall x :: x != [] ==> multiset(r)[x] == multiset(Map(Strip, tags))[x]
  {
    NonBlank(Map(Strip, tags))
  }

  /** Every tag that is not blank once stripped is kept, stripped. */
  lemma NonBlankStrippedKeeps(tags: seq<string>)
    ensures forall i :: 0 <= i < |tags| && Strip(tags[i]) != [] ==> Strip(tags[i]) in NonBlankStripped(tags)
  {
    var stripped := Map(Strip, tags);
    forall i | 0 <= i < |tags| && Strip(tags[i]) != [] ensures Strip(tags[i]) in NonBlank(stripped) {
      MapAt(Strip, tags, i);
      assert stripped[i] in multiset(stripped);
    }
  }

  /** Every kept tag is non-blank and already stripped. */
  lemma NonBlankStrippedClean(tags: seq<string>)
    ensures forall i :: 0 <= i < |NonBlankStripped(tags)| ==>
      NonBlankStripped(tags)[i] != [] && Strip(NonBlankStripped(tags)[i]) == NonBlankStripped(tags)[i]
  {
    var stripped := Map(Strip, tags);
    var r := NonBlank(stripped);
    forall i | 0 <= i < |r| ensures Strip(r[i]) == r[i] {
      var j :| 0 <= j < |stripped| && stripped[j] == r[i];
      MapAt(Strip, tags, j);
      StripIdempotent(tags[j]);
    }
  }

  lemma {:induction false} NonBlankOfBlanks(xs: seq<string>)
    requires forall i :: 0 <= i < |xs| ==> xs[i] == []
    ensures NonBlank(xs) == []
  {
    if xs != [] {
      NonBlankOfBlanks(xs[1..]);
    }
  }

  /** Dropping blanks keeps the order: it distributes over concatenation. */
  lemma {:induction false} NonBlankAppend(x: seq<string>, y: seq<string>)
    ensures NonBlank(x + y) == NonBlank(x) + NonBlank(y)
  {
    if x != [] {
      var head := if x[0] != [] then [x[0]] else [];
      assert (x + y)[0] == x[0];
      assert (x + y)[1..] == x[1..] + y;
      assert NonBlank(x + y) == head + NonBlank(x[1..] + y);
      assert NonBlank(x) == head + NonBlank(x[1..]);
      NonBlankAppend(x[1..], y);
    } else {
      assert x + y == y;
    }
  }

  /** Cleanup keeps the order: cleaning a concatenation concatenates the cleanings. */
  lemma NonBlankStrippedAppend(a: seq<string>, b: seq<string>)
    ensures NonBlankStripped(a + b) == NonBlankStripped(a) + NonBlankStripped(b)
  {
    MapAppend(Strip, a, b);
    NonBlankAppend(Map(Strip, a), Map(Strip, b));
  }

  const MaxTags := 30

  /** Tag validation before an upload: at most 30 stripped, non-blank tags; none given means the defaults. */
  function CleanTags(tags: seq<string>): (r: seq<string>)
    ensures |r| <= MaxTags
    ensures tags == [] ==> r == ["youtube", "upload"]
    ensures tags != [] ==> |r| <= |NonBlankStripped(tags)| && r == NonBlankStripped(tags)[..|r|]
    ensures tags != [] ==> forall i :: 0 <= i < |r| ==> r[i] != [] && Strip(r[i]) == r[i]
    ensures tags != [] ==> |r| == Min(|NonBlankStripped(tags)|, MaxTags)
  {
    if tags != [] then
      TakeClean(tags);
      Take(NonBlankStripped(tags), MaxTags)
    else ["youtube", "upload"]
  }

  /** The first `MaxTags` cleaned tags are cleaned tags too. */
  lemma TakeClean(tags: seq<string>)
    ensures forall i :: 0 <= i < |Take(NonBlankStripped(tags), MaxTags)| ==>
      Take(NonBlankStripped(tags), MaxTags)[i] != [] && Strip(Take(NonBlankStripped(tags), MaxTags)[i]) == Take(NonBlankStripped(tags), MaxTags)[i]
  {
    var kept := NonBlankStripped(tags);
    NonBlankStrippedClean(tags);
    var r := Take(kept, MaxTags);
    forall i | 0 <= i < |r| ensures r[i] != [] && Strip(r[i]) == r[i] {
      assert r[i] == kept[i];
    }
  }

  /** A non-empty list of blank tags is cleaned to no tags at all, not to the defaults. */
  lemma {:induction false} BlankTagsGiveNoTags(tags: seq<string>)
    requires tags != [] && forall i :: 0 <= i < |tags| ==> Strip(tags[i]) == []
    ensures CleanTags(tags) == []
  {
    BlankTagsVanish(tags);
  }

  lemma BlankTagsVanish(tags: seq<string>)
    requires forall i :: 0 <= i < |tags| ==> Strip(tags[i]) == []
    ensures NonBlankStripped(tags) == []
  {
    var stripped := Map(Strip, tags);
    forall i | 0 <= i < |stripped| ensures stripped[i] == [] {
      MapAt(Strip, tags, i);
    }
    NonBlankOfBlanks(stripped);
  }

  /** The tags sent with original metadata: the video's own tags, or three defaults. */
  function OriginalTags(tags: seq<string>): (r: seq<string>)
    ensures r != []
    ensures tags != [] ==> r == tags
    ensures tags == [] ==> r == ["youtube", "upload", "auto"]
  {
    if tags != [] then tags else ["youtube", "upload", "auto"]
  }

  // ---------------------------------------------------------------------------
  // Privacy status, snippet limits, content type

  const PrivacyStatuses: set<string> := {"public", "private", "unlisted"}

  /** Anything but the three known statuses becomes 'private'. */
  function NormalizePrivacy(status: string): (r: string)
    ensures r in PrivacyStatuses
    ensures status in PrivacyStatuses ==> r == status
    ensures status !in PrivacyStatuses ==> r == "private"
  {
    if status in PrivacyStatuses then status else "private"
  }

  lemma NormalizePrivacyIdempotent(status: string)
    ensures NormalizePrivacy(NormalizePrivacy(status)) == NormalizePrivacy(status)
  {
  }

  const MaxTitleLength := 100
  const MaxDescriptionLength := 5000

  /** `title[:100]`. */
  function SnippetTitle(title: string): (r: string)
    ensures |r| <= MaxTitleLength && StartsWith(title, r)
    ensures |title| <= MaxTitleLength ==> r == title
    ensures |title| > MaxTitleLength ==> |r| == MaxTitleLength
  {
    Take(title, MaxTitleLength)
  }

  /** `description[:5000]`. */
  function SnippetDescription(description: string): (r: string)
    ensures |r| <= MaxDescriptionLength && StartsWith(description, r)
    ensures |description| <= MaxDescriptionLength ==> r == description
    ensures |description| > MaxDescriptionLength ==> |r| == MaxDescriptionLength
  {
    Take(description, MaxDescriptionLength)
  }

  /** The Content-Type of a downloaded file, by its extension. */
  function ContentType(path: string): (r: string)
    ensures EndsWith(path, ".mp4") ==> r == "video/mp4"
    ensures EndsWith(path, ".mp3") ==> r == "audio/mpeg"
    ensures !EndsWith(path, ".mp4") && !EndsWith(path, ".mp3") ==> r == "application/octet-stream"
  {
    if EndsWith(path, ".mp4") then
      assert !EndsWith(path, ".mp3") by {
        assert path[|path| - 1] == '4';
      }
      "video/mp4"
    else if EndsWith(path, ".mp3") then "audio/mpeg"
    else "application/octet-stream"
  }

  lemma ContentTypeOfName(stem: string)
    ensures ContentType(stem + ".mp4") == "video/mp4"
    ensures ContentType(stem + ".mp3") == "audio/mpeg"
    ensures ContentType(stem + ".bin") == "application/octet-stream"
  {
    var a, b, c := stem + ".mp4", stem + ".mp3", stem + ".bin";
    assert a[|a| - 4..] == ".mp4";
    assert b[|b| - 4..] == ".mp3";
    assert c[|c| - 1] == 'n';
  }
}
