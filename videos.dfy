/**
 * The fetch and transform stages of the ETL job: the search response items
 * are filtered down to videos and turned into records, and each record's
 * description then has its `&amp;` escapes rewritten in place.
 */
module Videos {
  import opened Text

  /** Kind tag the search endpoint gives to video results. */
  const VideoKind: string := "youtube#video"

  /** URL template a video id is appended to. */
  const WatchPrefix: string := "https://www.youtube.com/watch?v="

  /** The escape the transform rewrites, and what it becomes. */
  const AmpEntity: string := "&amp;"
  const Amp: string := "&"

  /**
   * One element of the search response's `items`: its `id.kind`,
   * `id.videoId`, `snippet.title` and `snippet.description`.
   */
  datatype Item = Item(kind: string, videoId: string, title: string, description: string)

  /** The value of one video record (the dict built per kept item). */
  datatype VideoInfo = VideoInfo(title: string, description: string, videoUrl: string)

  predicate IsVideo(item: Item)
  {
    item.kind == VideoKind
  }

  /** The record built for a kept item. */
  function ToInfo(item: Item): VideoInfo
  {
    VideoInfo(item.title, item.description, WatchPrefix + item.videoId)
  }

  /** The record one item contributes: one for a video, none otherwise. */
  function Kept(item: Item): seq<VideoInfo>
  {
    if IsVideo(item) then [ToInfo(item)] else []
  }

  /** The records the fetch stage returns for a response's items. */
  function KeepVideos(items: seq<Item>): seq<VideoInfo>
  {
    if items == [] then [] else Kept(items[0]) + KeepVideos(items[1..])
  }

  /** Filtering commutes with concatenation: the relative order of the kept items is the input order. */
  lemma {:induction false} KeepVideosAppend(a: seq<Item>, b: seq<Item>)
    ensures KeepVideos(a + b) == KeepVideos(a) + KeepVideos(b)
  {
    if a == [] {
      assert a + b == b;
    } else {
      var ab := a + b;
      assert ab[0] == a[0] && ab[1..] == a[1..] + b;
      KeepVideosAppend(a[1..], b);
      assert KeepVideos(ab) == Kept(a[0]) + KeepVideos(a[1..] + b);
      assert KeepVideos(a) == Kept(a[0]) + KeepVideos(a[1..]);
    }
  }

  /** Number of video items in a response. */
  function CountVideos(items: seq<Item>): nat
  {
    if items == [] then 0
    else (if IsVideo(items[0]) then 1 else 0) + CountVideos(items[1..])
  }

  /**
   * One record per video item, never more records than items, and as many
   * records as items exactly when every item is a video.
   */
  lemma {:induction false} KeepVideosLength(items: seq<Item>)
    ensures |KeepVideos(items)| == CountVideos(items) <= |items|
    ensures |KeepVideos(items)| == |items| <==> forall i :: 0 <= i < |items| ==> IsVideo(items[i])
    ensures KeepVideos(items) == [] <==> forall i :: 0 <= i < |items| ==> !IsVideo(items[i])
  {
    if items != [] {
      KeepVideosLength(items[1..]);
      assert forall i :: 1 <= i < |items| ==> items[i] == items[1..][i - 1];
    }
  }

  /**
   * Every record comes from a video item, and every video item yields a
   * record: its title and description copied from the item, its URL the
   * watch prefix followed by the video id.
   */
  lemma {:induction false} KeepVideosMembers(items: seq<Item>)
    ensures forall v :: v in KeepVideos(items) <==>
              exists i :: 0 <= i < |items| && IsVideo(items[i]) &&
                v == VideoInfo(items[i].title, items[i].description, WatchPrefix + items[i].videoId)
  {
    if items != [] {
      KeepVideosMembers(items[1..]);
      assert forall i :: 1 <= i < |items| ==> items[i] == items[1..][i - 1];
      forall v | v in KeepVideos(items)
        ensures exists i :: 0 <= i < |items| && IsVideo(items[i]) && v == ToInfo(items[i])
      {
        if IsVideo(items[0]) && v == ToInfo(items[0]) {
        } else {
          assert v in KeepVideos(items[1..]);
          var j :| 0 <= j < |items[1..]| && IsVideo(items[1..][j]) && v == ToInfo(items[1..][j]);
          assert items[j + 1] == items[1..][j];
        }
      }
    }
  }

  /** The kinds of the skipped items, in response order: one log notice each. */
  function SkippedKinds(items: seq<Item>): seq<string>
  {
    if items == [] then [] else Skipped(items[0]) + SkippedKinds(items[1..])
  }

  function Skipped(item: Item): seq<string>
  {
    if IsVideo(item) then [] else [item.kind]
  }

  /** Every item is either kept or reported as skipped, never both. */
  lemma {:induction false} KeptPlusSkipped(items: seq<Item>)
    ensures |KeepVideos(items)| + |SkippedKinds(items)| == |items|
    ensures VideoKind !in SkippedKinds(items)
  {
    if items != [] {
      KeptPlusSkipped(items[1..]);
    }
  }

  lemma {:induction false} SkippedKindsAppend(a: seq<Item>, b: seq<Item>)
    ensures SkippedKinds(a + b) == SkippedKinds(a) + SkippedKinds(b)
  {
    if a == [] {
      assert a + b == b;
    } else {
      var ab := a + b;
      assert ab[0] == a[0] && ab[1..] == a[1..] + b;
      SkippedKindsAppend(a[1..], b);
      assert SkippedKinds(ab) == Skipped(a[0]) + SkippedKinds(a[1..] + b);
      assert SkippedKinds(a) == Skipped(a[0]) + SkippedKinds(a[1..]);
    }
  }

  /** What one more item of the response adds to the records and to the skipped kinds. */
  lemma FilterStep(items: seq<Item>, n: nat)
    requires n < |items|
    ensures KeepVideos(items[..n + 1]) == KeepVideos(items[..n]) + Kept(items[n])
    ensures SkippedKinds(items[..n + 1]) == SkippedKinds(items[..n]) + Skipped(items[n])
  {
    var one := [items[n]];
    assert items[..n + 1] == items[..n] + one;
    assert one[0] == items[n] && one[1..] == [];
    assert KeepVideos(one) == Kept(items[n]) + KeepVideos([]);
    assert SkippedKinds(one) == Skipped(items[n]) + SkippedKinds([]);
    KeepVideosAppend(items[..n], one);
    SkippedKindsAppend(items[..n], one);
  }

  /** Removing a non-video item from the response does not change the records. */
  lemma DropNonVideo(items: seq<Item>, i: nat)
    requires i < |items| && !IsVideo(items[i])
    ensures KeepVideos(items[..i] + items[i + 1..]) == KeepVideos(items)
  {
    var pre, rest, post := items[..i], items[i..], items[i + 1..];
    assert items == pre + rest;
    assert rest[0] == items[i] && rest[1..] == post;
    assert Kept(rest[0]) == [];
    assert KeepVideos(rest) == Kept(rest[0]) + KeepVideos(rest[1..]);
    assert KeepVideos(rest) == KeepVideos(post);
    KeepVideosAppend(pre, rest);
    KeepVideosAppend(pre, post);
  }

  /** `s.replace("&amp;", "&")`. */
  function Unescape(s: string): string
  {
    ReplaceAll(s, AmpEntity, Amp)
  }

  /** HTML escaping of the ampersand: every `&` becomes `&amp;`. */
  function Escape(s: string): string
  {
    if s == [] then []
    else (if s[0] == '&' then AmpEntity else [s[0]]) + Escape(s[1..])
  }

  /** Unescaping undoes escaping, for every text. */
  lemma {:induction false} UnescapeEscape(s: string)
    ensures Unescape(Escape(s)) == s
  {
    if s != [] {
      UnescapeEscape(s[1..]);
      var t := Escape(s[1..]);
      if s[0] == '&' {
        assert Escape(s) == AmpEntity + t;
        assert Escape(s)[..5] == AmpEntity && Escape(s)[5..] == t;
      } else {
        assert Escape(s) == [s[0]] + t;
        if |Escape(s)| >= 5 {
          assert Escape(s)[0] == s[0] != '&';
          assert Escape(s)[..5] != AmpEntity;
          assert Escape(s)[1..] == t;
        }
      }
    }
  }

  /**
   * A description loses exactly four characters per rewritten escape, so it
   * never grows, and it is left unchanged exactly when it holds no escape.
   */
  lemma UnescapeLength(s: string)
    ensures |Unescape(s)| == |s| - 4 * Count(s, AmpEntity)
    ensures |Unescape(s)| <= |s|
    ensures Unescape(s) == s <==> !Occurs(s, AmpEntity)
  {
    ReplaceAllLength(s, AmpEntity, Amp);
    ReplaceAllFixedIff(s, AmpEntity, Amp);
  }

  /** A single escape between two stretches of text without `&` becomes a plain `&`. */
  lemma UnescapeSingle(head: string, tail: string)
    requires forall k :: 0 <= k < |head| ==> head[k] != '&'
    requires forall k :: 0 <= k < |tail| ==> tail[k] != '&'
    ensures Unescape(head + AmpEntity + tail) == head + Amp + tail
  {
    NoMatchWithoutHead(head, AmpEntity + tail, AmpEntity);
    assert head + AmpEntity + tail == head + (AmpEntity + tail);
    ReplaceAllFirstMatch(head, tail, AmpEntity, Amp);
    NoMatchWithoutHead(tail, [], AmpEntity);
    ReplaceAllPlainPrefix(tail, [], AmpEntity, Amp);
    assert tail + [] == tail;
  }

  /** A typical description: `Rock &amp; Roll` becomes `Rock & Roll`. */
  lemma UnescapeRockAndRoll()
    ensures Unescape("Rock " + AmpEntity + " Roll") == "Rock " + Amp + " Roll"
  {
    UnescapeSingle("Rock ", " Roll");
  }

  /**
   * A stray `&` before the first escape does not hide it: in
   * `Q&A &amp;...` the escape is rewritten and the rest is scanned on.
   */
  lemma UnescapeAfterStrayAmp(tail: string)
    ensures Unescape("Q&A " + AmpEntity + tail) == "Q&A " + Amp + Unescape(tail)
  {
    var a := "Q&A ";
    var s := a + AmpEntity + tail;
    forall j | 0 <= j < |a|
      ensures !MatchAt(s, AmpEntity, j)
    {
      assert s[j..j + 5][0] == s[j] && s[j..j + 5][1] == s[j + 1];
    }
    ReplaceAllFirstMatch(a, tail, AmpEntity, Amp);
  }

  /** One pass is not idempotent: a doubly escaped ampersand keeps one escape. */
  lemma UnescapeNotIdempotent()
    ensures Unescape("&amp;amp;") == "&amp;"
    ensures Unescape(Unescape("&amp;amp;")) == "&"
  {
    assert "&amp;amp;" == AmpEntity + "amp;";
    ReplaceAllLeadingMatch("amp;", AmpEntity, Amp);
    assert Amp + "amp;" == AmpEntity;
    assert AmpEntity == AmpEntity + [];
    ReplaceAllLeadingMatch([], AmpEntity, Amp);
  }

  /** The record after the transform: only the description is rewritten. */
  function TransformRecord(v: VideoInfo): VideoInfo
  {
    v.(description := Unescape(v.description))
  }

  /** The value of the list `transform_data` returns. */
  function TransformAll(vs: seq<VideoInfo>): (r: seq<VideoInfo>)
    ensures |r| == |vs|
    ensures forall i :: 0 <= i < |vs| ==>
              r[i].title == vs[i].title && r[i].videoUrl == vs[i].videoUrl &&
              r[i].description == Unescape(vs[i].description)
  {
    if vs == [] then [] else [TransformRecord(vs[0])] + TransformAll(vs[1..])
  }

  /** A video record as the dict the source mutates. */
  class VideoRecord {
    var title: string
    var description: string
    var videoUrl: string

    constructor (title: string, description: string, videoUrl: string)
      ensures this.title == title && this.description == description && this.videoUrl == videoUrl
    {
      this.title := title;
      this.description := description;
      this.videoUrl := videoUrl;
    }

    function Value(): VideoInfo
      reads this
    {
      VideoInfo(title, description, videoUrl)
    }
  }

  /** The values held by a list of records, in list order. */
  function Values(rs: seq<VideoRecord>): (vs: seq<VideoInfo>)
    reads rs
    ensures |vs| == |rs|
    ensures forall i :: 0 <= i < |rs| ==> vs[i] == rs[i].Value()
  {
    if rs == [] then [] else [rs[0].Value()] + Values(rs[1..])
  }

  /** No record appears twice in the list. */
  predicate Distinct(rs: seq<VideoRecord>)
  {
    forall i, j :: 0 <= i < j < |rs| ==> rs[i] != rs[j]
  }

  lemma DistinctAppend(rs: seq<VideoRecord>, r: VideoRecord)
    requires Distinct(rs) && r !in rs
    ensures Distinct(rs + [r])
  {
  }

  lemma ValuesPointwise(rs: seq<VideoRecord>, vs: seq<VideoInfo>)
    requires |rs| == |vs| && forall i :: 0 <= i < |rs| ==> rs[i].Value() == vs[i]
    ensures Values(rs) == vs
  {
  }

  /**
   * The loop of `get_videos_from_channel` over the response items: one new
   * record per video item, appended in order; the kind of every other item
   * is reported in `skipped` (the source logs it).
   */
  method GetVideos(items: seq<Item>) returns (videos: seq<VideoRecord>, skipped: seq<string>)
    ensures Distinct(videos)
    ensures forall i :: 0 <= i < |videos| ==> fresh(videos[i])
    ensures Values(videos) == KeepVideos(items)
    ensures skipped == SkippedKinds(items)
  {
    videos, skipped := [], [];
    ghost var kept: seq<VideoInfo> := [];
    for n := 0 to |items|
      invariant kept == KeepVideos(items[..n]) && skipped == SkippedKinds(items[..n])
      invariant |videos| == |kept|
      invariant forall i :: 0 <= i < |videos| ==> fresh(videos[i]) && videos[i].Value() == kept[i]
      invariant Distinct(videos)
    {
      var item := items[n];
      FilterStep(items, n);
      kept := kept + Kept(item);
      if IsVideo(item) {
        var record := new VideoRecord(item.title, item.description, WatchPrefix + item.videoId);
        DistinctAppend(videos, record);
        videos := videos + [record];
      } else {
        skipped := skipped + [item.kind];
      }
    }
    assert items[..|items|] == items;
    ValuesPointwise(videos, kept);
  }

  /**
   * `transform_data`: rewrites each record's description in place and
   * returns the same list.
   */
  method TransformData(videos: seq<VideoRecord>) returns (result: seq<VideoRecord>)
    requires Distinct(videos)
    modifies videos
    ensures result == videos
    ensures Values(videos) == TransformAll(old(Values(videos)))
    ensures forall i :: 0 <= i < |videos| ==>
              videos[i].title == old(videos[i].title) && videos[i].videoUrl == old(videos[i].videoUrl) &&
              videos[i].description == Unescape(old(videos[i].description))
  {
    ghost var before := Values(videos);
    ghost var after := TransformAll(before);
    for n := 0 to |videos|
      invariant forall i :: 0 <= i < n ==> videos[i].Value() == after[i]
      invariant forall i :: n <= i < |videos| ==> videos[i].Value() == before[i]
    {
      videos[n].description := Unescape(videos[n].description);
    }
    ValuesPointwise(videos, after);
    result := videos;
  }
}
