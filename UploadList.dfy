/**
 * The loop of `channel_videos` that turns the items of one page of a channel's upload
 * playlist into the video summaries of the response (main.py:255-270).
 *
 * An upstream item is a JSON object; here it is a record whose fields are the keys the
 * loop reads, each absent (None) or present.  A `thumbnails` entry is an object that may
 * hold a `url` and possibly other keys; only whether it has any key at all matters
 * besides its `url`, because the loop tests the entry for truthiness, and an empty
 * object is false.
 */
module UploadList {
  import opened Wrappers

  /** One entry of `thumbnails`: its `url`, if it has one, and how many other keys it has. */
  datatype ThumbEntry = ThumbEntry(url: Option<string>, otherKeys: nat)

  /** The `thumbnails` object, with the two sizes the loop looks at. */
  datatype Thumbnails = Thumbnails(medium: Option<ThumbEntry>, default: Option<ThumbEntry>)

  datatype Snippet = Snippet(
    title: Option<string>,
    thumbnails: Option<Thumbnails>,
    publishedAt: Option<string>,
    channelTitle: Option<string>
  )

  datatype ContentDetails = ContentDetails(videoId: Option<string>)

  /** One element of the playlist's `items`. */
  datatype Item = Item(snippet: Option<Snippet>, contentDetails: Option<ContentDetails>)

  /** The response body of the playlist request, as far as the loop reads it. */
  datatype Page = Page(items: Option<seq<Item>>, nextPageToken: Option<string>)

  /** One element of the `videos` list sent back to the client. */
  datatype VideoSummary = VideoSummary(
    videoId: Option<string>,
    title: Option<string>,
    thumbnail: Option<string>,
    publishedAt: Option<string>,
    channelTitle: Option<string>
  )

  /** Python truthiness of a `thumbnails` entry: absent or an empty object is false. */
  predicate Truthy(entry: Option<ThumbEntry>) {
    entry.Some? && (entry.value.url.Some? || entry.value.otherKeys > 0)
  }

  /**
   * `(thumbs.get("medium") or thumbs.get("default") or {}).get("url")`, with a missing
   * `thumbnails` read as `{}`.  The medium entry is used whenever it is non-empty, even
   * without a `url`; otherwise the default entry when it is non-empty; otherwise none.
   */
  function PickThumbnail(thumbs: Option<Thumbnails>): (r: Option<string>)
    ensures thumbs.Some? && Truthy(thumbs.value.medium) ==> r == thumbs.value.medium.value.url
    ensures thumbs.Some? && !Truthy(thumbs.value.medium) && Truthy(thumbs.value.default) ==>
              r == thumbs.value.default.value.url
    ensures thumbs.None? || (!Truthy(thumbs.value.medium) && !Truthy(thumbs.value.default)) ==>
              r.None?
  {
    var t := thumbs.GetOr(Thumbnails(None, None));
    var chosen := if Truthy(t.medium) then t.medium.value
                  else if Truthy(t.default) then t.default.value
                  else ThumbEntry(None, 0);
    chosen.url
  }

  /** The summary of one item; a missing `snippet` or `contentDetails` is read as `{}`. */
  function Summarize(item: Item): VideoSummary {
    var sn := item.snippet.GetOr(Snippet(None, None, None, None));
    var cd := item.contentDetails.GetOr(ContentDetails(None));
    VideoSummary(cd.videoId, sn.title, PickThumbnail(sn.thumbnails), sn.publishedAt, sn.channelTitle)
  }

  /** `data.get("items", [])`. */
  function PageItems(page: Page): seq<Item> {
    page.items.GetOr([])
  }

  /** The `for it in data.get("items", [])` loop: one summary per item, in the items' order. */
  method MapUploads(page: Page) returns (videos: seq<VideoSummary>)
    ensures |videos| == |PageItems(page)|
    ensures forall i :: 0 <= i < |videos| ==> videos[i] == Summarize(PageItems(page)[i])
  {
    var items := page.items.GetOr([]);
    videos := [];
    for i := 0 to |items|
      invariant |videos| == i
      invariant forall j :: 0 <= j < i ==> videos[j] == Summarize(items[j])
    {
      videos := videos + [Summarize(items[i])];
    }
  }

  /** A thumbnail, when there is one, is the `url` of the medium or of the default entry. */
  lemma ThumbnailComesFromEntry(thumbs: Option<Thumbnails>)
    ensures PickThumbnail(thumbs).Some? ==>
              thumbs.Some? &&
              ((thumbs.value.medium.Some? && PickThumbnail(thumbs) == thumbs.value.medium.value.url) ||
               (thumbs.value.default.Some? && PickThumbnail(thumbs) == thumbs.value.default.value.url))
  {
  }

  /**
   * A non-empty medium entry without a `url` hides the default entry: the summary has no
   * thumbnail even when the default entry has one.
   */
  lemma UrlLessMediumHidesDefault(otherKeys: nat, default: Option<ThumbEntry>)
    requires otherKeys > 0
    ensures PickThumbnail(Some(Thumbnails(Some(ThumbEntry(None, otherKeys)), default))) == None
  {
  }
}
