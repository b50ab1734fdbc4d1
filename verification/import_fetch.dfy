/** The pagination loop of `POST /api/spotify/import`
    (app/api/spotify/import/route.ts): it follows the `next` links of the
    source playlist's track pages and keeps the tracks that are present and
    not local files. The responses are an input: `pages[k]` answers the k-th
    request. */
module ImportFetch {
  import opened Wrappers
  import opened Text
  import opened Spotify

  /** An entry of a page's `items`; `track` is absent for a removed track. */
  datatype PageItem = PageItem(track: Option<ForeignTrack>)

  /** One response. `items` is `None` when the body has no `items` (or no
      body); `next` is the following page's URL, empty on the last page. */
  datatype Page =
    | PageOk(items: Option<seq<PageItem>>, next: string)
    | PageError(status: nat, text: string)

  datatype FetchResult = Fetched(tracks: seq<ForeignTrack>) | FetchFailed(message: string)

  /** The first request's URL; only its being non-empty matters to the loop. */
  function PlaylistTracksUrl(playlistId: string): (u: string)
    ensures u != []
  {
    "https://api.spotify.com/v1/playlists/" + playlistId + "/tracks?limit=50"
  }

  /** The message of the error thrown on a non-ok response. */
  function FetchErrorMessage(status: nat, text: string): string {
    "Failed to fetch playlist tracks: " + NatToDecimal(status) + " - " + text
  }

  /** A page after which no further request is made. */
  predicate Stops(p: Page) {
    p.PageError? || p.items.None? || p.next == []
  }

  /** The responses end: some page stops the loop. */
  predicate HasStop(pages: seq<Page>) {
    exists k :: 0 <= k < |pages| && Stops(pages[k])
  }

  /** `items.filter(item => item.track && !item.track.is_local)`. */
  function ValidTracks(items: seq<PageItem>): (r: seq<ForeignTrack>)
    ensures forall t :: t in r <==> PageItem(Some(t)) in items && !t.isLocal
    ensures |r| <= |items|
  {
    if items == [] then []
    else
      var rest := ValidTracks(items[1..]);
      assert items == [items[0]] + items[1..];
      match items[0].track
      case Some(t) => if t.isLocal then rest else [t] + rest
      case None => rest
  }

  /** The filter works item by item: the kept tracks stay in item order,
      and a track listed twice is kept twice. */
  lemma {:induction false} ValidTracksConcat(a: seq<PageItem>, b: seq<PageItem>)
    ensures ValidTracks(a + b) == ValidTracks(a) + ValidTracks(b)
    decreases |a|
  {
    if a == [] {
      assert a + b == b;
    } else {
      assert (a + b)[0] == a[0] && (a + b)[1..] == a[1..] + b;
      ValidTracksConcat(a[1..], b);
    }
  }

  /** The tracks of every page up to the stopping one, in order: a non-ok
      response fails the whole fetch, a page without `items` ends it
      silently, and an empty `next` ends it after that page's tracks. */
  function FetchAll(pages: seq<Page>): (r: FetchResult)
    requires HasStop(pages)
    ensures r.Fetched? ==> forall t :: t in r.tracks ==> !t.isLocal
    ensures r.FetchFailed? ==> exists k :: 0 <= k < |pages| && pages[k].PageError?
    decreases |pages|
  {
    match pages[0]
    case PageError(status, text) => FetchFailed(FetchErrorMessage(status, text))
    case PageOk(items, next) =>
      if items.None? then Fetched([])
      else if next == [] then Fetched(ValidTracks(items.value))
      else
        assert HasStop(pages[1..]) by {
          var k :| 0 <= k < |pages| && Stops(pages[k]);
          assert pages[1..][k - 1] == pages[k];
        }
        match FetchAll(pages[1..])
        case Fetched(rest) => Fetched(ValidTracks(items.value) + rest)
        case FetchFailed(m) =>
          var k :| 0 <= k < |pages[1..]| && pages[1..][k].PageError?;
          assert pages[k + 1].PageError?;
          FetchFailed(m)
  }

  /** `prefix` placed in front of a fetch's tracks. */
  function Prepend(prefix: seq<ForeignTrack>, r: FetchResult): FetchResult {
    match r
    case Fetched(t) => Fetched(prefix + t)
    case FetchFailed(m) => r
  }

  /** A fetch whose every page is ok and has items yields the concatenation
      of the pages' valid tracks. */
  lemma {:induction false} FetchAllConcatenates(pages: seq<Page>)
    requires |pages| > 0
    requires forall k :: 0 <= k < |pages| ==> pages[k].PageOk? && pages[k].items.Some?
    requires forall k :: 0 <= k < |pages| - 1 ==> pages[k].next != []
    requires pages[|pages| - 1].next == []
    ensures HasStop(pages)
    ensures FetchAll(pages) == Fetched(Concat(pages))
    decreases |pages|
  {
    assert Stops(pages[|pages| - 1]);
    if |pages| > 1 {
      var tail := pages[1..];
      assert tail[|tail| - 1] == pages[|pages| - 1];
      FetchAllConcatenates(tail);
    }
  }

  /** The valid tracks of every page, in page order. */
  function Concat(pages: seq<Page>): seq<ForeignTrack>
    requires forall k :: 0 <= k < |pages| ==> pages[k].PageOk? && pages[k].items.Some?
  {
    if pages == [] then [] else ValidTracks(pages[0].items.value) + Concat(pages[1..])
  }

  /** The loop of the source: one request per iteration until `next` is
      empty, the page has no items, or a response is not ok. */
  method FetchTracks(playlistId: string, pages: seq<Page>) returns (r: FetchResult)
    requires HasStop(pages)
    ensures r == FetchAll(pages)
  {
    var tracks: seq<ForeignTrack> := [];
    var nextUrl := PlaylistTracksUrl(playlistId);
    var k := 0;
    while nextUrl != []
      invariant 0 <= k <= |pages|
      invariant nextUrl != [] ==> HasStop(pages[k..]) && FetchAll(pages) == Prepend(tracks, FetchAll(pages[k..]))
      invariant nextUrl == [] ==> FetchAll(pages) == Fetched(tracks)
      decreases |pages| - k
    {
      var page := pages[k];
      assert page == pages[k..][0];
      match page
      case PageError(status, text) =>
        return FetchFailed(FetchErrorMessage(status, text));
      case PageOk(items, next) =>
        if items.None? {
          break;
        }
        ghost var before := tracks;
        tracks := tracks + ValidTracks(items.value);
        nextUrl := next;
        if next != [] {
          assert pages[k..][1..] == pages[k + 1..];
          PrependTwice(before, ValidTracks(items.value), FetchAll(pages[k + 1..]));
        }
        k := k + 1;
    }
    return Fetched(tracks);
  }

  lemma PrependTwice(a: seq<ForeignTrack>, b: seq<ForeignTrack>, r: FetchResult)
    ensures Prepend(a, Prepend(b, r)) == Prepend(a + b, r)
  {
    if r.Fetched? {
      assert a + (b + r.tracks) == (a + b) + r.tracks;
    }
  }
}
