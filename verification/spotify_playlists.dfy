/** `GET /api/spotify/playlists` (app/api/spotify/playlists/route.ts): pick
    the Spotify access token from the cookies, page through the user's
    playlists and format them for the import dialog. */
module SpotifyPlaylists {
  import opened Wrappers

  /** The two cookies; an absent cookie is the empty string. */
  datatype Cookies = Cookies(accessToken: string, refreshToken: string)

  /** `getSpotifyAccessToken`. `refreshed` is what `refreshSpotifyToken`
      answers for the refresh token (`None` for `null`). Neither cookie
      gives no token; a refresh token alone gives whatever the refresh
      answers; an access token is used as it is. */
  function AccessToken(c: Cookies, refreshed: Option<string>): (r: Option<string>)
    ensures c.accessToken == [] && c.refreshToken == [] ==> r == None
    ensures c.accessToken == [] && c.refreshToken != [] ==> r == refreshed
    ensures c.accessToken != [] ==> r == Some(c.accessToken)
  {
    if c.accessToken == [] && c.refreshToken == [] then None
    else if c.accessToken == [] then refreshed
    else Some(c.accessToken)
  }

  /** The refresh answer matters only when there is no access token. */
  lemma RefreshOnlyWithoutAccessToken(c: Cookies, r1: Option<string>, r2: Option<string>)
    ensures AccessToken(c, r1) != AccessToken(c, r2) ==> c.accessToken == [] && c.refreshToken != []
  {
  }

  /** A playlist object as Spotify returns it. Absent or `null` fields are
      the empty string (`description`, an image's `url`, the owner's
      `display_name`) or 0 (`tracks.total`); `imageUrls` lists the images' urls. */
  datatype RawPlaylist = RawPlaylist(
    id: string,
    name: string,
    description: string,
    imageUrls: seq<string>,
    tracksTotal: nat,
    ownerName: string)

  /** A playlist as the route returns it. */
  datatype Formatted = Formatted(
    id: string,
    name: string,
    description: Option<string>,
    image: Option<string>,
    trackCount: nat,
    owner: string)

  /** The formatting of one playlist: `description || null`,
      `images?.[0]?.url || null`, `tracks?.total || 0` and
      `owner?.display_name || 'Unknown'`. */
  function Format(p: RawPlaylist): (f: Formatted)
    ensures f.id == p.id && f.name == p.name && f.trackCount == p.tracksTotal
    ensures f.description.None? <==> p.description == []
    ensures f.description.Some? ==> f.description.value == p.description
    ensures f.image.None? <==> |p.imageUrls| == 0 || p.imageUrls[0] == []
    ensures f.image.Some? ==> f.image.value == p.imageUrls[0]
    ensures p.ownerName == [] ==> f.owner == "Unknown"
    ensures p.ownerName != [] ==> f.owner == p.ownerName
  {
    Formatted(
      p.id,
      p.name,
      if p.description == [] then None else Some(p.description),
      if |p.imageUrls| == 0 || p.imageUrls[0] == [] then None else Some(p.imageUrls[0]),
      p.tracksTotal,
      if p.ownerName == [] then "Unknown" else p.ownerName)
  }

  /** The formatted list keeps the playlists' number and order. */
  function FormatAll(ps: seq<RawPlaylist>): (r: seq<Formatted>)
    ensures |r| == |ps|
    ensures forall i :: 0 <= i < |ps| ==> r[i] == Format(ps[i])
  {
    if ps == [] then [] else [Format(ps[0])] + FormatAll(ps[1..])
  }

  /** One response of the paginated fetch. `items` is `None` when the body
      has none (spreading it then throws); `next` is empty on the last page. */
  datatype Page =
    | PageOk(items: Option<seq<RawPlaylist>>, next: string)
    | PageError(status: nat)

  /** What the pagination ends with. */
  datatype Listing = Listed(playlists: seq<RawPlaylist>) | TokenExpired | ListFailed

  predicate Stops(p: Page) {
    p.PageError? || p.items.None? || p.next == []
  }

  predicate HasStop(pages: seq<Page>) {
    exists k :: 0 <= k < |pages| && Stops(pages[k])
  }

  /** Every page's items, in order, up to the last page; a 401 means the
      token expired, and any other error status or a page without items
      fails the whole listing. */
  function ListAll(pages: seq<Page>): (r: Listing)
    requires HasStop(pages)
    ensures r.TokenExpired? ==> exists k :: 0 <= k < |pages| && pages[k] == PageError(401)
    decreases |pages|
  {
    match pages[0]
    case PageError(status) => if status == 401 then TokenExpired else ListFailed
    case PageOk(items, next) =>
      if items.None? then ListFailed
      else if next == [] then Listed(items.value)
      else
        assert HasStop(pages[1..]) by {
          var k :| 0 <= k < |pages| && Stops(pages[k]);
          assert pages[1..][k - 1] == pages[k];
        }
        match ListAll(pages[1..])
        case Listed(rest) => Listed(items.value + rest)
        case TokenExpired =>
          var k :| 0 <= k < |pages[1..]| && pages[1..][k] == PageError(401);
          assert pages[k + 1] == PageError(401);
          TokenExpired
        case ListFailed => ListFailed
  }

  function PrependAll(prefix: seq<RawPlaylist>, r: Listing): Listing {
    if r.Listed? then Listed(prefix + r.playlists) else r
  }

  /** The loop of the source, one request per iteration. */
  method FetchPlaylists(pages: seq<Page>) returns (r: Listing)
    requires HasStop(pages)
    ensures r == ListAll(pages)
  {
    var playlists: seq<RawPlaylist> := [];
    var nextUrl := "https://api.spotify.com/v1/me/playlists?limit=50";
    var k := 0;
    while nextUrl != []
      invariant 0 <= k <= |pages|
      invariant nextUrl != [] ==> HasStop(pages[k..]) && ListAll(pages) == PrependAll(playlists, ListAll(pages[k..]))
      invariant nextUrl == [] ==> ListAll(pages) == Listed(playlists)
      decreases |pages| - k
    {
      var page := pages[k];
      assert page == pages[k..][0];
      match page
      case PageError(status) =>
        if status == 401 {
          return TokenExpired;
        }
        return ListFailed;
      case PageOk(items, next) =>
        if items.None? {
          return ListFailed;
        }
        if next != [] {
          ListAllStep(pages[k..]);
          assert pages[k..][1..] == pages[k + 1..];
          PrependAllTwice(playlists, items.value, ListAll(pages[k + 1..]));
        }
        playlists := playlists + items.value;
        nextUrl := next;
        k := k + 1;
    }
    return Listed(playlists);
  }

  /** A page with items and a next link adds its items in front of the rest. */
  lemma ListAllStep(pages: seq<Page>)
    requires HasStop(pages) && pages[0].PageOk? && pages[0].items.Some? && pages[0].next != []
    ensures HasStop(pages[1..])
    ensures ListAll(pages) == PrependAll(pages[0].items.value, ListAll(pages[1..]))
  {
    var k :| 0 <= k < |pages| && Stops(pages[k]);
    assert pages[1..][k - 1] == pages[k];
  }

  lemma PrependAllTwice(a: seq<RawPlaylist>, b: seq<RawPlaylist>, r: Listing)
    ensures PrependAll(a, PrependAll(b, r)) == PrependAll(a + b, r)
  {
    if r.Listed? {
      assert a + (b + r.playlists) == (a + b) + r.playlists;
    }
  }

  /** The route's answer: an error status with its message, or the list. */
  datatype Reply = Failure(status: nat, error: string) | Playlists(playlists: seq<Formatted>)

  /** The cookies yield a usable (non-empty) token. */
  predicate Connected(c: Cookies, refreshed: Option<string>) {
    AccessToken(c, refreshed).Some? && AccessToken(c, refreshed).value != []
  }

  /** `GET`. The sign-in check comes before the token check; an expired
      token is a 401 of its own; every other upstream failure is a 500. */
  method Get(user: Option<string>, cookies: Cookies, refreshed: Option<string>, pages: seq<Page>)
    returns (reply: Reply)
    requires HasStop(pages)
    ensures user.None? ==> reply == Failure(401, "Unauthorized")
    ensures user.Some? && !Connected(cookies, refreshed) ==>
      reply == Failure(401, "Not connected to Spotify. Please authorize first.")
    ensures reply.Playlists? <==> (user.Some? && Connected(cookies, refreshed) && ListAll(pages).Listed?)
    ensures reply.Playlists? ==> reply.playlists == FormatAll(ListAll(pages).playlists)
    ensures user.Some? && Connected(cookies, refreshed) && ListAll(pages).TokenExpired? ==>
      reply == Failure(401, "Spotify token expired. Please reconnect.")
    ensures user.Some? && Connected(cookies, refreshed) && ListAll(pages).ListFailed? ==>
      reply == Failure(500, "Failed to fetch playlists from Spotify")
  {
    if user.None? {
      return Failure(401, "Unauthorized");
    }
    var token := AccessToken(cookies, refreshed);
    if token.None? || token.value == [] {
      return Failure(401, "Not connected to Spotify. Please authorize first.");
    }
    var listing := FetchPlaylists(pages);
    match listing
    case TokenExpired => reply := Failure(401, "Spotify token expired. Please reconnect.");
    case ListFailed => reply := Failure(500, "Failed to fetch playlists from Spotify");
    case Listed(ps) => reply := Playlists(FormatAll(ps));
  }
}
