/** `POST /api/spotify/import` (app/api/spotify/import/route.ts): check the
    caller, read the request, fetch the source playlist's tracks, choose or
    create the target playlist, import every track, clear the progress
    entry and answer with the counters and at most 100 errors.

    Everything outside the process is an input (`Services`): the signed-in
    user, the access-token cookie, the track pages, the catalog search, the
    database faults per track, the outcome of creating a playlist and the
    session id the route would generate. */
module ImportRoute {
  import opened Wrappers
  import opened Types
  import opened Sorting
  import opened Playlists
  import opened Progress
  import opened ImportFetch
  import opened ImportRun

  /** The JSON body. A missing or `null` text field is the empty string and
      a missing flag is `false`, as they are all read by truthiness. */
  datatype ImportRequest = ImportRequest(
    playlistId: string,
    playlistName: string,
    createNewPlaylist: bool,
    targetPlaylistId: string,
    sessionId: string)

  datatype Services = Services(
    user: Option<string>,
    accessToken: string,
    pages: seq<Page>,
    search: string -> SearchOutcome,
    faults: nat -> DbFault,
    created: Result<string, string>,
    generatedSessionId: string)

  /** The `results` object of a successful answer. */
  datatype Results = Results(
    current: nat,
    total: nat,
    imported: nat,
    failed: nat,
    skipped: nat,
    errors: seq<TrackError>)

  /** An error answer (status, `error`, and `details`, empty when absent),
      or the success answer. */
  datatype Reply =
    | Failure(status: nat, error: string, details: string)
    | Success(playlistId: string, sessionId: string, results: Results)

  const MaxErrors: nat := 100
  const DefaultPlaylistName: string := "Imported from Spotify"

  /** The user is signed in and has a Spotify access token. */
  predicate Authorized(svc: Services) {
    svc.user.Some? && svc.accessToken != []
  }

  /** The request passed the checks made before the fetch. */
  predicate Accepted(svc: Services, body: Result<ImportRequest, string>) {
    Authorized(svc) && body.Ok? && body.value.playlistId != []
  }

  /** The session id the progress entry is stored under. */
  function SessionOf(svc: Services, req: ImportRequest): string {
    OrElse(req.sessionId, svc.generatedSessionId)
  }

  /** The handler. Its checks come in the source's order: user, token, body,
      `playlistId`; then the fetch; then, for a new playlist, its creation,
      and for an existing one the `targetPlaylistId` check, which therefore
      only runs once the fetch has succeeded. On success `results.current`
      is still 0: only a branch for absent tracks sets it, and the fetch has
      already dropped those. An error answer leaves the rows and the
      progress store as they were. */
  method Post(svc: Services, body: Result<ImportRequest, string>, db: Memberships, store: Store)
    returns (reply: Reply, db': Memberships, store': Store, newName: Option<string>)
    requires HasStop(svc.pages)
    ensures svc.user.None? ==> reply == Failure(401, "Unauthorized", "")
    ensures svc.user.Some? && svc.accessToken == [] ==> reply == Failure(401, "Not connected to Spotify", "")
    ensures Authorized(svc) && body.Err? ==>
      reply == Failure(500, "Failed to import playlist", OrElse(body.error, "Unknown error"))
    ensures Authorized(svc) && body.Ok? && body.value.playlistId == [] ==> reply == Failure(400, "Playlist ID is required", "")
    ensures Accepted(svc, body) && FetchAll(svc.pages).FetchFailed? ==>
      reply == Failure(500, "Failed to import playlist", FetchAll(svc.pages).message)
    ensures Accepted(svc, body) && FetchAll(svc.pages).Fetched? && body.value.createNewPlaylist && svc.created.Err? ==>
      reply == Failure(500, "Failed to create playlist", svc.created.error)
    ensures Accepted(svc, body) && FetchAll(svc.pages).Fetched? && !body.value.createNewPlaylist ==>
      (body.value.targetPlaylistId == [] ==> reply == Failure(400, "Target playlist ID is required", ""))
    ensures newName.Some? <==> Accepted(svc, body) && FetchAll(svc.pages).Fetched? && body.value.createNewPlaylist
    ensures newName.Some? ==> newName.value == OrElse(body.value.playlistName, DefaultPlaylistName)
    ensures reply.Failure? ==> db' == db && store' == store
    ensures reply.Success? <==>
      && Accepted(svc, body) && FetchAll(svc.pages).Fetched?
      && (if body.value.createNewPlaylist then svc.created.Ok? else body.value.targetPlaylistId != [])
    ensures reply.Success? ==>
      var req := body.value;
      var tracks := FetchAll(svc.pages).tracks;
      var target := if req.createNewPlaylist then svc.created.value else req.targetPlaylistId;
      var st := Run(tracks, |tracks|, Rows(db, target), svc.search, svc.faults);
      && reply.playlistId == target
      && reply.sessionId == SessionOf(svc, req)
      && reply.results == Results(0, |tracks|, st.imported, st.failed, st.skipped, Take(st.errors, MaxErrors))
      && db' == db[target := st.rows]
      && store' == ClearProgress(store, SessionOf(svc, req))
  {
    db', store', newName := db, store, None;
    if svc.user.None? {
      return Failure(401, "Unauthorized", ""), db', store', newName;
    }
    if svc.accessToken == [] {
      return Failure(401, "Not connected to Spotify", ""), db', store', newName;
    }
    if body.Err? {
      return Failure(500, "Failed to import playlist", OrElse(body.error, "Unknown error")), db', store', newName;
    }
    var req := body.value;
    var sessionId := SessionOf(svc, req);
    if req.playlistId == [] {
      return Failure(400, "Playlist ID is required", ""), db', store', newName;
    }
    var fetched := FetchTracks(req.playlistId, svc.pages);
    if fetched.FetchFailed? {
      return Failure(500, "Failed to import playlist", fetched.message), db', store', newName;
    }
    var tracks := fetched.tracks;
    var target: string;
    if req.createNewPlaylist {
      newName := Some(OrElse(req.playlistName, DefaultPlaylistName));
      if svc.created.Err? {
        return Failure(500, "Failed to create playlist", svc.created.error), db', store', newName;
      }
      target := svc.created.value;
    } else {
      if req.targetPlaylistId == [] {
        return Failure(400, "Target playlist ID is required", ""), db', store', newName;
      }
      target := req.targetPlaylistId;
    }
    var st;
    st, store' := ProcessTracks(tracks, Rows(db, target), svc.search, svc.faults, sessionId, store);
    db' := db[target := st.rows];
    var results := Results(0, |tracks|, st.imported, st.failed, st.skipped, Take(st.errors, MaxErrors));
    reply := Success(target, sessionId, results);
  }
}
