/** The import progress store shared by app/api/spotify/import/route.ts
    (the writer) and app/api/spotify/import-progress/route.ts (the reader):
    a map from import session id to the latest progress snapshot. */
module Progress {

  /** A progress snapshot; `errors` holds the "<track>: <reason>" lines so far. */
  datatype Snapshot = Snapshot(
    current: nat,
    total: nat,
    imported: nat,
    failed: nat,
    skipped: nat,
    currentTrack: string,
    errors: seq<string>)

  type Store = map<string, Snapshot>

  /** `setImportProgress`: the session's entry becomes `s`; others are untouched. */
  function SetProgress(store: Store, sessionId: string, s: Snapshot): (r: Store)
    ensures sessionId in r && r[sessionId] == s
    ensures forall k :: k != sessionId ==> (k in r <==> k in store)
    ensures forall k :: k != sessionId && k in store ==> r[k] == store[k]
  {
    store[sessionId := s]
  }

  /** `clearImportProgress`: the session's entry is gone; others are untouched. */
  function ClearProgress(store: Store, sessionId: string): (r: Store)
    ensures sessionId !in r
    ensures forall k :: k != sessionId ==> (k in r <==> k in store)
    ensures forall k :: k != sessionId && k in store ==> r[k] == store[k]
  {
    store - {sessionId}
  }

  /** The poll endpoint's answer: an error status with its message, or the
      stored snapshot with status 200. */
  datatype PollReply = PollError(status: int, message: string) | PollOk(snapshot: Snapshot)

  /** `GET /api/spotify/import-progress?sessionId=…`. A missing or empty
      `sessionId` is a 400; an id with no entry (never set, or cleared) is
      a 404; otherwise the stored snapshot comes back unchanged. The store
      is a value here, so a poll cannot change it. */
  function Poll(store: Store, sessionId: string): (r: PollReply)
    ensures sessionId == [] ==> r == PollError(400, "Session ID is required")
    ensures sessionId != [] && sessionId !in store ==> r == PollError(404, "Progress not found")
    ensures r.PollOk? <==> sessionId != [] && sessionId in store
    ensures r.PollOk? ==> r.snapshot == store[sessionId]
  {
    if sessionId == [] then PollError(400, "Session ID is required")
    else if sessionId !in store then PollError(404, "Progress not found")
    else PollOk(store[sessionId])
  }

  /** A poll right after a write returns what was written. */
  lemma PollAfterSet(store: Store, sessionId: string, s: Snapshot)
    requires sessionId != []
    ensures Poll(SetProgress(store, sessionId, s), sessionId) == PollOk(s)
  {
  }

  /** After the run clears its entry, polls report 404. */
  lemma PollAfterClear(store: Store, sessionId: string)
    requires sessionId != []
    ensures Poll(ClearProgress(store, sessionId), sessionId) == PollError(404, "Progress not found")
  {
  }

  /** Writing or clearing one session never changes what another session's poll sees. */
  lemma SessionsAreIsolated(store: Store, sessionId: string, other: string, s: Snapshot)
    requires other != sessionId
    ensures Poll(SetProgress(store, sessionId, s), other) == Poll(store, other)
    ensures Poll(ClearProgress(store, sessionId), other) == Poll(store, other)
  {
  }
}
