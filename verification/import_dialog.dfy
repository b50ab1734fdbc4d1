/** The import dialog of components/SpotifyImport.tsx: the checks
    `handleImport` makes before it sends anything, the request body it
    builds, and the effect that fills in the new playlist's name from the
    selected source playlist. */
module ImportDialog {
  import opened Wrappers
  import opened Types
  import opened Text
  import opened SpotifyPlaylists
  import ImportRoute

  /** The dialog's state that `handleImport` reads. An unselected playlist
      is the empty string. */
  datatype DialogState = DialogState(
    spotifyPlaylists: seq<Formatted>,
    selectedPlaylistId: string,
    createNewPlaylist: bool,
    newPlaylistName: string,
    targetPlaylistId: string)

  /** No playlist before index `i` has that id. */
  predicate FirstWith(ps: seq<Formatted>, id: string, i: nat)
    requires i <= |ps|
  {
    forall j :: 0 <= j < i ==> ps[j].id != id
  }

  /** `playlists.find(p => p.id === id)`: the first playlist with that id. */
  function FindById(ps: seq<Formatted>, id: string): (r: Option<Formatted>)
    ensures r.None? <==> forall i :: 0 <= i < |ps| ==> ps[i].id != id
    ensures r.Some? ==> exists i :: 0 <= i < |ps| && ps[i] == r.value && FirstWith(ps, id, i)
    ensures r.Some? ==> r.value.id == id
  {
    if ps == [] then None
    else if ps[0].id == id then Some(ps[0])
    else
      var r := FindById(ps[1..], id);
      if r.Some? then
        var i :| 0 <= i < |ps[1..]| && ps[1..][i] == r.value && FirstWith(ps[1..], id, i);
        assert ps[i + 1] == r.value;
        assert FirstWith(ps, id, i + 1) by {
          forall j | 0 <= j < i + 1 ensures ps[j].id != id {
            if j > 0 { assert ps[j] == ps[1..][j - 1]; }
          }
        }
        r
      else
        assert forall j :: 0 <= j < |ps| ==> ps[j].id != id by {
          forall j | 0 <= j < |ps| ensures ps[j].id != id {
            if j > 0 { assert ps[j] == ps[1..][j - 1]; }
          }
        }
        r
  }

  /** The `playlistName` sent: the trimmed new name when creating, otherwise
      the source playlist's name, or "Imported from Spotify" when it has
      none or is not in the list. */
  function RequestName(s: DialogState): (n: string)
    ensures s.createNewPlaylist ==> n == Trim(s.newPlaylistName)
    ensures !s.createNewPlaylist && FindById(s.spotifyPlaylists, s.selectedPlaylistId).None? ==>
      n == ImportRoute.DefaultPlaylistName
    ensures !s.createNewPlaylist && FindById(s.spotifyPlaylists, s.selectedPlaylistId).Some? ==>
      n == OrElse(FindById(s.spotifyPlaylists, s.selectedPlaylistId).value.name, ImportRoute.DefaultPlaylistName)
  {
    if s.createNewPlaylist then Trim(s.newPlaylistName)
    else
      match FindById(s.spotifyPlaylists, s.selectedPlaylistId)
      case None => ImportRoute.DefaultPlaylistName
      case Some(p) => OrElse(p.name, ImportRoute.DefaultPlaylistName)
  }

  /** `handleImport` up to the request: either the alert shown instead of
      sending, or the body sent. The checks come in the source's order; no
      `sessionId` is sent, and a `null` `targetPlaylistId` is the empty
      string. */
  function HandleImport(s: DialogState): (r: Result<ImportRoute.ImportRequest, string>)
    ensures s.selectedPlaylistId == [] ==> r == Err("Please select a playlist to import")
    ensures s.selectedPlaylistId != [] && s.createNewPlaylist && AllWhitespace(s.newPlaylistName) ==>
      r == Err("Please enter a playlist name")
    ensures s.selectedPlaylistId != [] && !s.createNewPlaylist && s.targetPlaylistId == [] ==>
      r == Err("Please select a target playlist")
    ensures r.Ok? <==> (
      && s.selectedPlaylistId != []
      && (s.createNewPlaylist ==> !AllWhitespace(s.newPlaylistName))
      && (!s.createNewPlaylist ==> s.targetPlaylistId != []))
    ensures r.Ok? ==> (
      && r.value.playlistId == s.selectedPlaylistId
      && r.value.createNewPlaylist == s.createNewPlaylist
      && r.value.playlistName == RequestName(s)
      && r.value.sessionId == [])
    ensures r.Ok? ==> (r.value.targetPlaylistId == [] <==> s.createNewPlaylist)
    ensures r.Ok? && !s.createNewPlaylist ==> r.value.targetPlaylistId == s.targetPlaylistId
  {
    if s.selectedPlaylistId == [] then Err("Please select a playlist to import")
    else if s.createNewPlaylist && Trim(s.newPlaylistName) == [] then Err("Please enter a playlist name")
    else if !s.createNewPlaylist && s.targetPlaylistId == [] then Err("Please select a target playlist")
    else
      Ok(ImportRoute.ImportRequest(
        s.selectedPlaylistId,
        RequestName(s),
        s.createNewPlaylist,
        if s.createNewPlaylist then [] else s.targetPlaylistId,
        []))
  }

  /** Every request the dialog sends gets past the import route's 400
      checks, and a new playlist is named exactly the trimmed name typed in
      (the route's "Imported from Spotify" fallback never applies). */
  lemma SentRequestsAreWellFormed(s: DialogState)
    requires HandleImport(s).Ok?
    ensures var req := HandleImport(s).value;
      req.playlistId != [] && (req.createNewPlaylist || req.targetPlaylistId != [])
    ensures var req := HandleImport(s).value;
      req.createNewPlaylist ==> OrElse(req.playlistName, ImportRoute.DefaultPlaylistName) == Trim(s.newPlaylistName)
  {
  }

  /** The effect on `[selectedPlaylistId, spotifyPlaylists]`: when creating
      a new playlist and the name is still empty, it takes the selected
      source playlist's name. Nothing else changes. */
  function AutoFill(s: DialogState): (r: DialogState)
    ensures r == s.(newPlaylistName := r.newPlaylistName)
    ensures r.newPlaylistName != s.newPlaylistName ==> s.newPlaylistName == [] && s.createNewPlaylist
    ensures (
      && s.selectedPlaylistId != [] && s.createNewPlaylist && s.newPlaylistName == []
      && FindById(s.spotifyPlaylists, s.selectedPlaylistId).Some?) ==>
      r.newPlaylistName == FindById(s.spotifyPlaylists, s.selectedPlaylistId).value.name
    ensures s.selectedPlaylistId == [] || FindById(s.spotifyPlaylists, s.selectedPlaylistId).None? ==> r == s
  {
    if s.selectedPlaylistId != [] && s.createNewPlaylist then
      match FindById(s.spotifyPlaylists, s.selectedPlaylistId)
      case Some(p) => if s.newPlaylistName == [] then s.(newPlaylistName := p.name) else s
      case None => s
    else s
  }

  /** Running the effect again changes nothing. */
  lemma AutoFillIdempotent(s: DialogState)
    ensures AutoFill(AutoFill(s)) == AutoFill(s)
  {
  }

  /** A name the user typed is never overwritten. */
  lemma AutoFillKeepsTypedName(s: DialogState)
    requires s.newPlaylistName != []
    ensures AutoFill(s) == s
  {
  }
}
