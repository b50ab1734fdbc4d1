/** The player and play queue of the dashboard (app/dashboard/page.tsx):
    playing and toggling a song, next and previous with wrap-around over the
    search results, and the queue's drop, remove, play-from and reorder. */
module Queue {
  import opened Wrappers
  import opened Types

  /** The dashboard's player state: the search results, the current song,
      whether it plays, and the queue. */
  datatype Player = Player(songs: seq<Song>, current: Option<Song>, isPlaying: bool, queue: seq<Song>)

  /** No two entries share an id. */
  predicate UniqueIds(q: seq<Song>) {
    forall i, j :: 0 <= i < j < |q| ==> q[i].id != q[j].id
  }

  /** Some entry has the id. */
  predicate HasId(q: seq<Song>, id: string) {
    exists i :: 0 <= i < |q| && q[i].id == id
  }

  /** `handlePlay`: the current song (by id) toggles between playing and
      paused; any other song becomes current and plays. */
  function HandlePlay(p: Player, song: Song): (r: Player)
    ensures r.songs == p.songs && r.queue == p.queue
    ensures p.current.Some? && p.current.value.id == song.id ==> r.current == p.current && r.isPlaying == !p.isPlaying
    ensures !(p.current.Some? && p.current.value.id == song.id) ==> r.current == Some(song) && r.isPlaying
  {
    if p.current.Some? && p.current.value.id == song.id then p.(isPlaying := !p.isPlaying)
    else p.(current := Some(song), isPlaying := true)
  }

  /** Playing the same song twice restores the playing flag. */
  lemma PlayTwiceToggles(p: Player, song: Song)
    requires p.current.Some? && p.current.value.id == song.id
    ensures HandlePlay(HandlePlay(p, song), song) == p
  {
  }

  /** `playNextFromQueue`: on an empty queue nothing changes and the answer
      is false; otherwise the head becomes current and plays, and the queue
      loses its head. */
  function PlayNextFromQueue(p: Player): (r: (bool, Player))
    ensures !r.0 <==> p.queue == []
    ensures !r.0 ==> r.1 == p
    ensures r.0 ==> r.1 == Player(p.songs, Some(p.queue[0]), true, p.queue[1..])
  {
    if p.queue == [] then (false, p)
    else (true, Player(p.songs, Some(p.queue[0]), true, p.queue[1..]))
  }

  /** `findIndex` on ids: the first index with the id, or -1. */
  function FindIndex(songs: seq<Song>, id: string): (i: int)
    ensures -1 <= i < |songs|
    ensures i == -1 <==> !HasId(songs, id)
    ensures 0 <= i ==> songs[i].id == id && forall j :: 0 <= j < i ==> songs[j].id != id
  {
    if songs == [] then -1
    else if songs[0].id == id then 0
    else
      var i := FindIndex(songs[1..], id);
      assert forall j :: 0 < j < |songs| ==> songs[j] == songs[1..][j - 1];
      if i == -1 then -1 else i + 1
  }

  /** JavaScript's `%`: the remainder takes the dividend's sign. */
  function JsRem(a: int, n: int): (r: int)
    requires n > 0
  {
    if a >= 0 then a % n else -((-a) % n)
  }

  /** `(currentIndex + 1) % songs.length`. */
  function NextIndex(songs: seq<Song>, id: string): (k: nat)
    requires songs != []
    ensures k < |songs|
    ensures HasId(songs, id) && FindIndex(songs, id) < |songs| - 1 ==> k == FindIndex(songs, id) + 1
    ensures HasId(songs, id) && FindIndex(songs, id) == |songs| - 1 ==> k == 0
    ensures !HasId(songs, id) ==> k == 0
  {
    var a := FindIndex(songs, id) + 1;
    if a < |songs| then
      ModSmall(a, |songs|);
      JsRem(a, |songs|)
    else
      ModSelf(|songs|);
      JsRem(a, |songs|)
  }

  lemma ModSmall(a: int, n: int)
    requires 0 <= a < n
    ensures a % n == a
  {
  }

  lemma ModSelf(n: int)
    requires 0 < n
    ensures n % n == 0
  {
  }

  /** `(currentIndex - 1 + songs.length) % songs.length`. The dividend is
      only negative for a one-song list without the current song, where the
      remainder is 0 as well. */
  function PreviousIndex(songs: seq<Song>, id: string): (k: nat)
    requires songs != []
    ensures k < |songs|
    ensures HasId(songs, id) && FindIndex(songs, id) > 0 ==> k == FindIndex(songs, id) - 1
    ensures HasId(songs, id) && FindIndex(songs, id) == 0 ==> k == |songs| - 1
    ensures !HasId(songs, id) && |songs| >= 2 ==> k == |songs| - 2
    ensures !HasId(songs, id) && |songs| == 1 ==> k == 0
  {
    var a := FindIndex(songs, id) - 1 + |songs|;
    if a < 0 then
      ModSelf(1);
      JsRem(a, |songs|)
    else if a < |songs| then
      ModSmall(a, |songs|);
      JsRem(a, |songs|)
    else
      ModShift(a - |songs|, |songs|);
      JsRem(a, |songs|)
  }

  lemma ModShift(a: int, n: int)
    requires 0 <= a < n
    ensures (a + n) % n == a
  {
  }

  /** `handleNext`: the queue comes first; without a queue, the song after
      the current one in the results, wrapping from the last to the first
      (and to the first when the current song is not among them). Nothing
      happens without a current song or without results. */
  function HandleNext(p: Player): (r: Player)
    ensures p.queue != [] ==> r == PlayNextFromQueue(p).1
    ensures p.queue == [] && (p.current.None? || p.songs == []) ==> r == p
    ensures p.queue == [] && p.current.Some? && p.songs != [] ==>
      r == p.(current := Some(p.songs[NextIndex(p.songs, p.current.value.id)]), isPlaying := true)
  {
    var (played, q) := PlayNextFromQueue(p);
    if played then q
    else if p.current.None? || p.songs == [] then p
    else p.(current := Some(p.songs[NextIndex(p.songs, p.current.value.id)]), isPlaying := true)
  }

  /** `handlePrevious`: the song before the current one, wrapping from the
      first to the last; the queue is neither used nor changed. */
  function HandlePrevious(p: Player): (r: Player)
    ensures r.queue == p.queue && r.songs == p.songs
    ensures p.current.None? || p.songs == [] ==> r == p
    ensures p.current.Some? && p.songs != [] ==>
      r == p.(current := Some(p.songs[PreviousIndex(p.songs, p.current.value.id)]), isPlaying := true)
  {
    if p.current.None? || p.songs == [] then p
    else p.(current := Some(p.songs[PreviousIndex(p.songs, p.current.value.id)]), isPlaying := true)
  }

  /** In results without repeated ids, the id at index k is found at k. */
  lemma FindIndexOfUnique(songs: seq<Song>, k: nat)
    requires UniqueIds(songs) && k < |songs|
    ensures HasId(songs, songs[k].id)
    ensures FindIndex(songs, songs[k].id) == k
  {
    var i := FindIndex(songs, songs[k].id);
    assert 0 <= i;
  }

  /** With an empty queue, Previous undoes Next whenever the results have
      no repeated ids and the current song is among them. */
  lemma PreviousUndoesNext(p: Player, k: nat)
    requires p.queue == [] && UniqueIds(p.songs) && k < |p.songs|
    requires p.current == Some(p.songs[k])
    ensures HandlePrevious(HandleNext(p)).current == p.current
  {
    FindIndexOfUnique(p.songs, k);
    var n := NextIndex(p.songs, p.songs[k].id);
    FindIndexOfUnique(p.songs, n);
  }

  /** Next from the last result plays the first one. */
  lemma NextWrapsAround(p: Player)
    requires p.queue == [] && UniqueIds(p.songs) && p.songs != []
    requires p.current == Some(p.songs[|p.songs| - 1])
    ensures HandleNext(p).current == Some(p.songs[0]) && HandleNext(p).isPlaying
  {
    FindIndexOfUnique(p.songs, |p.songs| - 1);
  }

  /** The drop handler's update: a song whose id is already queued is
      ignored, any other is appended. `None` is a drop with no or
      unparseable data, which leaves the queue alone. */
  function Drop(q: seq<Song>, dropped: Option<Song>): (r: seq<Song>)
    ensures dropped.None? || HasId(q, dropped.value.id) ==> r == q
    ensures dropped.Some? && !HasId(q, dropped.value.id) ==> r == q + [dropped.value]
  {
    if dropped.None? || HasId(q, dropped.value.id) then q else q + [dropped.value]
  }

  /** Dropping keeps the queue's ids unique. */
  lemma DropKeepsUnique(q: seq<Song>, dropped: Option<Song>)
    requires UniqueIds(q)
    ensures UniqueIds(Drop(q, dropped))
  {
    if dropped.Some? && !HasId(q, dropped.value.id) {
      var r := Drop(q, dropped);
      forall i, j | 0 <= i < j < |r| ensures r[i].id != r[j].id {
        if j == |q| {
          assert r[i] == q[i];
        }
      }
    }
  }

  /** `prev.filter(song => song.id !== songId)`. */
  function RemoveId(q: seq<Song>, id: string): (r: seq<Song>)
    ensures |r| <= |q|
    ensures forall s :: s in r <==> s in q && s.id != id
    ensures !HasId(r, id)
    ensures !HasId(q, id) ==> r == q
  {
    if q == [] then []
    else
      var rest := RemoveId(q[1..], id);
      assert forall j :: 0 < j < |q| ==> q[j] == q[1..][j - 1];
      if q[0].id == id then rest
      else
        var r := [q[0]] + rest;
        assert forall j :: 0 < j < |r| ==> r[j] == rest[j - 1];
        r
  }

  /** Removing works piecewise, so the remaining songs keep their order. */
  lemma {:induction false} RemoveIdConcat(a: seq<Song>, b: seq<Song>, id: string)
    ensures RemoveId(a + b, id) == RemoveId(a, id) + RemoveId(b, id)
    decreases |a|
  {
    if a == [] {
      assert a + b == b;
    } else {
      assert (a + b)[1..] == a[1..] + b;
      RemoveIdConcat(a[1..], b, id);
    }
  }

  /** Removing keeps the queue's ids unique. */
  lemma {:induction false} RemoveKeepsUnique(q: seq<Song>, id: string)
    requires UniqueIds(q)
    ensures UniqueIds(RemoveId(q, id))
    decreases |q|
  {
    if q != [] {
      UniqueTail(q);
      RemoveKeepsUnique(q[1..], id);
      var rest := RemoveId(q[1..], id);
      if q[0].id != id {
        forall x | x in rest ensures x.id != q[0].id {
          var m :| 0 <= m < |q[1..]| && q[1..][m] == x;
          assert q[m + 1] == x;
        }
        ConsUnique(q[0], rest);
      }
    }
  }

  lemma UniqueTail(q: seq<Song>)
    requires UniqueIds(q) && q != []
    ensures UniqueIds(q[1..])
  {
    forall i, j | 0 <= i < j < |q[1..]| ensures q[1..][i].id != q[1..][j].id {
      assert q[1..][i] == q[i + 1] && q[1..][j] == q[j + 1];
    }
  }

  /** With unique ids, playing the next queued song is playing the queue's
      head from the queue: it becomes current and leaves the queue. */
  lemma PlayNextIsPlayFromQueue(p: Player)
    requires UniqueIds(p.queue) && p.queue != []
    ensures PlayNextFromQueue(p) == (true, PlayFromQueue(p, p.queue[0]))
  {
    var q := p.queue;
    assert !HasId(q[1..], q[0].id) by {
      forall j | 0 <= j < |q[1..]| ensures q[1..][j].id != q[0].id {
        assert q[1..][j] == q[j + 1];
      }
    }
    assert RemoveId(q, q[0].id) == RemoveId(q[1..], q[0].id);
  }

  /** Playing the next queued song keeps the queue's ids unique. */
  lemma PlayNextKeepsUnique(p: Player)
    requires UniqueIds(p.queue)
    ensures UniqueIds(PlayNextFromQueue(p).1.queue)
  {
    if p.queue != [] {
      UniqueTail(p.queue);
    }
  }

  /** A song dropped onto an empty queue is the next one played, and the
      queue is empty again. */
  lemma DropThenPlayNext(p: Player, song: Song)
    requires p.queue == []
    ensures PlayNextFromQueue(p.(queue := Drop(p.queue, Some(song)))) == (true, Player(p.songs, Some(song), true, []))
  {
    var q := Drop(p.queue, Some(song));
    assert q == [song];
    assert q[1..] == [];
  }

  /** A song whose id is not among the rest keeps the ids unique. */
  lemma ConsUnique(s: Song, rest: seq<Song>)
    requires UniqueIds(rest) && forall x :: x in rest ==> x.id != s.id
    ensures UniqueIds([s] + rest)
  {
    var r := [s] + rest;
    forall i, j | 0 <= i < j < |r| ensures r[i].id != r[j].id {
      assert r[j] == rest[j - 1] && rest[j - 1] in rest;
      if i > 0 {
        assert r[i] == rest[i - 1];
      }
    }
  }

  /** `handleRemoveFromQueue`. */
  function RemoveFromQueue(p: Player, songId: string): (r: Player)
    ensures r == p.(queue := RemoveId(p.queue, songId))
    ensures !HasId(r.queue, songId)
  {
    p.(queue := RemoveId(p.queue, songId))
  }

  /** `handlePlayFromQueue`: the song becomes current and plays, and leaves the queue. */
  function PlayFromQueue(p: Player, song: Song): (r: Player)
    ensures r.current == Some(song) && r.isPlaying && r.songs == p.songs
    ensures r.queue == RemoveId(p.queue, song.id)
    ensures !HasId(r.queue, song.id)
  {
    Player(p.songs, Some(song), true, RemoveId(p.queue, song.id))
  }

  /** `splice(i, 1)`: the sequence without its i-th element. */
  function RemoveAt<T>(q: seq<T>, i: nat): (r: seq<T>)
    requires i < |q|
    ensures |r| == |q| - 1
    ensures forall k :: 0 <= k < i ==> r[k] == q[k]
    ensures forall k :: i <= k < |r| ==> r[k] == q[k + 1]
  {
    q[..i] + q[i + 1..]
  }

  /** `splice(i, 0, x)`, with JavaScript's clamping of an index past the end. */
  function InsertAt<T>(q: seq<T>, i: nat, x: T): (r: seq<T>)
    ensures |r| == |q| + 1
    ensures var j := if i <= |q| then i else |q|;
      r[j] == x && (forall k :: 0 <= k < j ==> r[k] == q[k]) && (forall k :: j < k < |r| ==> r[k] == q[k - 1])
  {
    var j := if i <= |q| then i else |q|;
    q[..j] + [x] + q[j..]
  }

  /** Where the dragged item ends up in a queue of `n` items. */
  function DropSlot(n: nat, dropIndex: nat): (j: nat)
    requires n > 0
    ensures j < n
  {
    if dropIndex <= n - 1 then dropIndex else n - 1
  }

  /** `handleQueueItemDrop`'s update: the dragged item is taken out and put
      back in at the drop index; without a dragged index the queue stays. */
  function Reorder(q: seq<Song>, dragged: Option<nat>, dropIndex: nat): (r: seq<Song>)
    requires dragged.Some? ==> dragged.value < |q|
    ensures |r| == |q|
    ensures dragged.None? ==> r == q
    ensures dragged.Some? ==> r[DropSlot(|q|, dropIndex)] == q[dragged.value]
    ensures dragged.Some? ==> RemoveAt(r, DropSlot(|q|, dropIndex)) == RemoveAt(q, dragged.value)
  {
    if dragged.None? then q
    else
      var rest := RemoveAt(q, dragged.value);
      var r := InsertAt(rest, dropIndex, q[dragged.value]);
      assert RemoveAt(r, DropSlot(|q|, dropIndex)) == rest;
      r
  }

  /** Reordering only permutes the queue. */
  lemma ReorderIsPermutation(q: seq<Song>, dragged: Option<nat>, dropIndex: nat)
    requires dragged.Some? ==> dragged.value < |q|
    ensures multiset(Reorder(q, dragged, dropIndex)) == multiset(q)
  {
    if dragged.Some? {
      var i := dragged.value;
      var j := DropSlot(|q|, dropIndex);
      var r := Reorder(q, dragged, dropIndex);
      SplitAt(q, i);
      SplitAt(r, j);
    }
  }

  /** A sequence is its element at i plus the rest. */
  lemma SplitAt<T>(q: seq<T>, i: nat)
    requires i < |q|
    ensures multiset(q) == multiset(RemoveAt(q, i)) + multiset{q[i]}
  {
    assert q == q[..i] + [q[i]] + q[i + 1..];
  }

  /** Dragging an item back to where it came from restores the queue. */
  lemma ReorderUndo(q: seq<Song>, i: nat, j: nat)
    requires i < |q| && j < |q|
    ensures Reorder(Reorder(q, Some(i), j), Some(j), i) == q
  {
    var r := Reorder(q, Some(i), j);
    var back := Reorder(r, Some(j), i);
    assert RemoveAt(back, i) == RemoveAt(q, i);
    assert back[i] == q[i];
    forall k | 0 <= k < |q| ensures back[k] == q[k] {
      if k < i {
        assert back[k] == RemoveAt(back, i)[k];
      } else if k > i {
        assert back[k] == RemoveAt(back, i)[k - 1];
      }
    }
  }

  /** Reordering keeps the queue's ids unique. */
  lemma ReorderKeepsUnique(q: seq<Song>, dragged: Option<nat>, dropIndex: nat)
    requires dragged.Some? ==> dragged.value < |q|
    requires UniqueIds(q)
    ensures UniqueIds(Reorder(q, dragged, dropIndex))
  {
    if dragged.Some? {
      var i := dragged.value;
      var j := DropSlot(|q|, dropIndex);
      var r := Reorder(q, dragged, dropIndex);
      var rest := RemoveAt(q, i);
      // each position of r comes from a distinct position of q
      forall a, b | 0 <= a < b < |r| ensures r[a].id != r[b].id {
        var qa := Origin(i, j, a);
        var qb := Origin(i, j, b);
        OriginOf(q, r, i, j, a);
        OriginOf(q, r, i, j, b);
      }
    }
  }

  /** The index of q that position `a` of the reordered queue holds. */
  function Origin(i: nat, j: nat, a: nat): nat {
    if a == j then i
    else
      var k := if a < j then a else a - 1;
      if k < i then k else k + 1
  }

  lemma OriginOf(q: seq<Song>, r: seq<Song>, i: nat, j: nat, a: nat)
    requires i < |q| && j < |q| && a < |q| && |r| == |q|
    requires r[j] == q[i] && RemoveAt(r, j) == RemoveAt(q, i)
    ensures Origin(i, j, a) < |q| && r[a] == q[Origin(i, j, a)]
  {
    if a != j {
      var k := if a < j then a else a - 1;
      assert r[a] == RemoveAt(r, j)[k];
    }
  }
}
