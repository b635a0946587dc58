/** The WebSocket server's room roster and its cursor-colour rotation. A room holds the
    ids of its players in joining order, at most `maxPlayers` of them, none twice. */
module Rooms {
  import Seqs

  datatype RoomState = Waiting | Playing | Finished

  datatype GameRoom = GameRoom(
    id: string,
    name: string,
    players: seq<string>,
    maxPlayers: nat,
    gameState: RoomState,
    createdAt: nat)

  /** What `add_player` and `remove_player` keep true of a room. */
  predicate RoomInvariant(room: GameRoom) {
    Seqs.NoDuplicates(room.players) && |room.players| <= room.maxPlayers
  }

  /** `GameRoom::new`, with the generated id and the clock reading passed in. */
  function NewRoom(id: string, name: string, maxPlayers: nat, now: nat): (room: GameRoom)
    ensures room.players == [] && room.gameState == Waiting
    ensures room.id == id && room.name == name && room.maxPlayers == maxPlayers && room.createdAt == now
    ensures RoomInvariant(room)
  {
    GameRoom(id, name, [], maxPlayers, Waiting, now)
  }

  /** `is_full`. */
  function IsFull(room: GameRoom): (b: bool)
    ensures RoomInvariant(room) ==> (b <==> |room.players| == room.maxPlayers)
  {
    |room.players| >= room.maxPlayers
  }

  /** `add_player`: joins at the end when there is room and the id is not already present;
      a refusal changes nothing. */
  function AddPlayer(room: GameRoom, p: string): (r: (GameRoom, bool))
    ensures r.1 <==> |room.players| < room.maxPlayers && p !in room.players
    ensures r.1 ==> r.0 == room.(players := room.players + [p])
    ensures !r.1 ==> r.0 == room
    ensures RoomInvariant(room) ==> RoomInvariant(r.0)
  {
    if |room.players| < room.maxPlayers && p !in room.players then
      var players := room.players + [p];
      assert forall i | 0 <= i < |room.players| :: players[i] == room.players[i];
      (room.(players := players), true)
    else (room, false)
  }

  /** `remove_player`: drops the first occurrence of the id, keeping the others in order. */
  function RemovePlayer(room: GameRoom, p: string): (r: (GameRoom, bool))
    ensures r.1 <==> p in room.players
    ensures !r.1 ==> r.0 == room
    ensures r.1 ==> |r.0.players| == |room.players| - 1
    ensures r.1 ==> exists i | 0 <= i < |room.players| ::
      room.players[i] == p && p !in room.players[..i] && r.0.players == room.players[..i] + room.players[i + 1..]
    ensures multiset(r.0.players) == multiset(room.players) - multiset{p}
    ensures r.0 == room.(players := r.0.players)
  {
    var (players, found) := Seqs.RemoveFirst(room.players, p);
    (room.(players := players), found)
  }

  /** On a room that keeps the invariant, removal keeps it, and afterwards the id is gone
      while every other player stays. */
  lemma RemovePlayerKeepsInvariant(room: GameRoom, p: string)
    requires RoomInvariant(room)
    ensures RoomInvariant(RemovePlayer(room, p).0)
    ensures p !in RemovePlayer(room, p).0.players
    ensures forall q :: q in RemovePlayer(room, p).0.players <==> q in room.players && q != p
  {
    Seqs.RemoveFirstNoDuplicates(room.players, p);
  }

  /** Under the invariant, a newcomer is refused exactly when the room is full. */
  lemma FullIffNewcomerRefused(room: GameRoom, p: string)
    requires p !in room.players
    ensures AddPlayer(room, p).1 <==> !IsFull(room)
  {
  }

  /** A successful join followed by a leave of the same id restores the room. */
  lemma {:induction false} JoinThenLeave(room: GameRoom, p: string)
    requires AddPlayer(room, p).1
    ensures RemovePlayer(AddPlayer(room, p).0, p) == (room, true)
  {
    var players := room.players + [p];
    var i := |room.players|;
    assert players[i] == p;
    assert players[..i] == room.players;
    match Seqs.IndexOf(players, p)
    case Some(j) =>
      assert j == i;
      assert Seqs.RemoveAt(players, i) == room.players;
    case None =>
      assert false;
  }

  // ---------------------------------------------------------------------------
  // Cursor colours
  // ---------------------------------------------------------------------------

  /** The colour index handed to the first player to join. */
  const FirstColorIndex: nat := 1

  /** The counter update after each assignment: 1, 2, 3, 4, 5, then back to 1. */
  function NextColorIndex(c: nat): (r: nat)
    ensures 1 <= r <= 5
    ensures 1 <= c < 5 ==> r == c + 1
    ensures c == 5 ==> r == 1
  {
    (c % 5) + 1
  }

  /** The colour index the `k`-th joining player (from 0) receives. */
  function ColorOf(k: nat): (r: nat)
    ensures 1 <= r <= 5
    decreases k
  {
    if k == 0 then FirstColorIndex else NextColorIndex(ColorOf(k - 1))
  }

  /** The sixth player from any point gets the same colour as the first. */
  lemma {:induction false} ColorRepeatsAfterFive(k: nat)
    ensures ColorOf(k + 5) == ColorOf(k)
  {
    var c := ColorOf(k);
    var c1 := ColorOf(k + 1);
    var c2 := ColorOf(k + 2);
    var c3 := ColorOf(k + 3);
    var c4 := ColorOf(k + 4);
    assert c1 == NextColorIndex(c) && c2 == NextColorIndex(c1) && c3 == NextColorIndex(c2);
    assert c4 == NextColorIndex(c3) && ColorOf(k + 5) == NextColorIndex(c4);
  }

  /** The `k`-th player receives colour `k mod 5 + 1`. */
  lemma {:induction false} ColorOfIsModular(k: nat)
    ensures ColorOf(k) == k % 5 + 1
    decreases k
  {
    if k < 5 {
      assert ColorOf(0) == 1 && ColorOf(1) == 2 && ColorOf(2) == 3;
      assert ColorOf(3) == 4 && ColorOf(4) == 5;
    } else {
      ColorOfIsModular(k - 5);
      ColorRepeatsAfterFive(k - 5);
      assert (k - 5) % 5 == k % 5;
    }
  }

  /** Two players fewer than five joins apart get different colours. */
  lemma {:induction false} ColorsDifferWithinFive(i: nat, j: nat)
    requires i < j < i + 5
    ensures ColorOf(i) != ColorOf(j)
  {
    ColorOfIsModular(i);
    ColorOfIsModular(j);
    var qi, ri := i / 5, i % 5;
    var qj, rj := j / 5, j % 5;
    assert i == 5 * qi + ri && j == 5 * qj + rj;
    if ri == rj {
      assert false;
    }
  }

  /** Five consecutive players get five different colours, and the sixth repeats the first. */
  lemma ColorsCycleEveryFive(k: nat)
    ensures forall i, j | k <= i < j < k + 5 :: ColorOf(i) != ColorOf(j)
    ensures ColorOf(k + 5) == ColorOf(k)
  {
    forall i, j | k <= i < j < k + 5
      ensures ColorOf(i) != ColorOf(j)
    {
      ColorsDifferWithinFive(i, j);
    }
    ColorRepeatsAfterFive(k);
  }
}
