/** Game-session logic: the phase state machine, player-count bounds, the round-robin
    turn queue, and the systems that advance phases and expired turns. Clock readings
    are parameters (`now`, in whole seconds). */
module Game {
  import opened Optional
  import opened Ecs
  import Seqs

  // ---------------------------------------------------------------------------
  // Phases
  // ---------------------------------------------------------------------------

  datatype GamePhase = WaitingForPlayers | Starting | Playing | Paused | Finished | Aborted

  /** `can_transition_to`. */
  function CanTransitionTo(from: GamePhase, target: GamePhase): (b: bool)
    ensures target == Aborted ==> b
    ensures from == target ==> (b <==> target == Aborted)
    ensures target == Starting ==> (b <==> from == WaitingForPlayers)
    ensures target == WaitingForPlayers ==> (b <==> from in {Finished, Aborted})
  {
    match (from, target)
    case (WaitingForPlayers, Starting) => true
    case (Starting, Playing) => true
    case (Playing, Paused) => true
    case (Paused, Playing) => true
    case (Playing, Finished) => true
    case (_, Aborted) => true
    case (Finished, WaitingForPlayers) => true
    case (Aborted, WaitingForPlayers) => true
    case _ => false
  }

  /** The allowed transitions, listed one by one. */
  const AllowedTransitions: set<(GamePhase, GamePhase)> := {
    (WaitingForPlayers, Starting),
    (Starting, Playing),
    (Playing, Paused), (Paused, Playing),
    (Playing, Finished),
    (WaitingForPlayers, Aborted), (Starting, Aborted), (Playing, Aborted),
    (Paused, Aborted), (Finished, Aborted), (Aborted, Aborted),
    (Finished, WaitingForPlayers), (Aborted, WaitingForPlayers)
  }

  /** `can_transition_to` accepts exactly the listed transitions and rejects every other pair. */
  lemma TransitionsAreExactlyTheListed(from: GamePhase, target: GamePhase)
    ensures CanTransitionTo(from, target) <==> (from, target) in AllowedTransitions
  {
  }

  /** Every phase may abort; a finished or aborted game can only restart or abort. */
  lemma TransitionConsequences(from: GamePhase, target: GamePhase)
    ensures CanTransitionTo(from, Aborted)
    ensures from in {Finished, Aborted} && CanTransitionTo(from, target) ==> target in {WaitingForPlayers, Aborted}
    ensures CanTransitionTo(from, Playing) <==> from in {Starting, Paused}
  {
  }

  // ---------------------------------------------------------------------------
  // GameState
  // ---------------------------------------------------------------------------

  datatype GameSettings = GameSettings(
    timeLimit: nat,
    turnTimeLimit: nat,
    debugMode: bool,
    autoSave: bool,
    allowSpectators: bool)

  /** `GameSettings::default`: no game time limit, 30 seconds per turn. */
  const DefaultSettings: GameSettings := GameSettings(0, 30, false, true, true)

  datatype GameState = GameState(
    sessionId: string,
    phase: GamePhase,
    startTime: nat,
    maxPlayers: nat,
    currentPlayers: nat,
    settings: GameSettings)

  /** The player count never exceeds the maximum. */
  predicate PlayersWithinMax(gs: GameState) {
    gs.currentPlayers <= gs.maxPlayers
  }

  /** `GameState::new`, with the clock reading passed in: waiting, no players yet. */
  function NewGameState(sessionId: string, maxPlayers: nat, now: nat): (gs: GameState)
    ensures gs.phase == WaitingForPlayers && gs.currentPlayers == 0
    ensures gs.sessionId == sessionId && gs.maxPlayers == maxPlayers && gs.startTime == now
    ensures gs.settings == DefaultSettings
    ensures PlayersWithinMax(gs)
  {
    GameState(sessionId, WaitingForPlayers, now, maxPlayers, 0, DefaultSettings)
  }

  /** `can_start`. */
  function CanStart(gs: GameState): (b: bool)
    ensures b ==> CanTransitionTo(gs.phase, Starting) && PlayersWithinMax(gs)
    ensures b <==> gs.phase == WaitingForPlayers && 2 <= gs.currentPlayers <= gs.maxPlayers
  {
    gs.phase == WaitingForPlayers && gs.currentPlayers >= 2 && gs.currentPlayers <= gs.maxPlayers
  }

  /** `change_phase`: sets the phase without checking the transition. */
  function ChangePhase(gs: GameState, phase: GamePhase): (r: GameState)
    ensures r.phase == phase
    ensures r.sessionId == gs.sessionId && r.startTime == gs.startTime && r.settings == gs.settings
    ensures r.currentPlayers == gs.currentPlayers && r.maxPlayers == gs.maxPlayers
  {
    gs.(phase := phase)
  }

  /** `add_player`: succeeds only below the maximum; a refusal changes nothing. */
  function AddPlayer(gs: GameState): (r: (GameState, bool))
    ensures r.1 <==> gs.currentPlayers < gs.maxPlayers
    ensures r.1 ==> r.0 == gs.(currentPlayers := gs.currentPlayers + 1)
    ensures !r.1 ==> r.0 == gs
    ensures PlayersWithinMax(gs) ==> PlayersWithinMax(r.0)
  {
    if gs.currentPlayers < gs.maxPlayers then (gs.(currentPlayers := gs.currentPlayers + 1), true)
    else (gs, false)
  }

  /** `remove_player`: succeeds only above zero; a refusal changes nothing. */
  function RemovePlayer(gs: GameState): (r: (GameState, bool))
    ensures r.1 <==> gs.currentPlayers > 0
    ensures r.1 ==> r.0 == gs.(currentPlayers := gs.currentPlayers - 1)
    ensures !r.1 ==> r.0 == gs
    ensures PlayersWithinMax(gs) ==> PlayersWithinMax(r.0)
  {
    if gs.currentPlayers > 0 then (gs.(currentPlayers := gs.currentPlayers - 1), true)
    else (gs, false)
  }

  /** A successful join is undone by a leave, and a successful leave by a join. */
  lemma JoinLeaveRoundTrip(gs: GameState)
    requires PlayersWithinMax(gs)
    ensures AddPlayer(gs).1 ==> RemovePlayer(AddPlayer(gs).0) == (gs, true)
    ensures RemovePlayer(gs).1 ==> AddPlayer(RemovePlayer(gs).0) == (gs, true)
  {
  }

  /** A fresh game with room for two becomes startable after two joins, and not before. */
  lemma {:induction false} TwoJoinsMakeStartable(sessionId: string, maxPlayers: nat, now: nat)
    requires maxPlayers >= 2
    ensures var g0 := NewGameState(sessionId, maxPlayers, now);
      var g1 := AddPlayer(g0).0;
      var g2 := AddPlayer(g1).0;
      !CanStart(g0) && !CanStart(g1) && CanStart(g2)
  {
    var g0 := NewGameState(sessionId, maxPlayers, now);
    assert AddPlayer(g0).1;
    var g1 := AddPlayer(g0).0;
    assert AddPlayer(g1).1;
  }

  // ---------------------------------------------------------------------------
  // TurnManager
  // ---------------------------------------------------------------------------

  datatype TurnManager = TurnManager(
    currentPlayer: Option<Entity>,
    turnOrder: seq<Entity>,
    turnNumber: nat,
    turnStartTime: nat,
    turnTimeLimit: nat)

  /** `front()` of the queue. */
  function Front(q: seq<Entity>): Option<Entity> {
    if |q| == 0 then None else Some(q[0])
  }

  /** The current player is the one at the front of the queue. */
  predicate CurrentIsFront(tm: TurnManager) {
    tm.currentPlayer == Front(tm.turnOrder)
  }

  /** `TurnManager::new`, with the clock reading passed in. */
  function NewTurnManager(players: seq<Entity>, turnTimeLimit: nat, now: nat): (tm: TurnManager)
    ensures tm.turnOrder == players && tm.turnNumber == 1
    ensures tm.currentPlayer.None? <==> |players| == 0
    ensures |players| > 0 ==> tm.currentPlayer == Some(players[0])
    ensures tm.turnStartTime == now && tm.turnTimeLimit == turnTimeLimit
  {
    TurnManager(Front(players), players, 1, now, turnTimeLimit)
  }

  /** `next_turn`: the front player moves to the back, the new front becomes current,
      and the turn number goes up by one. The players themselves do not change. */
  function NextTurn(tm: TurnManager, now: nat): (r: (TurnManager, Option<Entity>))
    ensures |tm.turnOrder| > 0 ==> r.0.turnOrder == tm.turnOrder[1..] + [tm.turnOrder[0]]
    ensures |tm.turnOrder| == 0 ==> r.0.turnOrder == []
    ensures multiset(r.0.turnOrder) == multiset(tm.turnOrder)
    ensures CurrentIsFront(r.0) && r.1 == r.0.currentPlayer
    ensures r.0.turnNumber == tm.turnNumber + 1
    ensures r.0.turnStartTime == now && r.0.turnTimeLimit == tm.turnTimeLimit
  {
    var q := tm.turnOrder;
    var q' := if |q| > 0 then q[1..] + [q[0]] else q;
    assert |q| > 0 ==> q == [q[0]] + q[1..];
    var current := Front(q');
    (TurnManager(current, q', tm.turnNumber + 1, now, tm.turnTimeLimit), current)
  }

  /** Takes `k` turns in a row. */
  function NextTurns(tm: TurnManager, k: nat, now: nat): TurnManager
    decreases k
  {
    if k == 0 then tm else NextTurn(NextTurns(tm, k - 1, now), now).0
  }

  /** Round robin: after `k` turns (k at most the number of players) the queue is the
      original rotated left by `k`. */
  lemma {:induction false} NextTurnsRotate(tm: TurnManager, k: nat, now: nat)
    requires 0 < |tm.turnOrder| && k <= |tm.turnOrder|
    ensures NextTurns(tm, k, now).turnOrder == tm.turnOrder[k..] + tm.turnOrder[..k]
    ensures NextTurns(tm, k, now).turnNumber == tm.turnNumber + k
    decreases k
  {
    var q := tm.turnOrder;
    if k == 0 {
      assert q[0..] + q[..0] == q;
    } else {
      NextTurnsRotate(tm, k - 1, now);
      var prev := NextTurns(tm, k - 1, now);
      RotateStep(q, k);
      assert NextTurns(tm, k, now) == NextTurn(prev, now).0;
    }
  }

  /** Rotating `q[k - 1..] + q[..k - 1]` left by one gives `q[k..] + q[..k]`. */
  lemma RotateStep(q: seq<Entity>, k: nat)
    requires 0 < k <= |q|
    ensures var p := q[k - 1..] + q[..k - 1];
      |p| > 0 && p[1..] + [p[0]] == q[k..] + q[..k]
  {
    var p := q[k - 1..] + q[..k - 1];
    assert p[0] == q[k - 1];
    assert p[1..] == q[k..] + q[..k - 1];
    assert q[..k] == q[..k - 1] + [q[k - 1]];
  }

  /** After `k` turns (0 < k at most the number of players) the player `k` places on from
      the original front is current; after a full round the original front is current again. */
  lemma {:induction false} NextTurnsCurrent(tm: TurnManager, k: nat, now: nat)
    requires 0 < k <= |tm.turnOrder|
    ensures k < |tm.turnOrder| ==> NextTurns(tm, k, now).currentPlayer == Some(tm.turnOrder[k])
    ensures k == |tm.turnOrder| ==> NextTurns(tm, k, now).currentPlayer == Some(tm.turnOrder[0])
  {
    var q := tm.turnOrder;
    var after := NextTurns(tm, k, now);
    assert after == NextTurn(NextTurns(tm, k - 1, now), now).0;
    assert CurrentIsFront(after);
    NextTurnsRotate(tm, k, now);
    var rotated := q[k..] + q[..k];
    assert after.turnOrder == rotated;
    if k < |q| {
      assert rotated[0] == q[k];
    } else {
      assert rotated[0] == q[0];
    }
  }

  /** After one turn per player the queue is back in its original order and the first
      player is current again. */
  lemma FullRoundRestoresOrder(tm: TurnManager, now: nat)
    requires |tm.turnOrder| > 0
    ensures NextTurns(tm, |tm.turnOrder|, now).turnOrder == tm.turnOrder
    ensures NextTurns(tm, |tm.turnOrder|, now).currentPlayer == Some(tm.turnOrder[0])
  {
    var q := tm.turnOrder;
    NextTurnsCurrent(tm, |q|, now);
    NextTurnsRotate(tm, |q|, now);
    assert q[|q|..] + q[..|q|] == q;
  }

  /** The queue rotated left one place `k` times. */
  function Rotate(q: seq<Entity>, k: nat): seq<Entity>
    decreases k
  {
    if k == 0 then q
    else
      var p := Rotate(q, k - 1);
      if |p| > 0 then p[1..] + [p[0]] else p
  }

  /** `k` turns rotate the queue left `k` times. */
  lemma {:induction false} NextTurnsOrderIsRotate(tm: TurnManager, k: nat, now: nat)
    ensures NextTurns(tm, k, now).turnOrder == Rotate(tm.turnOrder, k)
    decreases k
  {
    if k > 0 {
      NextTurnsOrderIsRotate(tm, k - 1, now);
    }
  }

  /** Rotating `a` times and then `b` more is rotating `a + b` times. */
  lemma {:induction false} RotateAdd(q: seq<Entity>, a: nat, b: nat)
    ensures Rotate(q, a + b) == Rotate(Rotate(q, a), b)
    decreases b
  {
    if b > 0 {
      RotateAdd(q, a, b - 1);
      assert Rotate(q, a + b) == var p := Rotate(q, a + (b - 1)); if |p| > 0 then p[1..] + [p[0]] else p;
    }
  }

  /** Round robin over any number of rounds: after `m` full rounds and `k` more turns the
      queue is the original rotated left by `k`, and (once any turn was taken) its front is
      current. Every count of turns has this form, with `k` below the number of players. */
  lemma {:induction false} NextTurnsAnyRound(tm: TurnManager, m: nat, k: nat, now: nat)
    requires 0 < |tm.turnOrder| && k <= |tm.turnOrder|
    ensures NextTurns(tm, m * |tm.turnOrder| + k, now).turnOrder == tm.turnOrder[k..] + tm.turnOrder[..k]
    ensures m * |tm.turnOrder| + k > 0 ==>
      NextTurns(tm, m * |tm.turnOrder| + k, now).currentPlayer == Front(tm.turnOrder[k..] + tm.turnOrder[..k])
  {
    var q := tm.turnOrder;
    var total := m * |q| + k;
    RotateRounds(q, m, k);
    NextTurnsOrderIsRotate(tm, total, now);
    if total > 0 {
      assert NextTurns(tm, total, now) == NextTurn(NextTurns(tm, total - 1, now), now).0;
    }
  }

  /** The sequence half of `NextTurnsAnyRound`. */
  lemma {:induction false} RotateRounds(q: seq<Entity>, m: nat, k: nat)
    requires 0 < |q| && k <= |q|
    ensures Rotate(q, m * |q| + k) == q[k..] + q[..k]
    decreases m
  {
    if m == 0 {
      var tm0 := TurnManager(None, q, 0, 0, 0);
      NextTurnsRotate(tm0, k, 0);
      NextTurnsOrderIsRotate(tm0, k, 0);
    } else {
      RotateRounds(q, m - 1, k);
      var j := m * |q| + k;
      assert j - |q| == (m - 1) * |q| + k by {
        MulPred(m, |q|);
      }
      RotatePeriodic(q, j);
    }
  }

  /** One factor of `m * n` peeled off. */
  lemma MulPred(m: nat, n: nat)
    requires m > 0
    ensures m * n == (m - 1) * n + n
  {
  }

  /** Rotating a full round more changes nothing. */
  lemma RotatePeriodic(q: seq<Entity>, j: nat)
    requires 0 < |q| <= j
    ensures Rotate(q, j) == Rotate(q, j - |q|)
  {
    RotateAdd(q, |q|, j - |q|);
    RotateFullRound(q);
  }

  /** One rotation per player restores the queue. */
  lemma RotateFullRound(q: seq<Entity>)
    requires 0 < |q|
    ensures Rotate(q, |q|) == q
  {
    var tm0 := TurnManager(None, q, 0, 0, 0);
    FullRoundRestoresOrder(tm0, 0);
    NextTurnsOrderIsRotate(tm0, |q|, 0);
  }

  /** `remaining_time`, with the clock reading passed in: None without a turn limit,
      otherwise the seconds left, 0 once the limit is reached. A clock behind the turn
      start counts as no time elapsed. */
  function RemainingTime(tm: TurnManager, now: nat): (r: Option<nat>)
    ensures r.None? <==> tm.turnTimeLimit == 0
    ensures r.Some? ==> r.value <= tm.turnTimeLimit
    ensures r.Some? && now <= tm.turnStartTime ==> r.value == tm.turnTimeLimit
    ensures r.Some? && tm.turnStartTime <= now < tm.turnStartTime + tm.turnTimeLimit ==>
      r.value == tm.turnStartTime + tm.turnTimeLimit - now
    ensures r.Some? && now >= tm.turnStartTime + tm.turnTimeLimit ==> r.value == 0
  {
    if tm.turnTimeLimit == 0 then None
    else
      var elapsed := if now >= tm.turnStartTime then now - tm.turnStartTime else 0;
      if elapsed >= tm.turnTimeLimit then Some(0) else Some(tm.turnTimeLimit - elapsed)
  }

  /** `is_time_up`. */
  function IsTimeUp(tm: TurnManager, now: nat): (b: bool)
    ensures b ==> RemainingTime(tm, now) == Some(0)
    ensures RemainingTime(tm, now).None? ==> !b
  {
    match RemainingTime(tm, now)
    case Some(remaining) => remaining == 0
    case None => false
  }

  /** A turn is up exactly when it has a limit and the limit has fully elapsed. */
  lemma TimeUpIffLimitElapsed(tm: TurnManager, now: nat)
    ensures IsTimeUp(tm, now) <==> tm.turnTimeLimit > 0 && now >= tm.turnStartTime + tm.turnTimeLimit
  {
  }

  /** `TurnManager::remove_player`: drops every occurrence of `p`; if `p` was current, the new
      front becomes current. */
  function RemoveTurnPlayer(tm: TurnManager, p: Entity): (r: (TurnManager, bool))
    ensures r.1 <==> p in tm.turnOrder
    ensures p !in r.0.turnOrder
    ensures multiset(r.0.turnOrder) == multiset(tm.turnOrder)[p := 0]
    ensures tm.currentPlayer == Some(p) ==> r.0.currentPlayer == Front(r.0.turnOrder)
    ensures tm.currentPlayer != Some(p) ==> r.0.currentPlayer == tm.currentPlayer
    ensures r.0.turnNumber == tm.turnNumber && r.0.turnStartTime == tm.turnStartTime
    ensures r.0.turnTimeLimit == tm.turnTimeLimit
  {
    var q := Seqs.RemoveAll(tm.turnOrder, p);
    var current := if tm.currentPlayer == Some(p) then Front(q) else tm.currentPlayer;
    (tm.(currentPlayer := current, turnOrder := q), p in tm.turnOrder)
  }

  /** Removal keeps the surviving players in their original relative order: a player `y`
      ahead of a player `z` stays ahead of it, and the rest of the queue is filtered in place. */
  lemma RemoveTurnPlayerKeepsOrder(tm: TurnManager, p: Entity, a: seq<Entity>, y: Entity, b: seq<Entity>, z: Entity, c: seq<Entity>)
    requires tm.turnOrder == a + [y] + b + [z] + c && y != p && z != p
    ensures RemoveTurnPlayer(tm, p).0.turnOrder ==
      Seqs.RemoveAll(a, p) + [y] + Seqs.RemoveAll(b, p) + [z] + Seqs.RemoveAll(c, p)
  {
    Seqs.RemoveAllConcat(a + [y] + b + [z], c, p);
    Seqs.RemoveAllConcat(a + [y] + b, [z], p);
    Seqs.RemoveAllConcat(a + [y], b, p);
    Seqs.RemoveAllConcat(a, [y], p);
  }

  /** Removing a player keeps the current player at the front of the queue. */
  lemma RemoveTurnPlayerKeepsFront(tm: TurnManager, p: Entity)
    requires CurrentIsFront(tm)
    ensures CurrentIsFront(RemoveTurnPlayer(tm, p).0)
  {
    var q := tm.turnOrder;
    if tm.currentPlayer != Some(p) && |q| > 0 {
      assert q == [q[0]] + q[1..];
    }
  }

  // ---------------------------------------------------------------------------
  // Systems
  // ---------------------------------------------------------------------------

  /** The phase change `GameManagementSystem` proposes for one game, if any. */
  function ProposedPhase(gs: GameState): Option<GamePhase> {
    match gs.phase
    case WaitingForPlayers => if CanStart(gs) then Some(Starting) else None
    case Starting => Some(Playing)
    case _ => None
  }

  /** Applies a proposal only when `can_transition_to` allows it. */
  function ApplyProposal(gs: GameState, proposal: Option<GamePhase>): GameState {
    match proposal
    case Some(p) => if CanTransitionTo(gs.phase, p) then ChangePhase(gs, p) else gs
    case None => gs
  }

  /** One game's step of `GameManagementSystem::update`: a startable waiting game starts, a
      starting game begins play, every other game keeps its phase. Only the phase changes,
      and the transition guard never has to refuse a proposal. */
  function ManageGame(gs: GameState): (r: GameState)
    ensures r == gs.(phase := r.phase)
    ensures gs.phase == WaitingForPlayers ==> r.phase == (if CanStart(gs) then Starting else WaitingForPlayers)
    ensures gs.phase == Starting ==> r.phase == Playing
    ensures gs.phase !in {WaitingForPlayers, Starting} ==> r == gs
    ensures r.phase != gs.phase ==> CanTransitionTo(gs.phase, r.phase)
  {
    ApplyProposal(gs, ProposedPhase(gs))
  }

  /** `GameManagementSystem::update` on a World whose components of type `t` are game
      states: every game takes its step, nothing else in the World changes. */
  function GameManagementSystem(w: World<GameState>, t: TypeTag): (r: World<GameState>)
    requires Valid(w)
    ensures Valid(r)
    ensures forall e :: GetComponent(r, e, t) == MapOption(GetComponent(w, e, t), ManageGame)
    ensures r.storages.Keys == w.storages.Keys
    ensures OtherTypesUnchanged(w, r, t)
    ensures r.entities == w.entities && r.nextEntityId == w.nextEntityId
  {
    var r := QueryMut(w, t, (e: Entity, gs: GameState) => ManageGame(gs));
    assert forall e :: HasComponent(w, e, t) <==> GetComponent(w, e, t).Some?;
    r
  }

  /** One turn manager's step of `TurnManagementSystem::update`: an expired turn passes on. */
  function ExpireTurn(now: nat): TurnManager -> TurnManager {
    tm => if IsTimeUp(tm, now) then NextTurn(tm, now).0 else tm
  }

  /** `TurnManagementSystem::update` on a World whose components of type `t` are turn
      managers: every expired turn is passed on and restarted at `now`, so afterwards no
      turn is up; unexpired turns are untouched. */
  function TurnManagementSystem(w: World<TurnManager>, t: TypeTag, now: nat): (r: World<TurnManager>)
    requires Valid(w)
    ensures Valid(r)
    ensures forall e | HasComponent(w, e, t) ::
      var before := GetComponent(w, e, t).value;
      var after := GetComponent(r, e, t);
      && after.Some?
      && !IsTimeUp(after.value, now)
      && (IsTimeUp(before, now) ==> after.value == NextTurn(before, now).0)
      && (!IsTimeUp(before, now) ==> after.value == before)
    ensures forall e | !HasComponent(w, e, t) :: GetComponent(r, e, t).None?
    ensures OtherTypesUnchanged(w, r, t)
    ensures r.entities == w.entities && r.nextEntityId == w.nextEntityId
  {
    var r := QueryMut(w, t, (e: Entity, tm: TurnManager) => ExpireTurn(now)(tm));
    assert forall e | HasComponent(w, e, t) :: GetComponent(r, e, t) == Some(ExpireTurn(now)(GetComponent(w, e, t).value));
    r
  }

  /** `ActionProcessingSystem::update`: every pending action is handled and its component
      removed; the storage itself stays. */
  function ActionProcessingSystem<V(==)>(w: World<V>, t: TypeTag): (r: World<V>)
    requires Valid(w)
    ensures Valid(r)
    ensures Query(r, t) == {}
    ensures forall e :: !HasComponent(r, e, t)
    ensures r.storages.Keys == w.storages.Keys
    ensures OtherTypesUnchanged(w, r, t)
    ensures r.entities == w.entities && r.nextEntityId == w.nextEntityId
  {
    if t in w.storages then PutStorage(w, t, NewStorage()) else w
  }
}
