/**
 * The six socket event handlers as functions from the session state before
 * the event to the state after it and the messages emitted, in emission
 * order. A request that a handler ignores (wrong sender, wrong stage, bad
 * payload) leaves the state as it was and emits nothing.
 */
module Handlers {
  import opened Game
  import opened Views

  datatype Step = Step(next: State, out: seq<Emission>)

  /** The role string that makes a `join` a host join. */
  const HostRole: string := "host"

  /**
   * `join` with payload `{name, role}` (each `None` when absent or falsy).
   * A host join makes the sender the host, replacing any earlier host. Any
   * other join writes a fresh player record under the sender's id: a new id
   * is appended to the insertion order, an id already registered keeps its
   * place and its record is overwritten.
   */
  function OnJoin(s: State, sender: ConnId, name: Option<string>, role: Option<string>): (r: Step)
    requires Wf(s)
    ensures Wf(r.next)
    ensures Inv(s) ==> Inv(r.next)
    ensures role == Some(HostRole) ==> r == ClaimHost(s, sender)
    ensures role != Some(HostRole) ==> r == Register(s, NewPlayer(sender, DisplayName(name, |s.players|)))
  {
    if role == Some(HostRole) then
      ClaimHost(s, sender)
    else
      Register(s, NewPlayer(sender, DisplayName(name, |s.players|)))
  }

  /** A host join: the sender becomes the host, is sent the host view, and everyone gets the new state. */
  function ClaimHost(s: State, sender: ConnId): (r: Step)
    requires Wf(s)
    ensures Wf(r.next)
    ensures Inv(s) ==> Inv(r.next)
    ensures r.next == s.(hostId := Some(sender))
    ensures r.out == [Emission(Only(sender), HostControl(HostView(r.next)))] + Broadcast(r.next)
    ensures HostView(r.next).hostConnected
  {
    var next := s.(hostId := Some(sender));
    Step(next, [Emission(Only(sender), HostControl(HostView(next)))] + Broadcast(next))
  }

  /** `players.set(player.id, player)` followed by a broadcast. */
  function Register(s: State, player: Player): (r: Step)
    requires Wf(s) && player.status == Alive && player.answer == None
    ensures Wf(r.next)
    ensures Inv(s) ==> Inv(r.next)
    ensures r.next == s.(players := r.next.players, order := r.next.order)
    ensures r.next.players.Keys == s.players.Keys + {player.id}
    ensures r.next.players[player.id] == player
    ensures forall id :: id in s.players && id != player.id ==> r.next.players[id] == s.players[id]
    ensures r.next.order == (if player.id in s.players then s.order else s.order + [player.id])
    ensures |r.next.players| == if player.id in s.players then |s.players| else |s.players| + 1
    ensures r.out == Broadcast(r.next)
  {
    var order := if player.id in s.players then s.order else s.order + [player.id];
    var next := s.(players := s.players[player.id := player], order := order);
    RegisterKeepsInv(s, player, next);
    SetRecord(s.players, player);
    Step(next, Broadcast(next))
  }

  /**
   * `host-start-question`: from the host, with a non-empty question list,
   * selects the next question cyclically, counts it, clears every answer
   * and opens the question stage, whatever the current stage.
   */
  function OnStartQuestion(s: State, sender: ConnId): (r: Step)
    requires Wf(s)
    ensures Wf(r.next)
    ensures Inv(s) ==> Inv(r.next)
    ensures s.hostId != Some(sender) || |s.questions| == 0 ==> r == Step(s, [])
    ensures s.hostId == Some(sender) && |s.questions| > 0 ==>
              var q := s.questions[s.questionIndex % |s.questions|];
              && r.next.activeQuestion == Some(q)
              && r.next.questionIndex == s.questionIndex + 1
              && r.next.stage == Question
              && r.next.players.Keys == s.players.Keys
              && (forall id :: id in s.players ==>
                    r.next.players[id] == s.players[id].(answer := None))
              && r.next.order == s.order && r.next.hostId == s.hostId
              && r.next.questions == s.questions
              && r.out == [Emission(Everyone, QuestionStarted(Announce(q, r.next)))]
                          + Broadcast(r.next)
                          + [Emission(Only(sender), HostControl(HostView(r.next)))]
  {
    if s.hostId != Some(sender) || |s.questions| == 0 then Step(s, [])
    else
      var q := s.questions[s.questionIndex % |s.questions|];
      var next := s.(activeQuestion := Some(q),
                     questionIndex := s.questionIndex + 1,
                     stage := Question,
                     players := ClearAnswers(s.players));
      Step(next, [Emission(Everyone, QuestionStarted(Announce(q, next)))]
                 + Broadcast(next)
                 + [Emission(Only(sender), HostControl(HostView(next)))])
  }

  /**
   * `submit-answer`: a registered player's answer while the question stage
   * is open; a later submission replaces an earlier one. The player's
   * status is not checked.
   */
  function OnSubmitAnswer(s: State, sender: ConnId, optionIndex: Option<int>): (r: Step)
    requires Wf(s)
    ensures Wf(r.next)
    ensures Inv(s) ==> Inv(r.next)
    ensures sender !in s.players || s.stage != Question || optionIndex.None? ==> r == Step(s, [])
    ensures sender in s.players && s.stage == Question && optionIndex.Some? ==>
              && r.next == s.(players := r.next.players)
              && r.next.players.Keys == s.players.Keys
              && r.next.players[sender] == s.players[sender].(answer := optionIndex)
              && (forall id :: id in s.players && id != sender ==> r.next.players[id] == s.players[id])
              && r.out == Broadcast(r.next)
  {
    if sender !in s.players || s.stage != Question || optionIndex.None? then Step(s, [])
    else
      var next := s.(players := s.players[sender := s.players[sender].(answer := optionIndex)]);
      AnswerKeepsInv(s, sender, optionIndex, next);
      Step(next, Broadcast(next))
  }

  /**
   * `host-reveal-answer`: from the host, whenever a question is active (the
   * stage is not checked). Every player still in the game either scores or
   * is eliminated and loses their answer; players already out are skipped.
   * Announces the correct index, the eliminated ids in registry order and
   * the number of players still alive.
   */
  function OnRevealAnswer(s: State, sender: ConnId): (r: Step)
    requires Wf(s)
    ensures Wf(r.next)
    ensures Inv(s) ==> Inv(r.next)
    ensures s.hostId != Some(sender) || s.activeQuestion.None? ==> r == Step(s, [])
    ensures s.hostId == Some(sender) && s.activeQuestion.Some? ==>
              var correct := s.activeQuestion.value.correctIndex;
              && r.next == s.(players := RevealAll(s.players, correct), stage := Reveal)
              && r.next.players.Keys == s.players.Keys
              && (forall id :: id in s.players ==>
                    var p := s.players[id];
                    && (Scores(p, correct) ==> r.next.players[id] == p.(score := p.score + 1, answer := None))
                    && (Loses(p, correct) ==> r.next.players[id] == p.(status := Out, answer := None))
                    && (p.status == Out ==> r.next.players[id] == p))
              && r.out == [Emission(Everyone, QuestionReveal(
                             RevealPayload(correct, Eliminated(Roster(s), correct), MobAlive(r.next))))]
                          + Broadcast(r.next)
                          + [Emission(Only(sender), HostControl(HostView(r.next)))]
  {
    if s.hostId != Some(sender) || s.activeQuestion.None? then Step(s, [])
    else
      var correct := s.activeQuestion.value.correctIndex;
      var next := s.(stage := Reveal, players := RevealAll(s.players, correct));
      var payload := RevealPayload(correct, Eliminated(Roster(s), correct), MobAlive(next));
      Step(next, [Emission(Everyone, QuestionReveal(payload))]
                 + Broadcast(next)
                 + [Emission(Only(sender), HostControl(HostView(next)))])
  }

  /**
   * `host-reset-game`: from the host, from any stage, rewinds to the lobby:
   * no question counted or active, every registered player back in the
   * game with score 0 and no answer. Registry membership is unchanged.
   */
  function OnResetGame(s: State, sender: ConnId): (r: Step)
    requires Wf(s)
    ensures Wf(r.next)
    ensures Inv(s) ==> Inv(r.next)
    ensures s.hostId != Some(sender) ==> r == Step(s, [])
    ensures s.hostId == Some(sender) ==>
              && r.next.questionIndex == 0 && r.next.activeQuestion == None && r.next.stage == Lobby
              && r.next.players.Keys == s.players.Keys
              && (forall id :: id in s.players ==>
                    r.next.players[id] == Player(id, s.players[id].name, Alive, 0, None))
              && r.next.order == s.order && r.next.hostId == s.hostId
              && r.next.questions == s.questions
              && r.out == [Emission(Everyone, GameReset)]
                          + Broadcast(r.next)
                          + [Emission(Only(sender), HostControl(HostView(r.next)))]
  {
    if s.hostId != Some(sender) then Step(s, [])
    else
      var next := s.(questionIndex := 0, activeQuestion := None, stage := Lobby,
                     players := ResetAll(s.players));
      Step(next, [Emission(Everyone, GameReset)]
                 + Broadcast(next)
                 + [Emission(Only(sender), HostControl(HostView(next)))])
  }

  /**
   * `disconnect`: drops the sender's player record if there is one, keeping
   * the others in their insertion order, and clears the host if the sender
   * was the host; nobody is promoted. Always broadcasts.
   */
  function OnDisconnect(s: State, sender: ConnId): (r: Step)
    requires Wf(s)
    ensures Wf(r.next)
    ensures Inv(s) ==> Inv(r.next)
    ensures r.next.hostId == if s.hostId == Some(sender) then None else s.hostId
    ensures r.next.players.Keys == s.players.Keys - {sender}
    ensures forall id :: id in r.next.players ==> r.next.players[id] == s.players[id]
    ensures |r.next.players| == if sender in s.players then |s.players| - 1 else |s.players|
    ensures forall id :: id in r.next.order <==> id in s.order && id != sender
    ensures sender !in s.order ==> r.next.order == s.order
    ensures forall k :: 0 <= k < |s.order| && s.order[k] == sender ==> r.next.order == s.order[..k] + s.order[k + 1..]
    ensures r.next == s.(hostId := r.next.hostId, players := r.next.players, order := r.next.order)
    ensures r.out == Broadcast(r.next)
  {
    var hostId := if s.hostId == Some(sender) then None else s.hostId;
    var next := s.(hostId := hostId, players := s.players - {sender}, order := RemoveId(s.order, sender));
    UnregisterKeepsInv(s, sender, next);
    Step(next, Broadcast(next))
  }

  /** Writing a fresh record keeps the registry well formed and the invariant. */
  lemma RegisterKeepsInv(s: State, p: Player, next: State)
    requires Wf(s) && p.status == Alive && p.answer == None
    requires next == s.(players := s.players[p.id := p],
                        order := if p.id in s.players then s.order else s.order + [p.id])
    ensures Wf(next)
    ensures Inv(s) ==> Inv(next)
  {
    if p.id !in s.players {
      AppendDistinct(s.order, p.id);
    }
  }

  /** `Map.set` of a record: one key more exactly when the id is new, other entries unchanged. */
  lemma SetRecord(players: map<ConnId, Player>, p: Player)
    ensures |players[p.id := p]| == if p.id in players then |players| else |players| + 1
    ensures players[p.id := p].Keys == players.Keys + {p.id}
    ensures forall id :: id in players && id != p.id ==> players[p.id := p][id] == players[id]
  {
  }

  /** Recording an answer during the question stage keeps the registry well formed and the invariant. */
  lemma AnswerKeepsInv(s: State, sender: ConnId, optionIndex: Option<int>, next: State)
    requires Wf(s) && sender in s.players && s.stage == Question
    requires next == s.(players := s.players[sender := s.players[sender].(answer := optionIndex)])
    ensures Wf(next)
    ensures Inv(s) ==> Inv(next)
  {
    assert next.players.Keys == s.players.Keys;
  }

  /** Dropping a record keeps the registry well formed and the invariant. */
  lemma UnregisterKeepsInv(s: State, sender: ConnId, next: State)
    requires Wf(s)
    requires next == s.(hostId := if s.hostId == Some(sender) then None else s.hostId,
                        players := s.players - {sender},
                        order := RemoveId(s.order, sender))
    ensures Wf(next)
    ensures Inv(s) ==> Inv(next)
  {
    assert next.players.Keys == s.players.Keys - {sender};
    assert Distinct(next.order);
  }
}
