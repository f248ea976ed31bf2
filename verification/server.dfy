/**
 * The server process: the module-level variables become the fields of one
 * object, each socket event handler a method that updates them in place
 * (the `forEach` loops over the registry become loops over its insertion
 * order) and returns the messages it emits, in order. Every handler is
 * proved to do exactly what the corresponding function of `Handlers`
 * describes, and to keep the session invariant.
 */
module Server {
  import opened Game
  import opened Views
  import opened Handlers

  class Server {
    const questions: seq<QuestionRecord>
    var players: map<ConnId, Player>
    var order: seq<ConnId>
    var hostId: Option<ConnId>
    var questionIndex: nat
    var activeQuestion: Option<QuestionRecord>
    var stage: Stage

    /** The fields as one session-state value. */
    function Snapshot(): State
      reads this
    {
      State(questions, players, order, hostId, questionIndex, activeQuestion, stage)
    }

    ghost predicate Valid()
      reads this
    {
      Inv(Snapshot())
    }

    /** Process start, with the question list read at startup. */
    constructor (questions: seq<QuestionRecord>)
      ensures Valid()
      ensures Snapshot() == Initial(questions)
    {
      this.questions := questions;
      players := map[];
      order := [];
      hostId := None;
      questionIndex := 0;
      activeQuestion := None;
      stage := Lobby;
    }

    /** `getMobAliveCount`: counts the alive players along the registry. */
    method GetMobAliveCount() returns (alive: nat)
      requires Wf(Snapshot())
      ensures alive == MobAlive(Snapshot())
    {
      ghost var ps := Roster(Snapshot());
      alive := 0;
      var i := 0;
      while i < |order|
        invariant 0 <= i <= |order|
        invariant alive == AliveCount(ps[..i])
      {
        assert ps[..i + 1][..i] == ps[..i];
        if players[order[i]].status == Alive {
          alive := alive + 1;
        }
        i := i + 1;
      }
      assert ps[..|order|] == ps;
    }

    /** `buildPublicState`. */
    method BuildPublicState() returns (view: PublicState)
      requires Wf(Snapshot())
      ensures view == PublicView(Snapshot())
    {
      var mobAlive := GetMobAliveCount();
      var registry, ids := players, order;
      var entries := seq(|ids|, k requires 0 <= k < |ids| && ids[k] in registry =>
                                  PublicPlayerOf(registry[ids[k]]));
      var question := if stage == Question && activeQuestion.Some?
                      then Some(QuestionPayload(activeQuestion.value.prompt, activeQuestion.value.options,
                                                questionIndex, |questions|))
                      else None;
      view := PublicState(stage, questionIndex, |questions|, mobAlive, entries, question);
      assert view.players == PublicView(Snapshot()).players;
    }

    /** `buildHostState`. */
    method BuildHostState() returns (view: HostState)
      requires Wf(Snapshot())
      ensures view == HostView(Snapshot())
    {
      var mobAlive := GetMobAliveCount();
      var registry, ids := players, order;
      var entries := seq(|ids|, k requires 0 <= k < |ids| && ids[k] in registry => registry[ids[k]]);
      view := HostState(stage, hostId.Some?, questionIndex, |questions|, mobAlive, activeQuestion, entries);
      assert view.players == Roster(Snapshot());
    }

    /** `broadcastState`: the public view to all, the host view to the host if any. */
    method BroadcastState() returns (out: seq<Emission>)
      requires Wf(Snapshot())
      ensures out == Broadcast(Snapshot())
    {
      var view := BuildPublicState();
      out := [Emission(Everyone, StateEvent(view))];
      if hostId.Some? {
        var hostView := BuildHostState();
        out := out + [Emission(Only(hostId.value), HostControl(hostView))];
      }
    }

    /** The `join` handler. */
    method Join(sender: ConnId, name: Option<string>, role: Option<string>) returns (out: seq<Emission>)
      requires Valid()
      modifies this
      ensures Valid()
      ensures var step := OnJoin(old(Snapshot()), sender, name, role);
              Snapshot() == step.next && out == step.out
    {
      ghost var before := Snapshot();
      if role == Some(HostRole) {
        assert OnJoin(before, sender, name, role) == Handlers.ClaimHost(before, sender);
        out := ClaimHost(sender);
      } else {
        var player := Player(sender, DisplayName(name, |players|), Alive, 0, None);
        assert OnJoin(before, sender, name, role) == Handlers.Register(before, player);
        out := Register(player);
      }
    }

    /** The host branch of `join`. */
    method ClaimHost(sender: ConnId) returns (out: seq<Emission>)
      requires Valid()
      modifies this
      ensures Valid()
      ensures var step := Handlers.ClaimHost(old(Snapshot()), sender);
              Snapshot() == step.next && out == step.out
    {
      hostId := Some(sender);
      assert Snapshot() == Handlers.ClaimHost(old(Snapshot()), sender).next;
      var hostView := BuildHostState();
      var broadcast := BroadcastState();
      out := [Emission(Only(sender), HostControl(hostView))] + broadcast;
    }

    /** `players.set(player.id, player)` and the broadcast that follows. */
    method Register(player: Player) returns (out: seq<Emission>)
      requires Valid() && player.status == Alive && player.answer == None
      modifies this
      ensures Valid()
      ensures var step := Handlers.Register(old(Snapshot()), player);
              Snapshot() == step.next && out == step.out
    {
      if player.id !in players {
        order := order + [player.id];
      }
      players := players[player.id := player];
      assert Snapshot() == Handlers.Register(old(Snapshot()), player).next;
      out := BroadcastState();
    }

    /** The `host-start-question` handler. */
    method StartQuestion(sender: ConnId) returns (out: seq<Emission>)
      requires Valid()
      modifies this
      ensures Valid()
      ensures var step := OnStartQuestion(old(Snapshot()), sender);
              Snapshot() == step.next && out == step.out
    {
      if hostId != Some(sender) || |questions| == 0 {
        return [];
      }
      activeQuestion := Some(questions[questionIndex % |questions|]);
      questionIndex := questionIndex + 1;
      stage := Question;
      ClearAnswersInPlace();
      assert Snapshot() == OnStartQuestion(old(Snapshot()), sender).next;
      var question := activeQuestion.value;
      var payload := QuestionPayload(question.prompt, question.options, questionIndex, |questions|);
      var broadcast := BroadcastState();
      var hostView := BuildHostState();
      out := [Emission(Everyone, QuestionStarted(payload))] + broadcast
             + [Emission(Only(sender), HostControl(hostView))];
    }

    /** The `forEach` of `host-start-question`: every answer back to null. */
    method ClearAnswersInPlace()
      requires Wf(Snapshot())
      modifies this`players
      ensures players == ClearAnswers(old(players))
    {
      var i := 0;
      while i < |order|
        invariant 0 <= i <= |order|
        invariant players.Keys == old(players).Keys
        invariant forall id :: id in players ==>
                    players[id] == if id in order[..i] then ClearAnswer(old(players)[id]) else old(players)[id]
      {
        var id := order[i];
        players := players[id := ClearAnswer(players[id])];
        assert order[..i + 1] == order[..i] + [id];
        i := i + 1;
      }
      assert order[..|order|] == order;
    }

    /** The `submit-answer` handler; `None` stands for a payload that is not a number. */
    method SubmitAnswer(sender: ConnId, optionIndex: Option<int>) returns (out: seq<Emission>)
      requires Valid()
      modifies this
      ensures Valid()
      ensures var step := OnSubmitAnswer(old(Snapshot()), sender, optionIndex);
              Snapshot() == step.next && out == step.out
    {
      if sender !in players || stage != Question || optionIndex.None? {
        return [];
      }
      players := players[sender := players[sender].(answer := optionIndex)];
      assert Snapshot() == OnSubmitAnswer(old(Snapshot()), sender, optionIndex).next;
      out := BroadcastState();
    }

    /** The `host-reveal-answer` handler. */
    method RevealAnswer(sender: ConnId) returns (out: seq<Emission>)
      requires Valid()
      modifies this
      ensures Valid()
      ensures var step := OnRevealAnswer(old(Snapshot()), sender);
              Snapshot() == step.next && out == step.out
    {
      if hostId != Some(sender) || activeQuestion.None? {
        return [];
      }
      ghost var before := Snapshot();
      stage := Reveal;
      var correct := activeQuestion.value.correctIndex;
      var eliminated := RevealInPlace(correct);
      RevealAlongIsRevealAll(order, before.players, correct);
      assert eliminated == Eliminated(Roster(before), correct);
      assert Snapshot() == before.(players := RevealAll(before.players, correct), stage := Reveal);
      assert Snapshot() == OnRevealAnswer(before, sender).next;
      var mobAlive := GetMobAliveCount();
      var broadcast := BroadcastState();
      var hostView := BuildHostState();
      out := [Emission(Everyone, QuestionReveal(RevealPayload(correct, eliminated, mobAlive)))] + broadcast
             + [Emission(Only(sender), HostControl(hostView))];
    }

    /**
     * The `forEach` of `host-reveal-answer`: players still in the game score
     * or are eliminated, and lose their answer; eliminated ids are collected
     * in registry order.
     */
    method RevealInPlace(correct: int) returns (eliminated: seq<ConnId>)
      requires forall id :: id in order ==> id in players
      modifies this`players
      ensures (players, eliminated) == RevealAlong(order, old(players), correct)
    {
      eliminated := [];
      var i := 0;
      while i < |order|
        invariant 0 <= i <= |order|
        invariant (players, eliminated) == RevealAlong(order[..i], old(players), correct)
      {
        var id := order[i];
        assert order[..i + 1][..i] == order[..i];
        var lost := RevealOne(id, correct);
        eliminated := eliminated + if lost then [id] else [];
        i := i + 1;
      }
      assert order[..|order|] == order;
    }

    /**
     * The `forEach` callback of `host-reveal-answer` for one registered
     * player: reports whether the player was eliminated.
     */
    method RevealOne(id: ConnId, correct: int) returns (lost: bool)
      requires id in players
      modifies this`players
      ensures players == old(players)[id := RevealPlayer(old(players)[id], correct)]
      ensures lost <==> Loses(old(players)[id], correct)
    {
      var player := players[id];
      lost := false;
      if player.status == Alive {
        if player.answer == Some(correct) {
          player := player.(score := player.score + 1);
        } else {
          player := player.(status := Out);
          lost := true;
        }
        player := player.(answer := None);
      }
      players := players[id := player];
    }

    /** The `host-reset-game` handler. */
    method ResetGame(sender: ConnId) returns (out: seq<Emission>)
      requires Valid()
      modifies this
      ensures Valid()
      ensures var step := OnResetGame(old(Snapshot()), sender);
              Snapshot() == step.next && out == step.out
    {
      if hostId != Some(sender) {
        return [];
      }
      questionIndex := 0;
      activeQuestion := None;
      stage := Lobby;
      ResetPlayersInPlace();
      assert Snapshot() == OnResetGame(old(Snapshot()), sender).next;
      var broadcast := BroadcastState();
      var hostView := BuildHostState();
      out := [Emission(Everyone, GameReset)] + broadcast + [Emission(Only(sender), HostControl(hostView))];
    }

    /** The `forEach` of `host-reset-game`: every player back in the game, score 0, no answer. */
    method ResetPlayersInPlace()
      requires Wf(Snapshot())
      modifies this`players
      ensures players == ResetAll(old(players))
    {
      var i := 0;
      while i < |order|
        invariant 0 <= i <= |order|
        invariant players.Keys == old(players).Keys
        invariant forall id :: id in players ==>
                    players[id] == if id in order[..i] then ResetPlayer(old(players)[id]) else old(players)[id]
      {
        var id := order[i];
        players := players[id := ResetPlayer(players[id])];
        assert order[..i + 1] == order[..i] + [id];
        i := i + 1;
      }
      assert order[..|order|] == order;
    }

    /** The `disconnect` handler. */
    method Disconnect(sender: ConnId) returns (out: seq<Emission>)
      requires Valid()
      modifies this
      ensures Valid()
      ensures var step := OnDisconnect(old(Snapshot()), sender);
              Snapshot() == step.next && out == step.out
    {
      if hostId == Some(sender) {
        hostId := None;
      }
      players := players - {sender};
      order := RemoveId(order, sender);
      assert Snapshot() == OnDisconnect(old(Snapshot()), sender).next;
      out := BroadcastState();
    }
  }
}
