/**
 * The two projections of the session state that the server pushes after
 * every change (`buildPublicState`, `buildHostState`), the messages it
 * emits, and `broadcastState`, which sends the public view to everyone and
 * the host view to the host connection when there is one.
 */
module Views {
  import opened Game

  /** What players see of a running question: no correct index. */
  datatype QuestionPayload = QuestionPayload(prompt: string, options: seq<string>, number: nat, total: nat)

  /** What players see of a player: whether they answered, not what. */
  datatype PublicPlayer = PublicPlayer(id: ConnId, name: string, score: nat, status: Status, answered: bool)

  datatype PublicState = PublicState(
    stage: Stage,
    questionNumber: nat,
    totalQuestions: nat,
    mobAlive: nat,
    players: seq<PublicPlayer>,
    activeQuestion: Option<QuestionPayload>)

  datatype HostState = HostState(
    stage: Stage,
    hostConnected: bool,
    questionNumber: nat,
    totalQuestions: nat,
    mobAlive: nat,
    activeQuestion: Option<QuestionRecord>,
    players: seq<Player>)

  datatype RevealPayload = RevealPayload(correctIndex: int, eliminated: seq<ConnId>, mobAlive: nat)

  /** The server-to-client events, by their socket.io event names. */
  datatype Message =
    | StateEvent(view: PublicState)             // 'state'
    | HostControl(hostView: HostState)          // 'host-control'
    | QuestionStarted(question: QuestionPayload) // 'question-started'
    | QuestionReveal(result: RevealPayload)     // 'question-reveal'
    | GameReset                                 // 'game-reset'

  /** `io.emit` reaches every connection; `socket.emit` and `io.to(id).emit` reach one. */
  datatype Target = Everyone | Only(id: ConnId)

  datatype Emission = Emission(target: Target, message: Message)

  /**
   * `getMobAliveCount()`: the players whose status is `alive`, counted along
   * the registry; MobAliveCountsAlive states what it counts.
   */
  function MobAlive(s: State): (n: nat)
    requires Wf(s)
    ensures n <= |s.order|
  {
    AliveCount(Roster(s))
  }

  /** The question as announced to players: prompt, options, number and total. */
  function Announce(q: QuestionRecord, s: State): (p: QuestionPayload)
    ensures p.prompt == q.prompt && p.options == q.options
    ensures p.number == s.questionIndex && p.total == |s.questions|
  {
    QuestionPayload(q.prompt, q.options, s.questionIndex, |s.questions|)
  }

  function PublicPlayerOf(p: Player): (v: PublicPlayer)
    ensures v.id == p.id && v.name == p.name && v.score == p.score && v.status == p.status
    ensures v.answered <==> p.answer.Some?
  {
    PublicPlayer(p.id, p.name, p.score, p.status, p.answer != None)
  }

  /**
   * `buildPublicState`: the view every connection receives. It carries no
   * answer value and no correct index (its types have no room for them), and
   * shows the question only while it is being asked.
   */
  function PublicView(s: State): (v: PublicState)
    requires Wf(s)
    ensures v.stage == s.stage && v.questionNumber == s.questionIndex
    ensures v.totalQuestions == |s.questions|
    ensures v.mobAlive == MobAlive(s) && |v.players| == |s.order|
    ensures forall k :: 0 <= k < |v.players| ==>
              var p := s.players[s.order[k]];
              && v.players[k].id == s.order[k] && v.players[k].name == p.name
              && v.players[k].score == p.score && v.players[k].status == p.status
              && (v.players[k].answered <==> p.answer.Some?)
    ensures v.activeQuestion.Some? <==> s.stage == Question && s.activeQuestion.Some?
    ensures v.activeQuestion.Some? ==>
              && v.activeQuestion.value.prompt == s.activeQuestion.value.prompt
              && v.activeQuestion.value.options == s.activeQuestion.value.options
              && v.activeQuestion.value.number == s.questionIndex
              && v.activeQuestion.value.total == |s.questions|
  {
    var roster := Roster(s);
    PublicState(
      s.stage,
      s.questionIndex,
      |s.questions|,
      MobAlive(s),
      seq(|roster|, k requires 0 <= k < |roster| => PublicPlayerOf(roster[k])),
      if s.stage == Question && s.activeQuestion.Some? then Some(Announce(s.activeQuestion.value, s)) else None)
  }

  /** `buildHostState`: the full view, sent to the host connection only. */
  function HostView(s: State): (v: HostState)
    requires Wf(s)
    ensures v.hostConnected <==> s.hostId.Some?
    ensures v.stage == s.stage && v.questionNumber == s.questionIndex
    ensures v.totalQuestions == |s.questions| && v.activeQuestion == s.activeQuestion
    ensures v.mobAlive == MobAlive(s) && |v.players| == |s.order|
    ensures forall k :: 0 <= k < |v.players| ==> v.players[k] == s.players[s.order[k]]
  {
    HostState(s.stage, s.hostId.Some?, s.questionIndex, |s.questions|, MobAlive(s), s.activeQuestion, Roster(s))
  }

  /**
   * The `mobAlive` count is the number of registered players whose status is
   * `alive`, so it never exceeds the registry size `players.size`.
   */
  lemma MobAliveCountsAlive(s: State)
    requires Wf(s)
    ensures MobAlive(s) == |AliveSet(s.players)| <= |s.players|
  {
    AliveCountIsSetSize(s.order, s.players);
    RegistrySize(s);
  }

  /** `broadcastState`: the public view to everyone, then the host view to the host if any. */
  function Broadcast(s: State): (out: seq<Emission>)
    requires Wf(s)
    ensures |out| == if s.hostId.Some? then 2 else 1
    ensures out[0] == Emission(Everyone, StateEvent(PublicView(s)))
    ensures s.hostId.Some? ==> out[1] == Emission(Only(s.hostId.value), HostControl(HostView(s)))
  {
    [Emission(Everyone, StateEvent(PublicView(s)))]
    + if s.hostId.Some? then [Emission(Only(s.hostId.value), HostControl(HostView(s)))] else []
  }

  /**
   * Two states that differ only in what players must not learn: the values
   * (not the presence) of answers, the correct index of the active question,
   * the host, and the registry's internal records beyond the public fields.
   */
  ghost predicate PubliclyEqual(s1: State, s2: State)
  {
    && s1.stage == s2.stage
    && s1.questionIndex == s2.questionIndex
    && |s1.questions| == |s2.questions|
    && s1.order == s2.order
    && s1.players.Keys == s2.players.Keys
    && (forall id :: id in s1.players ==>
          PublicPlayerOf(s1.players[id]) == PublicPlayerOf(s2.players[id]))
    && s1.activeQuestion.Some? == s2.activeQuestion.Some?
    && (s1.activeQuestion.Some? ==>
          && s1.activeQuestion.value.prompt == s2.activeQuestion.value.prompt
          && s1.activeQuestion.value.options == s2.activeQuestion.value.options)
  }

  /**
   * Redaction: the public view is the same for any two states that agree on
   * everything public, so it cannot reveal an answer value or the correct
   * index.
   */
  lemma PublicViewRedacts(s1: State, s2: State)
    requires Wf(s1) && Wf(s2) && PubliclyEqual(s1, s2)
    ensures PublicView(s1) == PublicView(s2)
  {
    var r1, r2 := Roster(s1), Roster(s2);
    forall k | 0 <= k < |r1| ensures r1[k].status == r2[k].status {
      assert PublicPlayerOf(r1[k]).status == PublicPlayerOf(r2[k]).status;
    }
    SameStatusesSameCount(r1, r2);
    var v1, v2 := PublicView(s1), PublicView(s2);
    assert v1.players == v2.players by {
      forall k | 0 <= k < |v1.players| ensures v1.players[k] == v2.players[k] {
        var id := s1.order[k];
        assert PublicPlayerOf(s1.players[id]) == PublicPlayerOf(s2.players[id]);
      }
    }
  }

  /** Changing only answer values and the correct index keeps two states publicly equal. */
  lemma SecretsArePrivate(s: State, answers: map<ConnId, int>, correct: int)
    requires Wf(s)
    ensures var t := s.(players := map id | id in s.players ::
                                     if s.players[id].answer.Some? && id in answers
                                     then s.players[id].(answer := Some(answers[id]))
                                     else s.players[id],
                        activeQuestion := if s.activeQuestion.Some?
                                          then Some(s.activeQuestion.value.(correctIndex := correct))
                                          else None);
            Wf(t) && PublicView(t) == PublicView(s)
  {
    var t := s.(players := map id | id in s.players ::
                              if s.players[id].answer.Some? && id in answers
                              then s.players[id].(answer := Some(answers[id]))
                              else s.players[id],
                 activeQuestion := if s.activeQuestion.Some?
                                   then Some(s.activeQuestion.value.(correctIndex := correct))
                                   else None);
    assert PubliclyEqual(t, s);
    PublicViewRedacts(t, s);
  }
}
