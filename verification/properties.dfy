/**
 * Properties of the session that relate several handler calls, or a
 * handler's messages to the state it leaves: what a reveal announces, the
 * second reveal in a row, last write wins, repeated default names, the host
 * leaving, and the invariant along any sequence of events.
 */
module Properties {
  import opened Game
  import opened Views
  import opened Handlers

  /** One socket event, with its sender and payload. */
  datatype Event =
    | JoinEvent(sender: ConnId, name: Option<string>, role: Option<string>)
    | StartQuestionEvent(sender: ConnId)
    | SubmitAnswerEvent(sender: ConnId, optionIndex: Option<int>)
    | RevealAnswerEvent(sender: ConnId)
    | ResetGameEvent(sender: ConnId)
    | DisconnectEvent(sender: ConnId)

  /** The handler that an event reaches. */
  function Apply(s: State, e: Event): (r: Step)
    requires Wf(s)
    ensures Wf(r.next)
    ensures Inv(s) ==> Inv(r.next)
    ensures r.next.questions == s.questions
  {
    match e
    case JoinEvent(sender, name, role) => OnJoin(s, sender, name, role)
    case StartQuestionEvent(sender) => OnStartQuestion(s, sender)
    case SubmitAnswerEvent(sender, optionIndex) => OnSubmitAnswer(s, sender, optionIndex)
    case RevealAnswerEvent(sender) => OnRevealAnswer(s, sender)
    case ResetGameEvent(sender) => OnResetGame(s, sender)
    case DisconnectEvent(sender) => OnDisconnect(s, sender)
  }

  /** The state after handling `events` one after the other, starting from `s`. */
  function Run(s: State, events: seq<Event>): (t: State)
    requires Wf(s)
    ensures Wf(t)
    decreases |events|
  {
    if events == [] then s else Run(Apply(s, events[0]).next, events[1..])
  }

  /**
   * Every state the server can reach from process start satisfies the
   * session invariant: in particular a running or revealed question is the
   * one the counter last selected, and `mobAlive` never exceeds the
   * registry size.
   */
  lemma {:induction false} ReachableStatesKeepInv(s: State, events: seq<Event>)
    requires Inv(s)
    ensures Inv(Run(s, events))
    ensures MobAlive(Run(s, events)) <= |Run(s, events).players|
    decreases |events|
  {
    if events != [] {
      ReachableStatesKeepInv(Apply(s, events[0]).next, events[1..]);
    } else {
      MobAliveCountsAlive(s);
    }
  }

  /** Process start followed by any events satisfies the invariant. */
  lemma FromStart(questions: seq<QuestionRecord>, events: seq<Event>)
    ensures Inv(Run(Initial(questions), events))
  {
    ReachableStatesKeepInv(Initial(questions), events);
  }

  /** Whether `e` is a player join from connection `id`, which writes a fresh record for it. */
  predicate Rejoins(e: Event, id: ConnId)
  {
    e.JoinEvent? && e.role != Some(HostRole) && e.sender == id
  }

  /** Whether `e` is a reset request from the current host, the only one the server acts on. */
  predicate ResetsGame(s: State, e: Event)
  {
    e.ResetGameEvent? && s.hostId == Some(e.sender)
  }

  /**
   * Scores only grow: no event but a reset by the host, or a player join from the same
   * connection, lowers the score of a player who stays registered.
   */
  lemma ScoresOnlyGrow(s: State, e: Event)
    requires Wf(s) && !ResetsGame(s, e)
    ensures var t := Apply(s, e).next;
            forall id :: id in s.players && id in t.players && !Rejoins(e, id) ==>
                           t.players[id].score >= s.players[id].score
  {
    EventNoSetback(s, e);
  }

  /**
   * Nobody comes back: only a reset by the host, or a player join from the same
   * connection, makes a player who is out alive again.
   */
  lemma OutStaysOut(s: State, e: Event)
    requires Wf(s) && !ResetsGame(s, e)
    ensures var t := Apply(s, e).next;
            forall id :: id in s.players && id in t.players && s.players[id].status == Out && !Rejoins(e, id) ==>
                           t.players[id].status == Out
  {
    EventNoSetback(s, e);
  }

  /** A record `q` that follows `p` has at least its score and is out if `p` was. */
  ghost predicate NoSetback(p: Player, q: Player)
  {
    q.score >= p.score && (p.status == Out ==> q.status == Out)
  }

  /** No event but a reset by the host or a rejoin sets a player who stays registered back. */
  lemma EventNoSetback(s: State, e: Event)
    requires Wf(s) && !ResetsGame(s, e)
    ensures var t := Apply(s, e).next;
            forall id :: id in s.players && id in t.players && !Rejoins(e, id) ==>
                           NoSetback(s.players[id], t.players[id])
  {
    match e
    case JoinEvent(sender, name, role) => JoinKeepsOthers(s, sender, name, role);
    case StartQuestionEvent(sender) => StartNoSetback(s, sender);
    case SubmitAnswerEvent(sender, optionIndex) => SubmitNoSetback(s, sender, optionIndex);
    case RevealAnswerEvent(sender) => RevealNoSetback(s, sender);
    case DisconnectEvent(sender) => DisconnectNoSetback(s, sender);
    case ResetGameEvent(sender) =>
  }

  /** Starting a question only clears answers. */
  lemma StartNoSetback(s: State, sender: ConnId)
    requires Wf(s)
    ensures var t := OnStartQuestion(s, sender).next;
            forall id :: id in s.players && id in t.players ==> NoSetback(s.players[id], t.players[id])
  {
  }

  /** Submitting an answer only changes an answer. */
  lemma SubmitNoSetback(s: State, sender: ConnId, optionIndex: Option<int>)
    requires Wf(s)
    ensures var t := OnSubmitAnswer(s, sender, optionIndex).next;
            forall id :: id in s.players && id in t.players ==> NoSetback(s.players[id], t.players[id])
  {
  }

  /** A reveal only adds points or eliminates. */
  lemma RevealNoSetback(s: State, sender: ConnId)
    requires Wf(s)
    ensures var t := OnRevealAnswer(s, sender).next;
            forall id :: id in s.players && id in t.players ==> NoSetback(s.players[id], t.players[id])
  {
  }

  /** A disconnect leaves the remaining records as they were. */
  lemma DisconnectNoSetback(s: State, sender: ConnId)
    requires Wf(s)
    ensures var t := OnDisconnect(s, sender).next;
            forall id :: id in s.players && id in t.players ==> NoSetback(s.players[id], t.players[id])
  {
  }

  /** A join leaves every record but a player join's own untouched. */
  lemma JoinKeepsOthers(s: State, sender: ConnId, name: Option<string>, role: Option<string>)
    requires Wf(s)
    ensures var t := OnJoin(s, sender, name, role).next;
            forall id :: id in s.players && (role == Some(HostRole) || id != sender) ==>
                           id in t.players && t.players[id] == s.players[id]
  {
  }

  /**
   * What a reveal announces: the eliminated ids are exactly the registered
   * players who were in the game without the correct answer, each listed
   * once; `mobAlive` is the number of players in the game who answered
   * correctly; and together they account for every player who was alive.
   */
  lemma RevealOutcome(s: State, sender: ConnId)
    requires Wf(s) && s.hostId == Some(sender) && s.activeQuestion.Some?
    ensures var r := OnRevealAnswer(s, sender);
            var correct := s.activeQuestion.value.correctIndex;
            && r.out[0].message.QuestionReveal?
            && var payload := r.out[0].message.result;
            && payload.correctIndex == correct
            && (forall x :: x in payload.eliminated <==> x in s.players && Loses(s.players[x], correct))
            && Distinct(payload.eliminated)
            && payload.mobAlive == Survivors(Roster(s), correct)
            && payload.mobAlive + |payload.eliminated| == MobAlive(s)
  {
    RevealAccounting(s.order, s.players, s.activeQuestion.value.correctIndex);
  }

  /**
   * A reveal repeated in the reveal stage finds no answer left among the
   * players still in the game, so it eliminates every one of them and
   * announces nobody alive.
   */
  lemma SecondRevealEliminatesEveryone(s: State, sender: ConnId)
    requires Inv(s) && s.stage == Reveal && s.hostId == Some(sender)
    ensures var r := OnRevealAnswer(s, sender);
            && r.out[0].message.QuestionReveal?
            && r.out[0].message.result.mobAlive == 0
            && |r.out[0].message.result.eliminated| == MobAlive(s)
            && (forall id :: id in r.next.players ==> r.next.players[id].status == Out)
  {
    var correct := s.activeQuestion.value.correctIndex;
    var ps := Roster(s);
    RevealWithoutAnswers(ps, correct);
    RevealOutcome(s, sender);
  }

  /** Of two answers submitted during one question, the later one is kept. */
  lemma LastAnswerWins(s: State, sender: ConnId, first: int, second: int)
    requires Wf(s)
    ensures var t := OnSubmitAnswer(s, sender, Some(first)).next;
            OnSubmitAnswer(t, sender, Some(second)).next == OnSubmitAnswer(s, sender, Some(second)).next
  {
    if sender in s.players && s.stage == Question {
      var p := s.players[sender];
      var later := p.(answer := Some(second));
      var t := OnSubmitAnswer(s, sender, Some(first)).next;
      assert t == s.(players := s.players[sender := p.(answer := Some(first))]);
      assert t.players[sender := later] == s.players[sender := later];
    }
  }

  /**
   * Default names can repeat: the placeholder depends only on the registry
   * size at the moment of joining, so two players who join without a name
   * at equal sizes (for instance after someone in between has left) get the
   * same one (Placeholder gives its text, `Spieler <size + 1>`).
   */
  lemma DefaultNamesRepeat(s: State, t: State, a: ConnId, b: ConnId)
    requires Wf(s) && Wf(t) && |s.players| == |t.players|
    ensures OnJoin(s, a, None, None).next.players[a].name == OnJoin(t, b, None, None).next.players[b].name
            == DisplayName(None, |s.players|)
  {
    JoinedName(s, a, None, None);
    JoinedName(t, b, None, None);
  }

  /** A player join stores the display name computed from the payload and the registry size. */
  lemma JoinedName(s: State, sender: ConnId, name: Option<string>, role: Option<string>)
    requires Wf(s) && role != Some(HostRole)
    ensures var t := OnJoin(s, sender, name, role).next;
            sender in t.players && t.players[sender].name == DisplayName(name, |s.players|)
  {
  }

  /**
   * When the host connection leaves, the host is cleared and nobody is
   * promoted: the broadcast then holds only the public view, and the host
   * view reports no host.
   */
  lemma HostLeaves(s: State, sender: ConnId)
    requires Wf(s) && s.hostId == Some(sender)
    ensures var r := OnDisconnect(s, sender);
            && r.next.hostId == None
            && |r.out| == 1
            && !HostView(r.next).hostConnected
  {
  }

  /** A second host join takes the host role over and touches nothing else. */
  lemma SecondHostTakesOver(s: State, first: ConnId, second: ConnId, n1: Option<string>, n2: Option<string>)
    requires Wf(s)
    ensures var t := OnJoin(OnJoin(s, first, n1, Some(HostRole)).next, second, n2, Some(HostRole)).next;
            t == s.(hostId := Some(second))
  {
  }

  /**
   * Whenever the question data is well formed, so is the question the
   * server has active: every question it selects comes from the list.
   */
  lemma ActiveQuestionFromList(s: State)
    requires Inv(s) && s.activeQuestion.Some?
    requires forall k :: 0 <= k < |s.questions| ==> WellFormedQuestion(s.questions[k])
    ensures WellFormedQuestion(s.activeQuestion.value)
    ensures s.activeQuestion.value in s.questions
  {
  }

  /** After a reset every registered player is in the game, so `mobAlive` is the registry size. */
  lemma ResetRevivesEveryone(s: State, sender: ConnId)
    requires Wf(s) && s.hostId == Some(sender)
    ensures var t := OnResetGame(s, sender).next;
            MobAlive(t) == |t.players| == |s.players|
  {
    var t := OnResetGame(s, sender).next;
    assert AliveSet(t.players) == t.players.Keys;
    MobAliveCountsAlive(t);
  }
}
