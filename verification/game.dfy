/**
 * The entities of a last-one-standing trivia session and the session state
 * the server keeps at module level: the player registry (a map from
 * connection id to player record, iterated in insertion order), the host
 * connection, the question counter, the active question and the stage.
 * Everything here is a value; the per-player updates that the handlers
 * apply inside their `forEach` loops are stated one player at a time.
 */
module Game {
  import opened Text

  datatype Option<T> = None | Some(value: T)

  /** A socket.io connection id; never empty, so a set host id is always truthy. */
  type ConnId = s: string | s != [] witness "c"

  datatype Stage = Lobby | Question | Reveal

  datatype Status = Alive | Out

  /** One entry of the immutable question list. */
  datatype QuestionRecord = QuestionRecord(prompt: string, options: seq<string>, correctIndex: int)

  /** What the question data is expected to satisfy; the server never checks it. */
  predicate WellFormedQuestion(q: QuestionRecord)
  {
    0 <= q.correctIndex < |q.options|
  }

  datatype Player = Player(id: ConnId, name: string, status: Status, score: nat, answer: Option<int>)

  /** The module-level state of the server, together with the question list. */
  datatype State = State(
    questions: seq<QuestionRecord>,
    players: map<ConnId, Player>,
    order: seq<ConnId>,          // insertion order of `players`, the order Map.forEach visits
    hostId: Option<ConnId>,
    questionIndex: nat,
    activeQuestion: Option<QuestionRecord>,
    stage: Stage)

  ghost predicate Distinct<T>(xs: seq<T>)
  {
    forall i, j :: 0 <= i < j < |xs| ==> xs[i] != xs[j]
  }

  /** The registry is a map whose keys are listed once each in insertion order. */
  ghost predicate Wf(s: State)
  {
    && Distinct(s.order)
    && (forall id :: id in s.players <==> id in s.order)
    && (forall id :: id in s.players ==> s.players[id].id == id)
  }

  /**
   * What every reachable state satisfies: the lobby has no active question,
   * no counted questions and no pending answers; any other stage has the
   * active question that the counter last selected; after a reveal no
   * player still in the game holds an answer.
   */
  ghost predicate Inv(s: State)
  {
    && Wf(s)
    && (s.stage == Lobby <==> s.activeQuestion.None?)
    && (s.stage == Lobby ==> s.questionIndex == 0)
    && (s.stage == Lobby ==> forall id :: id in s.players ==> s.players[id].answer.None?)
    && (s.activeQuestion.Some? ==>
          && |s.questions| > 0
          && s.questionIndex >= 1
          && s.activeQuestion.value == s.questions[(s.questionIndex - 1) % |s.questions|])
    && (s.stage == Reveal ==>
          forall id :: id in s.players && s.players[id].status == Alive ==> s.players[id].answer.None?)
  }

  /** The state at process start: no players, no host, lobby. */
  function Initial(questions: seq<QuestionRecord>): (s: State)
    ensures Inv(s)
    ensures s.players == map[] && s.order == [] && s.hostId == None
    ensures s.stage == Lobby && s.questionIndex == 0 && s.activeQuestion == None
  {
    State(questions, map[], [], None, 0, None, Lobby)
  }

  /** The player records in the order `Map.forEach` and `Map.values` visit them. */
  function Roster(s: State): (r: seq<Player>)
    requires Wf(s)
    ensures |r| == |s.order|
    ensures forall k :: 0 <= k < |r| ==> s.order[k] in s.players && r[k] == s.players[s.order[k]]
    ensures forall k :: 0 <= k < |r| ==> r[k].id == s.order[k]
  {
    RosterOf(s.order, s.players)
  }

  function RosterOf(order: seq<ConnId>, players: map<ConnId, Player>): (r: seq<Player>)
    requires forall id :: id in order ==> id in players
    ensures |r| == |order|
    ensures forall k :: 0 <= k < |r| ==> r[k] == players[order[k]]
  {
    seq(|order|, k requires 0 <= k < |order| => players[order[k]])
  }

  // ---------------------------------------------------------------------
  // Joining: the display name rule and the new record
  // ---------------------------------------------------------------------

  /**
   * `(name || '').trim() || \`Spieler ${size + 1}\``: the trimmed name when
   * it is not blank, otherwise a placeholder numbered after the current
   * registry size. An absent name is `None`. DisplayNameMeaning states what
   * it gives.
   */
  function DisplayName(name: Option<string>, size: nat): string
  {
    var trimmed := Trim(if name.Some? then name.value else "");
    if trimmed != [] then trimmed else "Spieler " + NatToString(size + 1)
  }

  /**
   * The display name is never empty and has no white space at either end;
   * it is the trimmed name when one is given and not blank, and otherwise
   * the placeholder with the number one past the registry size.
   */
  lemma DisplayNameMeaning(name: Option<string>, size: nat)
    ensures var r := DisplayName(name, size);
            && r != [] && !IsWhitespace(r[0]) && !IsWhitespace(r[|r| - 1])
            && (name.Some? && !AllWhitespace(name.value) ==> r == Trim(name.value))
            && (name.None? || AllWhitespace(name.value) ==> r == "Spieler " + NatToString(size + 1))
  {
    if name.None? || AllWhitespace(name.value) {
      PlaceholderTrimmed(size + 1);
    }
  }

  /** Without a name, a player joining a registry of `size` players is called `Spieler <size + 1>`. */
  lemma Placeholder(size: nat)
    ensures DisplayName(None, size) == "Spieler " + NatToString(size + 1)
  {
    assert Trim("") == [];
  }

  /** The placeholder name is non-blank at both ends. */
  lemma PlaceholderTrimmed(n: nat)
    ensures var r := "Spieler " + NatToString(n);
            !IsWhitespace(r[0]) && !IsWhitespace(r[|r| - 1])
  {
    var d := NatToString(n);
    var r := "Spieler " + d;
    assert r[0] == 'S';
    assert r[|r| - 1] == d[|d| - 1] && IsDigit(d[|d| - 1]);
  }

  /** The record a player join stores: in the game, no points, no answer. */
  function NewPlayer(id: ConnId, name: string): (p: Player)
    ensures p.id == id && p.name == name
    ensures p.status == Alive && p.score == 0 && p.answer == None
  {
    Player(id, name, Alive, 0, None)
  }

  // ---------------------------------------------------------------------
  // Per-player updates applied by the handlers' forEach loops
  // ---------------------------------------------------------------------

  function ClearAnswer(p: Player): (q: Player)
  {
    p.(answer := None)
  }

  /** A player still in the game whose answer is the correct index. */
  predicate Scores(p: Player, correct: int)
  {
    p.status == Alive && p.answer == Some(correct)
  }

  /** A player still in the game whose answer is missing or wrong. */
  predicate Loses(p: Player, correct: int)
  {
    p.status == Alive && p.answer != Some(correct)
  }

  /** The reveal step for one player: score, eliminate or skip. */
  function RevealPlayer(p: Player, correct: int): (q: Player)
    ensures q.id == p.id && q.name == p.name
    ensures Scores(p, correct) ==> q.status == Alive && q.score == p.score + 1 && q.answer == None
    ensures Loses(p, correct) ==> q.status == Out && q.score == p.score && q.answer == None
    ensures p.status == Out ==> q == p
  {
    if p.status != Alive then p
    else
      var scored := if p.answer == Some(correct) then p.(score := p.score + 1) else p.(status := Out);
      scored.(answer := None)
  }

  function ResetPlayer(p: Player): (q: Player)
  {
    p.(status := Alive, score := 0, answer := None)
  }

  function ClearAnswers(players: map<ConnId, Player>): (r: map<ConnId, Player>)
    ensures r.Keys == players.Keys
    ensures forall id :: id in r ==> r[id] == players[id].(answer := None)
  {
    map id | id in players :: ClearAnswer(players[id])
  }

  function RevealAll(players: map<ConnId, Player>, correct: int): (r: map<ConnId, Player>)
    ensures r.Keys == players.Keys
    ensures forall id :: id in r ==> r[id] == RevealPlayer(players[id], correct)
  {
    map id | id in players :: RevealPlayer(players[id], correct)
  }

  function ResetAll(players: map<ConnId, Player>): (r: map<ConnId, Player>)
    ensures r.Keys == players.Keys
    ensures forall id :: id in r ==> r[id] == Player(players[id].id, players[id].name, Alive, 0, None)
  {
    map id | id in players :: ResetPlayer(players[id])
  }

  // ---------------------------------------------------------------------
  // Counting and filtering a roster (defined from its last element, the
  // way a forEach loop extends its partial result)
  // ---------------------------------------------------------------------

  /** The number of players whose status is `alive`: `getMobAliveCount`. */
  function AliveCount(ps: seq<Player>): (n: nat)
    ensures n <= |ps|
  {
    if ps == [] then 0
    else AliveCount(ps[..|ps| - 1]) + (if ps[|ps| - 1].status == Alive then 1 else 0)
  }

  /** The count looks at statuses only. */
  lemma {:induction false} SameStatusesSameCount(ps: seq<Player>, qs: seq<Player>)
    requires |ps| == |qs|
    requires forall k :: 0 <= k < |ps| ==> ps[k].status == qs[k].status
    ensures AliveCount(ps) == AliveCount(qs)
  {
    if ps != [] {
      SameStatusesSameCount(ps[..|ps| - 1], qs[..|qs| - 1]);
    }
  }

  /** The number of players still in the game who answered `correct`. */
  function Survivors(ps: seq<Player>, correct: int): (n: nat)
    ensures n <= AliveCount(ps)
  {
    if ps == [] then 0
    else Survivors(ps[..|ps| - 1], correct) + (if Scores(ps[|ps| - 1], correct) then 1 else 0)
  }

  /** The ids a reveal eliminates, in roster order: the `eliminated` array. */
  function Eliminated(ps: seq<Player>, correct: int): (e: seq<ConnId>)
    ensures |e| <= |ps|
  {
    if ps == [] then []
    else
      var last := ps[|ps| - 1];
      Eliminated(ps[..|ps| - 1], correct) + (if Loses(last, correct) then [last.id] else [])
  }

  /**
   * The reveal carried out one registered player at a time along `order`, as
   * the `forEach` over the registry does: the updated registry and the ids
   * eliminated so far.
   */
  function RevealAlong(order: seq<ConnId>, players: map<ConnId, Player>, correct: int)
    : (r: (map<ConnId, Player>, seq<ConnId>))
    requires forall id :: id in order ==> id in players
    ensures r.0.Keys == players.Keys
    ensures |r.1| <= |order|
  {
    if order == [] then (players, [])
    else
      var (done, eliminated) := RevealAlong(order[..|order| - 1], players, correct);
      var id := order[|order| - 1];
      (done[id := RevealPlayer(done[id], correct)],
       eliminated + if Loses(done[id], correct) then [id] else [])
  }

  /** `players.delete(id)` on the insertion order. */
  function RemoveId(order: seq<ConnId>, id: ConnId): (r: seq<ConnId>)
    ensures forall x :: x in r <==> x in order && x != id
    ensures Distinct(order) ==> Distinct(r)
    ensures |r| <= |order|
    ensures id !in order ==> r == order
    ensures Distinct(order) ==> forall k :: 0 <= k < |order| && order[k] == id ==> r == order[..k] + order[k + 1..]
  {
    if order == [] then []
    else
      var rest := RemoveId(order[1..], id);
      if order[0] == id then
        RemoveIdHead(order, id, rest);
        rest
      else
        RemoveIdKeep(order, id, rest);
        RemoveIdKeepOrder(order, id, rest);
        [order[0]] + rest
  }

  /** Dropping the head of `order` when it is the deleted id. */
  lemma RemoveIdHead(order: seq<ConnId>, id: ConnId, rest: seq<ConnId>)
    requires order != [] && order[0] == id
    requires forall x :: x in rest <==> x in order[1..] && x != id
    requires Distinct(order[1..]) ==> Distinct(rest)
    requires |rest| <= |order| - 1
    requires id !in order[1..] ==> rest == order[1..]
    ensures forall x :: x in rest <==> x in order && x != id
    ensures Distinct(order) ==> Distinct(rest)
    ensures |rest| <= |order|
    ensures id !in order ==> rest == order
    ensures Distinct(order) ==> forall k :: 0 <= k < |order| && order[k] == id ==> rest == order[..k] + order[k + 1..]
  {
    var tail := order[1..];
    assert forall x :: x in order <==> x == order[0] || x in tail;
    if Distinct(order) {
      assert Distinct(tail);
      assert id !in tail by {
        forall m | 0 <= m < |tail| ensures tail[m] != id {
          assert tail[m] == order[m + 1];
        }
      }
      assert order[..0] + tail == tail;
    }
  }

  /** Keeping the head of `order` when it is another id. */
  lemma RemoveIdKeep(order: seq<ConnId>, id: ConnId, rest: seq<ConnId>)
    requires order != [] && order[0] != id
    requires forall x :: x in rest <==> x in order[1..] && x != id
    requires Distinct(order[1..]) ==> Distinct(rest)
    requires |rest| <= |order| - 1
    requires id !in order[1..] ==> rest == order[1..]
    ensures forall x :: x in [order[0]] + rest <==> x in order && x != id
    ensures Distinct(order) ==> Distinct([order[0]] + rest)
    ensures |[order[0]] + rest| <= |order|
    ensures id !in order ==> [order[0]] + rest == order
  {
    var tail := order[1..];
    var r := [order[0]] + rest;
    assert order == [order[0]] + tail;
    assert forall x :: x in order <==> x == order[0] || x in tail;
    assert forall x :: x in r <==> x == order[0] || x in rest;
    if id !in order {
      assert id !in tail;
    }
    if Distinct(order) {
      assert Distinct(tail) && order[0] !in tail;
      assert order[0] !in rest;
      forall i, j | 0 <= i < j < |r| ensures r[i] != r[j] {
        if i == 0 {
          assert r[j] == rest[j - 1];
        } else {
          assert r[i] == rest[i - 1] && r[j] == rest[j - 1];
        }
      }
    }
  }

  /** Keeping the head of `order` keeps the order of the remaining ids. */
  lemma RemoveIdKeepOrder(order: seq<ConnId>, id: ConnId, rest: seq<ConnId>)
    requires order != [] && order[0] != id
    requires Distinct(order[1..]) ==>
               forall k :: 0 <= k < |order[1..]| && order[1..][k] == id ==> rest == order[1..][..k] + order[1..][k + 1..]
    ensures Distinct(order) ==> forall k :: 0 <= k < |order| && order[k] == id ==> [order[0]] + rest == order[..k] + order[k + 1..]
  {
    var tail := order[1..];
    if Distinct(order) {
      assert Distinct(tail);
      forall k | 0 <= k < |order| && order[k] == id ensures [order[0]] + rest == order[..k] + order[k + 1..] {
        assert tail[k - 1] == id;
        assert rest == tail[..k - 1] + tail[k..];
        assert order[..k] == [order[0]] + tail[..k - 1];
        assert order[k + 1..] == tail[k..];
      }
    }
  }

  // ---------------------------------------------------------------------
  // Lemmas
  // ---------------------------------------------------------------------

  /**
   * Walking a registry order without repetitions reveals each listed player
   * exactly once, leaves the others alone, and collects exactly the ids that
   * Eliminated lists for the roster.
   */
  lemma {:induction false} RevealAlongMeaning(order: seq<ConnId>, players: map<ConnId, Player>, correct: int)
    requires Distinct(order) && forall id :: id in order ==> id in players
    requires forall id :: id in players ==> players[id].id == id
    ensures var r := RevealAlong(order, players, correct);
            && (forall id :: id in players ==>
                  r.0[id] == if id in order then RevealPlayer(players[id], correct) else players[id])
            && r.1 == Eliminated(RosterOf(order, players), correct)
  {
    if order != [] {
      var init := order[..|order| - 1];
      var last := order[|order| - 1];
      assert Distinct(init);
      RevealAlongMeaning(init, players, correct);
      var done := RevealAlong(init, players, correct).0;
      assert last !in init;
      assert done[last] == players[last];
      assert forall id :: id in order <==> id in init || id == last;
      var roster := RosterOf(order, players);
      assert roster[..|order| - 1] == RosterOf(init, players);
      assert roster[|order| - 1] == players[last];
    }
  }

  /** On a well-formed registry, the walk along the insertion order is the reveal of every player. */
  lemma RevealAlongIsRevealAll(order: seq<ConnId>, players: map<ConnId, Player>, correct: int)
    requires Distinct(order) && forall id :: id in order <==> id in players
    requires forall id :: id in players ==> players[id].id == id
    ensures RevealAlong(order, players, correct)
            == (RevealAll(players, correct), Eliminated(RosterOf(order, players), correct))
  {
    RevealAlongMeaning(order, players, correct);
    var r := RevealAlong(order, players, correct);
    var all := RevealAll(players, correct);
    assert r.0 == all by {
      forall id | id in all ensures r.0[id] == all[id] {
        assert id in order;
      }
    }
  }

  /** Appending a new id keeps the insertion order free of repetitions. */
  lemma AppendDistinct(order: seq<ConnId>, id: ConnId)
    requires Distinct(order) && id !in order
    ensures Distinct(order + [id])
  {
    var longer := order + [id];
    forall i, j | 0 <= i < j < |longer| ensures longer[i] != longer[j] {
      if j == |order| {
        assert longer[i] == order[i];
      }
    }
  }

  /** A list without repetitions has as many members as entries. */
  lemma {:induction false} DistinctCard<T>(xs: seq<T>)
    requires Distinct(xs)
    ensures |set x | x in xs| == |xs|
  {
    if xs != [] {
      var init := xs[..|xs| - 1];
      var last := xs[|xs| - 1];
      DistinctCard(init);
      assert (set x | x in xs) == (set x | x in init) + {last};
      assert last !in init;
    }
  }

  /** The registry size `players.size` equals the length of the insertion order. */
  lemma RegistrySize(s: State)
    requires Wf(s)
    ensures |s.players| == |s.order|
  {
    DistinctCard(s.order);
    assert s.players.Keys == set x | x in s.order;
  }

  /** Counting the alive entries along the insertion order counts the set of alive ids. */
  lemma {:induction false} AliveCountIsSetSize(order: seq<ConnId>, players: map<ConnId, Player>)
    requires Distinct(order)
    requires forall id :: id in players <==> id in order
    ensures AliveCount(RosterOf(order, players)) == |AliveSet(players)|
  {
    if order != [] {
      var init := order[..|order| - 1];
      var last := order[|order| - 1];
      var rest := players - {last};
      DropLast(order, players, rest);
      AliveCountIsSetSize(init, rest);
      var ps := RosterOf(order, players);
      assert ps[..|ps| - 1] == RosterOf(init, rest);
      AliveSetSplit(players, last);
    }
  }

  ghost function AliveSet(players: map<ConnId, Player>): set<ConnId>
  {
    set id | id in players && players[id].status == Alive
  }

  lemma DropLast(order: seq<ConnId>, players: map<ConnId, Player>, rest: map<ConnId, Player>)
    requires order != [] && Distinct(order)
    requires forall id :: id in players <==> id in order
    requires rest == players - {order[|order| - 1]}
    ensures Distinct(order[..|order| - 1])
    ensures forall id :: id in rest <==> id in order[..|order| - 1]
  {
    var init := order[..|order| - 1];
    forall id ensures id in rest <==> id in init {
      if id in init {
        var k :| 0 <= k < |init| && init[k] == id;
        assert order[k] == id;
      }
      if id in order && id != order[|order| - 1] {
        var k :| 0 <= k < |order| && order[k] == id;
        assert init[k] == id;
      }
    }
  }

  lemma AliveSetSplit(players: map<ConnId, Player>, last: ConnId)
    requires last in players
    ensures |AliveSet(players)| ==
            |AliveSet(players - {last})| + (if players[last].status == Alive then 1 else 0)
  {
    var rest := players - {last};
    var before := AliveSet(rest);
    var after := AliveSet(players);
    var extra: set<ConnId> := if players[last].status == Alive then {last} else {};
    forall id | id in after ensures id in before + extra {
      if id != last {
        assert id in rest;
      }
    }
    forall id | id in before + extra ensures id in after {
      if id in before {
        assert rest[id] == players[id];
      }
    }
    assert after == before + extra;
    assert before !! extra;
  }

  /** A reveal eliminates exactly the players in the game without the correct answer. */
  lemma {:induction false} EliminatedMembers(ps: seq<Player>, correct: int, x: ConnId)
    ensures x in Eliminated(ps, correct) <==>
            exists k :: 0 <= k < |ps| && ps[k].id == x && Loses(ps[k], correct)
  {
    if ps != [] {
      var init := ps[..|ps| - 1];
      EliminatedMembers(init, correct, x);
      if x in Eliminated(init, correct) {
        var k :| 0 <= k < |init| && init[k].id == x && Loses(init[k], correct);
        assert ps[k] == init[k];
      }
      if exists k :: 0 <= k < |ps| && ps[k].id == x && Loses(ps[k], correct) {
        var k :| 0 <= k < |ps| && ps[k].id == x && Loses(ps[k], correct);
        if k < |init| { assert init[k] == ps[k]; }
      }
    }
  }

  /** With distinct ids in the roster, nobody is eliminated twice. */
  lemma {:induction false} EliminatedDistinct(ps: seq<Player>, correct: int)
    requires forall i, j :: 0 <= i < j < |ps| ==> ps[i].id != ps[j].id
    ensures Distinct(Eliminated(ps, correct))
  {
    if ps != [] {
      var init := ps[..|ps| - 1];
      var last := ps[|ps| - 1];
      EliminatedDistinct(init, correct);
      if Loses(last, correct) {
        EliminatedMembers(init, correct, last.id);
        assert last.id !in Eliminated(init, correct);
      }
    }
  }

  /** Every player in the game before a reveal either survives or is eliminated. */
  lemma {:induction false} RevealPartition(ps: seq<Player>, correct: int)
    ensures AliveCount(ps) == Survivors(ps, correct) + |Eliminated(ps, correct)|
  {
    if ps != [] {
      RevealPartition(ps[..|ps| - 1], correct);
    }
  }

  /** After a reveal exactly the survivors are still alive. */
  lemma {:induction false} AliveAfterReveal(ps: seq<Player>, qs: seq<Player>, correct: int)
    requires |qs| == |ps|
    requires forall k :: 0 <= k < |ps| ==> qs[k] == RevealPlayer(ps[k], correct)
    ensures AliveCount(qs) == Survivors(ps, correct)
  {
    if ps != [] {
      AliveAfterReveal(ps[..|ps| - 1], qs[..|qs| - 1], correct);
    }
  }

  /**
   * The reveal of a whole registry, counted along its insertion order: the
   * eliminated ids are exactly the players in the game without the correct
   * answer, each once; the players alive afterwards are exactly those who
   * answered correctly; and the two groups make up everybody who was alive.
   */
  lemma RevealAccounting(order: seq<ConnId>, players: map<ConnId, Player>, correct: int)
    requires Distinct(order) && forall id :: id in players <==> id in order
    requires forall id :: id in players ==> players[id].id == id
    ensures var ps := RosterOf(order, players);
            var e := Eliminated(ps, correct);
            && (forall x :: x in e <==> x in players && Loses(players[x], correct))
            && Distinct(e)
            && AliveCount(RosterOf(order, RevealAll(players, correct))) == Survivors(ps, correct)
            && Survivors(ps, correct) + |e| == AliveCount(ps)
  {
    var ps := RosterOf(order, players);
    forall x ensures x in Eliminated(ps, correct) <==> x in players && Loses(players[x], correct) {
      EliminatedMembers(ps, correct, x);
      if x in players && Loses(players[x], correct) {
        var k :| 0 <= k < |order| && order[k] == x;
        assert ps[k].id == x && Loses(ps[k], correct);
      }
    }
    EliminatedDistinct(ps, correct);
    AliveAfterReveal(ps, RosterOf(order, RevealAll(players, correct)), correct);
    RevealPartition(ps, correct);
  }

  /**
   * A reveal when nobody in the game holds an answer (a second reveal in a
   * row) eliminates every player still in the game.
   */
  lemma {:induction false} RevealWithoutAnswers(ps: seq<Player>, correct: int)
    requires forall k :: 0 <= k < |ps| && ps[k].status == Alive ==> ps[k].answer.None?
    ensures Survivors(ps, correct) == 0
    ensures |Eliminated(ps, correct)| == AliveCount(ps)
  {
    if ps != [] {
      RevealWithoutAnswers(ps[..|ps| - 1], correct);
    }
    RevealPartition(ps, correct);
  }
}
