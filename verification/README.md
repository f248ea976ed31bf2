# Last-one-standing trivia server: session state machine

This project models the game server of a "1 vs 100" style trivia show. It
covers the part of `server.js` that runs the session. Each connection is either:

- the **host**, which starts questions, reveals answers and resets the game; or
- a **player**, who joins with a name and answers one question at a time.

A player who misses a question is out until the host resets the game or the player joins again from the same connection.

The server keeps five module-level variables:

- the player registry: a `Map` from connection id to player record, iterated in insertion order;
- the host connection id;
- a question counter;
- the active question;
- the stage: `lobby`, `question` or `reveal`.

Six socket handlers change these variables:

- `join`
- `host-start-question`
- `submit-answer`
- `host-reveal-answer`
- `host-reset-game`
- `disconnect`

After every change the server pushes views of the state:

- a public view to everyone, with no answer values and no correct index;
- a host view to the host connection, with everything.

The model is in six modules:

- `Text` (text.dfy): `String.prototype.trim`, and the decimal rendering used in default player names.
- `Game` (game.dfy): the entities and the session state as values.
  - The per-player updates that the handlers' `forEach` loops apply.
  - The counts over the registry.
  - Their lemmas. The main ones: the reveal partitions the players still in the game, and eliminates each loser exactly once, in registry order.
- `Views` (views.dfy):
  - `buildPublicState`, `buildHostState`, `broadcastState` and `getMobAliveCount` as functions.
  - The messages the server emits.
  - The redaction property of the public view.
- `Handlers` (handlers.dfy): each socket handler as a function. It maps the state before the event to the state after it, plus the messages emitted, in order.
- `Server` (server.dfy): the class `Server`.
  - The module-level variables are its fields.
  - Each handler is a method that updates the fields in place. The `forEach` loops walk the insertion order.
  - Every handler method is proved to leave exactly the state, and return exactly the messages, that the `Handlers` function describes, and to preserve the session invariant.
  - The loop helpers are proved equal to `ClearAnswers`, `RevealAlong` and `ResetAll`. The read-only methods are proved equal to the `Views` functions.
- `Properties` (properties.dfy): facts about sequences of events and about handler outputs.
  - The invariant holds in every reachable state.
  - Scores never drop, and players who are out stay out, except through a reset by the host or a player join from the same connection.
  - What a reveal announces.
  - A second reveal in a row.
  - Last answer wins.
  - Repeated default names.
  - The host leaving, or being replaced.

The registry is a `map` plus a `seq` of its keys in insertion order. `Wf` says the two agree and that each record's `id` is its key. `Map.set` on an existing key keeps that key's place in the order, and `Map.delete` keeps the other keys in their order. The model does the same: a second player join from the same connection overwrites the record in place and does not add a player, and a disconnect removes only the sender's id from the order.

`submit-answer` accepts any payload whose `typeof` is `number`. The model covers the integers among those: `Some(n)` is an integer payload and `None` is any payload that is not a number.

## Model

| member | source | states |
|---|---|---|
| Text.Trim | server.js:32 | `trim` gives the part of the name between its leading white space (LeadingBlanks of them) and its trailing white space, which is all white space. The result is empty exactly when the name is all white space, and a non-empty result has no white space at either end. |
| Text.NatToString | server.js:32 | The `${n}` rendering: a non-empty string of decimal digits with no leading zero. |
| Text.NatToStringRoundTrip | server.js:32 | The decimal text in `Spieler ${players.size + 1}` reads back as the number it renders. |
| Text.LeadingBlanks | server.js:32 | The number of white space characters a name starts with: all of them are white space, and the next one is not. |
| Game.DisplayNameMeaning | server.js:32 | The display name is never empty and has no white space at either end. It is the trimmed name when a non-blank name is given. Otherwise it is `Spieler ` followed by the registry size plus one. |
| Game.NewPlayer | server.js:33-39 | The record a player join stores: the connection id and display name, alive, score 0, no answer. |
| Game.Placeholder | server.js:32 | A join without a name is called `Spieler <size + 1>`. |
| Game.Initial | server.js:14-18 | At process start there are no players and no host. The counter is 0, no question is active, the stage is `lobby`, and the session invariant holds. |
| Game.Roster | server.js:131 | `players.values()` lists every registered record once, in insertion order, and each record carries its own id. |
| Game.RevealPlayer | server.js:76-83 | One reveal step. A player still in the game with the correct answer scores one point. A player still in the game without it is set to out with the score unchanged. Either way the answer is cleared. A player already out is untouched. |
| Game.ClearAnswers | server.js:49-51 | Every registered player's answer is cleared, and nothing else changes. |
| Game.RevealAll | server.js:75-84 | Every registered player gets the one-player reveal step, and nothing else changes. |
| Game.ResetAll | server.js:99-103 | Every registered player is back in the game with score 0 and no answer, keeping id and name. |
| Game.AliveCount | server.js:162-168 | The alive count never exceeds the number of records counted. |
| Game.SameStatusesSameCount | server.js:162-168 | The alive count depends only on the players' statuses. |
| Game.Survivors | server.js:77-78 | The players who score at a reveal are among those alive before it. |
| Game.Eliminated | server.js:74-84 | The `eliminated` array is never longer than the roster. |
| Game.RevealAlong | server.js:75-84 | Walking the registry one player at a time keeps the registry's keys. It collects at most one id per player visited. |
| Game.RemoveId | server.js:113 | Deleting an id removes exactly that id from the insertion order. The other ids keep their relative order: the order is unchanged when the id is absent, and otherwise is the order with that one position cut out. No id repeats. |
| Game.RevealAlongMeaning | server.js:75-84 | The walk applies the reveal step exactly once to every listed player and leaves the others alone. The ids it collects are the eliminated players of the roster, in roster order. |
| Game.RevealAlongIsRevealAll | server.js:75-84 | On a well-formed registry, the in-order walk gives the whole-registry reveal and the eliminated list. |
| Game.RegistrySize | server.js:32 | `players.size` equals the length of the insertion order. |
| Game.AliveCountIsSetSize | server.js:162-168 | Counting alive records along the insertion order gives the number of registered ids whose status is `alive`. |
| Game.EliminatedMembers | server.js:74-84 | An id is in `eliminated` exactly when the roster holds a player with that id who was in the game without the correct answer. |
| Game.EliminatedDistinct | server.js:74-84 | When the ids in the roster are distinct, nobody appears twice in `eliminated`. |
| Game.RevealPartition | server.js:75-84 | Before a reveal, the alive players split into those who score and those who are eliminated. |
| Game.AliveAfterReveal | server.js:75-88 | After a reveal, the players still alive are exactly those who scored. |
| Game.RevealAccounting | server.js:70-92 | Over a whole registry, `eliminated` holds exactly the registered players in the game without the correct answer, each once. `mobAlive` afterwards is the number who answered correctly. The two together make up everyone alive before. |
| Game.RevealWithoutAnswers | server.js:75-84 | When no player still in the game holds an answer, nobody scores and every alive player is eliminated. |
| Views.MobAlive | server.js:162-168 | `getMobAliveCount` never exceeds the registry length. |
| Views.MobAliveCountsAlive | server.js:162-168 | `mobAlive` is the number of registered players whose status is `alive`, which is at most `players.size`. |
| Views.Announce | server.js:52-57 | The `question-started` payload carries the prompt, the options, the counter and the number of questions. It has no correct index. |
| Views.PublicPlayerOf | server.js:131-137 | A public player entry carries id, name, score and status. It says whether the player answered, not what. |
| Views.PublicView | server.js:125-148 | The public view copies stage, counter, total and `mobAlive`. It lists one redacted entry per registered player, in insertion order. It shows the question (without the correct index) exactly while the stage is `question` and a question is active. |
| Views.HostView | server.js:150-160 | The host view says a host is connected exactly when one is set. It carries the active question in full and every record in insertion order. |
| Views.Broadcast | server.js:118-123 | `broadcastState` sends the public view to everyone. It sends the host view to the host exactly when a host is set, and to nobody else. |
| Views.PublicViewRedacts | server.js:125-148 | Two states that differ only in answer values, the correct index or the host produce the same public view. |
| Views.SecretsArePrivate | server.js:125-148 | Changing any answer value or the correct index leaves the public view unchanged. |
| Handlers.OnJoin | server.js:27-42 | A join with role `host` is the host claim. Any other join registers a new alive record with score 0, no answer and the display name, computed from the registry size before the join. The registry's well-formedness and the session invariant are preserved. |
| Handlers.ClaimHost | server.js:28-30 | A host join sets the host to the sender and changes nothing else. The sender is sent a host view reporting a host, and then the state is broadcast. |
| Handlers.Register | server.js:33-41 | `players.set` stores the record under its id and leaves every other record alone. A new id is appended to the order and grows the registry by one; a known id keeps its place. Then the state is broadcast. |
| Handlers.OnStartQuestion | server.js:44-61 | From the host with a non-empty list, from any stage, it does four things: selects question `index mod length`, increments the counter, clears every answer, and opens the `question` stage. Then it emits `question-started`, the broadcast and the host view. Any other sender, or an empty list, changes nothing. |
| Handlers.OnSubmitAnswer | server.js:63-68 | A registered sender with a number payload in the `question` stage overwrites only their own answer, whatever their status, and a broadcast follows. Otherwise nothing changes. |
| Handlers.OnRevealAnswer | server.js:70-92 | From the host with a question active, in any stage: every player gets the reveal step and the stage becomes `reveal`. It then emits the correct index, the eliminated ids in registry order, and the alive count after the reveal, followed by the broadcast and the host view. Otherwise nothing changes. |
| Handlers.OnResetGame | server.js:94-107 | From the host, in any stage: the counter goes to 0, the active question is cleared, and the stage is `lobby`. Every player is revived with score 0 and no answer; membership, order and host are unchanged. It emits `game-reset`, the broadcast and the host view. Otherwise nothing changes. |
| Handlers.OnDisconnect | server.js:109-115 | Removes only the sender's record and cuts only the sender's position out of the insertion order, keeping the other players in order. Clears the host exactly when the sender was the host, with nobody promoted. Nothing else changes. Always broadcasts. |
| Handlers.RegisterKeepsInv | server.js:33-39 | Storing a fresh record keeps the registry well formed and keeps the session invariant. |
| Handlers.SetRecord | server.js:33-39 | `Map.set` adds a key exactly when the id is new, and keeps every other entry. |
| Handlers.AnswerKeepsInv | server.js:66 | Recording an answer during the `question` stage keeps the registry well formed and keeps the invariant. |
| Handlers.UnregisterKeepsInv | server.js:109-113 | Deleting the sender and clearing the host keep the registry well formed and keep the invariant. |
| Server.Server.constructor | server.js:14-18 | The fields start as the initial session state, which satisfies the invariant. |
| Server.Server.GetMobAliveCount | server.js:162-168 | The counting loop returns the alive count along the insertion order. |
| Server.Server.BuildPublicState | server.js:125-148 | Builds exactly the public view of the current fields. |
| Server.Server.BuildHostState | server.js:150-160 | Builds exactly the host view of the current fields. |
| Server.Server.BroadcastState | server.js:118-123 | Emits exactly the broadcast of the current fields. |
| Server.Server.Join | server.js:27-42 | Updates the fields to the state `OnJoin` gives and returns its messages, keeping the invariant. |
| Server.Server.ClaimHost | server.js:28-30 | Updates the fields to the host-claim state and returns its messages, keeping the invariant. |
| Server.Server.Register | server.js:33-41 | Updates the fields to the registration state and returns its broadcast, keeping the invariant. |
| Server.Server.StartQuestion | server.js:44-61 | Updates the fields to the state `OnStartQuestion` gives and returns its messages, keeping the invariant. |
| Server.Server.ClearAnswersInPlace | server.js:49-51 | The loop over the registry leaves every record with its answer cleared. |
| Server.Server.SubmitAnswer | server.js:63-68 | Updates the fields to the state `OnSubmitAnswer` gives and returns its messages, keeping the invariant. |
| Server.Server.RevealAnswer | server.js:70-92 | Updates the fields to the state `OnRevealAnswer` gives and returns its messages, including the `eliminated` array collected by the loop. Keeps the invariant. |
| Server.Server.RevealInPlace | server.js:74-84 | The loop over the insertion order leaves the registry and the collected ids exactly as the one-player-at-a-time reveal gives them. |
| Server.Server.RevealOne | server.js:76-83 | The `forEach` callback updates one record by the reveal step. It reports an elimination exactly when that player was in the game without the correct answer. |
| Server.Server.ResetGame | server.js:94-107 | Updates the fields to the state `OnResetGame` gives and returns its messages, keeping the invariant. |
| Server.Server.ResetPlayersInPlace | server.js:99-103 | The loop over the registry leaves every record revived with score 0 and no answer. |
| Server.Server.Disconnect | server.js:109-115 | Updates the fields to the state `OnDisconnect` gives and returns its broadcast, keeping the invariant. |
| Properties.Apply | server.js:27-115 | Every handler keeps the registry well formed, keeps the session invariant and never changes the question list. |
| Properties.ReachableStatesKeepInv | server.js:26-116 | Along any sequence of events, the session invariant and `mobAlive <= players.size` keep holding. The invariant says: a question is active exactly outside the lobby, and it is the one the counter last selected. |
| Properties.FromStart | server.js:14-18 | Every state reachable from process start satisfies the session invariant. |
| Properties.ScoresOnlyGrow | server.js:27-115 | No event lowers the score of a player who stays registered, except a reset by the host or a player join from that same connection. |
| Properties.OutStaysOut | server.js:27-115 | No event brings a player who is out back into the game, except a reset by the host or a player join from that same connection. |
| Properties.EventNoSetback | server.js:27-115 | Apart from a reset by the host or a player join from that connection, no event lowers a staying player's score or brings them back from out. |
| Properties.JoinKeepsOthers | server.js:27-40 | A join leaves every record untouched, except the record of a player join's own connection. |
| Properties.RevealNoSetback | server.js:70-84 | A reveal never lowers a score and never brings a player who is out back. |
| Properties.RevealOutcome | server.js:85-89 | The `question-reveal` payload's `eliminated` lists exactly the registered players in the game without the correct answer, each once. Its `mobAlive` is the number who answered correctly, and the two add up to `mobAlive` before. |
| Properties.SecondRevealEliminatesEveryone | server.js:70-84 | A reveal repeated in the `reveal` stage announces `mobAlive` 0, eliminates every player still alive, and leaves every player out. |
| Properties.LastAnswerWins | server.js:63-68 | Submitting two answers leaves the same state as submitting only the second. |
| Properties.JoinedName | server.js:32-39 | A player join stores the display name computed from the payload and the registry size before the join. |
| Properties.DefaultNamesRepeat | server.js:32 | Two nameless joins into registries of equal size get the same placeholder name. |
| Properties.HostLeaves | server.js:109-112 | When the host disconnects, the host is cleared. Only the public view is broadcast, and a host view would report no host. |
| Properties.SecondHostTakesOver | server.js:28-29 | Two host joins in a row leave the second as host, with nothing else changed. |
| Properties.ActiveQuestionFromList | server.js:46 | The active question is always an entry of the question list. So when every entry's correct index is within its options, so is the active one's. |
| Properties.ResetRevivesEveryone | server.js:94-103 | After a reset, `mobAlive` equals `players.size`. |

## Left out

- The HTTP side is not part of this model: Express, static files, the `/health` route, `listen` and the console message. None of it touches the session state.
- Reading `data/questions.json` is left out. The question list is a constructor parameter and is never changed. The data is never validated: a correct index outside the options is allowed, and `ActiveQuestionFromList` states what follows when the data is well formed.
- The socket.io transport becomes values. Each handler returns the messages it emits, in emission order, as an `Everyone` or `Only(id)` target with the message. Delivery, connection and reconnection are not modelled.
- Handlers run one at a time, as on the single-threaded event loop. No interleaving is modelled.
- JavaScript values are narrowed:
  - A `join` payload's `name` and `role` are `Option<string>`, with `None` for absent or falsy.
  - A truthy `name` that is not a string makes `.trim()` throw. A missing payload makes the destructuring throw. Neither is modelled.
  - `submit-answer` payloads are `Option<int>`. Fractional, `NaN` and infinite numbers, which `typeof === 'number'` also accepts, are not modelled.
  - A question entry that is `null` or not an object is not modelled.
- Scores and the question counter are unbounded naturals. JavaScript numbers lose precision above 2^53, which is not modelled.
- Player records are values in a map, not shared objects. Nothing else holds a reference to them in the source, so this loses no aliasing.
- Whether a host id still refers to an open connection is not modelled. The transport is outside the model, so the only link is that disconnect clears the host.
- `Views.MobAlive`: its own contract gives only the bound by the registry length. What it counts (alive players, at most `players.size`) is stated by `MobAliveCountsAlive`.
- `Game.DisplayName`: it has no contract of its own. Its meaning is stated by `DisplayNameMeaning`, `Placeholder` and `JoinedName`.
