/** `ConversationManager` of js/chatbot.js: a bounded window of recent turns
    and the context the resolver's fallback reads. */
module Conversation {
  import opened Options

  /** Who spoke a turn. */
  datatype Role = User | Bot

  /** One recorded turn. The timestamp is an opaque clock reading supplied
      by the caller. */
  datatype Turn = Turn(role: Role, content: string, intent: Option<string>, timestamp: nat)

  /** What the conversation is about. Only `currentTopic` is ever written by
      the engine. */
  datatype Context = Context(currentTopic: Option<string>, lastEntity: Option<string>, awaitingFollowUp: bool)

  datatype Manager = Manager(history: seq<Turn>, context: Context)

  /** The most turns the window keeps. */
  const HistoryLimit: nat := 10

  /** A fresh manager: no turns, no topic, no entity, not awaiting anything. */
  const Initial: Manager := Manager([], Context(None, None, false))

  /** JavaScript truthiness of an optional intent string: present and non-empty. */
  predicate Truthy(intent: Option<string>) {
    intent.Some? && intent.value != ""
  }

  /** Append a turn, dropping the oldest one when the window overflows, and
      make the turn's intent the current topic when a bot turn carries one. */
  function Push(m: Manager, t: Turn): (r: Manager)
    ensures r.history != [] && r.history[|r.history| - 1] == t
    ensures |m.history| < HistoryLimit ==> r.history == m.history + [t]
    ensures |m.history| >= HistoryLimit ==> r.history == m.history[1..] + [t]
    ensures |m.history| <= HistoryLimit ==> |r.history| <= HistoryLimit
    ensures r.context.currentTopic == (if t.role == Bot && Truthy(t.intent) then t.intent else m.context.currentTopic)
    ensures r.context.lastEntity == m.context.lastEntity
    ensures r.context.awaitingFollowUp == m.context.awaitingFollowUp
  {
    var pushed := m.history + [t];
    var history := if |pushed| > HistoryLimit then pushed[1..] else pushed;
    var context := if Truthy(t.intent) && t.role == Bot then m.context.(currentTopic := t.intent) else m.context;
    Manager(history, context)
  }

  /** `addTurn(role, content, intent)` at clock reading `now`: the turn,
      stamped with the clock, joins the window, which stays the last ten of
      everything said; the topic follows the turn's intent only when a bot
      spoke and the intent is truthy. */
  function AddTurn(m: Manager, role: Role, content: string, intent: Option<string>, now: nat): (r: Manager)
    ensures r.history != [] && r.history[|r.history| - 1] == Turn(role, content, intent, now)
    ensures |m.history| <= HistoryLimit ==> r.history == Window(m.history + [Turn(role, content, intent, now)])
    ensures r.context.currentTopic == (if role == Bot && Truthy(intent) then intent else m.context.currentTopic)
    ensures r.context.lastEntity == m.context.lastEntity && r.context.awaitingFollowUp == m.context.awaitingFollowUp
  {
    var t := Turn(role, content, intent, now);
    if |m.history| <= HistoryLimit then
      WindowStep(m.history, [t]);
      assert Push(m, t).history + [t][1..] == Push(m, t).history;
      Push(m, t)
    else
      Push(m, t)
  }

  /** Record the turns one after another. */
  function Replay(m: Manager, turns: seq<Turn>): Manager
    decreases |turns|
  {
    if turns == [] then m else Replay(Push(m, turns[0]), turns[1..])
  }

  /** The last `HistoryLimit` turns of `all`, or all of them when there are fewer. */
  function Window(all: seq<Turn>): seq<Turn> {
    all[|all| - Min(|all|, HistoryLimit)..]
  }

  function Min(x: nat, y: nat): nat {
    if x <= y then x else y
  }

  /** The window after any sequence of turns is the last turns of everything
      said, at most ten of them. */
  lemma {:induction false} ReplayKeepsLastTen(m: Manager, turns: seq<Turn>)
    requires |m.history| <= HistoryLimit
    ensures Replay(m, turns).history == Window(m.history + turns)
    decreases |turns|
  {
    if turns == [] {
      assert m.history + turns == m.history;
    } else {
      var m1 := Push(m, turns[0]);
      ReplayKeepsLastTen(m1, turns[1..]);
      WindowStep(m.history, turns);
    }
  }

  /** Pushing the first turn onto a window and then looking at the rest sees
      the same last ten turns as looking at everything at once. */
  lemma WindowStep(h: seq<Turn>, turns: seq<Turn>)
    requires |h| <= HistoryLimit && turns != []
    ensures var pushed := h + [turns[0]];
            var h1 := if |pushed| > HistoryLimit then pushed[1..] else pushed;
            Window(h1 + turns[1..]) == Window(h + turns)
  {
    var pushed := h + [turns[0]];
    var all := h + turns;
    assert all == pushed + turns[1..];
    if |pushed| > HistoryLimit {
      assert pushed[1..] + turns[1..] == all[1..];
    }
  }

  /** Eleven turns into a fresh conversation, the first has been evicted:
      the window is exactly the last ten. */
  lemma EleventhTurnEvictsFirst(turns: seq<Turn>)
    requires |turns| == 11
    ensures Replay(Initial, turns).history == turns[1..]
  {
    ReplayKeepsLastTen(Initial, turns);
    assert Initial.history + turns == turns;
  }

  /** The topic that the bot turns among `turns` leave behind: the intent of
      the last bot turn carrying a truthy intent, or `before` if there is none. */
  function LastBotTopic(turns: seq<Turn>, before: Option<string>): Option<string>
    decreases |turns|
  {
    if turns == [] then before
    else
      var last := turns[|turns| - 1];
      if last.role == Bot && Truthy(last.intent) then last.intent
      else LastBotTopic(turns[..|turns| - 1], before)
  }

  /** The current topic only ever reflects bot turns that declared an
      intent: after any sequence of turns it is the last such intent. */
  lemma {:induction false} ReplayTopic(m: Manager, turns: seq<Turn>)
    ensures Replay(m, turns).context.currentTopic == LastBotTopic(turns, m.context.currentTopic)
    decreases |turns|
  {
    if turns != [] {
      var m1 := Push(m, turns[0]);
      ReplayTopic(m1, turns[1..]);
      LastBotTopicSplit(turns, m.context.currentTopic);
    }
  }

  /** Peeling the first turn off `LastBotTopic` folds it into the starting topic. */
  lemma {:induction false} LastBotTopicSplit(turns: seq<Turn>, before: Option<string>)
    requires turns != []
    ensures LastBotTopic(turns, before) ==
              LastBotTopic(turns[1..], if turns[0].role == Bot && Truthy(turns[0].intent) then turns[0].intent else before)
    decreases |turns|
  {
    if |turns| > 1 {
      var init := turns[..|turns| - 1];
      assert init[1..] == turns[1..][..|turns[1..]| - 1];
      assert init[0] == turns[0];
      LastBotTopicSplit(init, before);
    }
  }

  /** The user turns of the window, in order: `history.filter(t => t.role === 'user')`. */
  function UserTurns(history: seq<Turn>): seq<Turn> {
    if history == [] then []
    else if history[0].role == User then [history[0]] + UserTurns(history[1..])
    else UserTurns(history[1..])
  }

  /** `getLastUserMessage()`: the last of the user turns, or nothing. Any
      answer is a user turn of the window, and there is none exactly when
      the user has not spoken in the window. */
  function LastUserMessage(m: Manager): (r: Option<Turn>)
    ensures r.Some? ==> r.value in m.history && r.value.role == User
    ensures r.None? <==> forall i :: 0 <= i < |m.history| ==> m.history[i].role != User
  {
    LastUserTurn(m.history);
    UserTurnsMembers(m.history);
    var users := UserTurns(m.history);
    if |users| > 0 then Some(users[|users| - 1]) else None
  }

  /** The last user message is the most recent turn spoken by the user:
      no user turn follows it in the window. */
  lemma LastUserMessageIsMostRecent(m: Manager)
    ensures LastUserMessage(m).Some? ==>
      exists i :: (0 <= i < |m.history| && m.history[i] == LastUserMessage(m).value && m.history[i].role == User
                   && forall j :: i < j < |m.history| ==> m.history[j].role != User)
  {
    LastUserTurn(m.history);
  }

  lemma {:induction false} LastUserTurn(h: seq<Turn>)
    ensures UserTurns(h) == [] <==> forall i :: 0 <= i < |h| ==> h[i].role != User
    ensures UserTurns(h) != [] ==>
      exists i :: (0 <= i < |h| && h[i] == UserTurns(h)[|UserTurns(h)| - 1] && h[i].role == User
                   && forall j :: i < j < |h| ==> h[j].role != User)
  {
    if h != [] {
      LastUserTurn(h[1..]);
      var tail := UserTurns(h[1..]);
      if tail != [] {
        var i :| 0 <= i < |h[1..]| && h[1..][i] == tail[|tail| - 1] && h[1..][i].role == User
                 && forall j :: i < j < |h[1..]| ==> h[1..][j].role != User;
        assert h[i + 1] == h[1..][i];
        assert forall j :: i + 1 < j < |h| ==> h[j] == h[1..][j - 1];
      } else if h[0].role == User {
        assert forall j :: 0 < j < |h| ==> h[j] == h[1..][j - 1];
      } else {
        assert forall j :: 0 < j < |h| ==> h[j] == h[1..][j - 1];
      }
    }
  }

  /** A turn survives the filter exactly when it is in the window and the
      user spoke it. */
  lemma {:induction false} UserTurnsMembers(h: seq<Turn>)
    ensures forall t :: t in UserTurns(h) <==> t in h && t.role == User
  {
    if h != [] {
      UserTurnsMembers(h[1..]);
      assert h == [h[0]] + h[1..];
    }
  }

  /** The user-turn filter works turn by turn, so it keeps the order and the
      repetitions of the user turns. */
  lemma {:induction false} UserTurnsAppend(h: seq<Turn>, g: seq<Turn>)
    ensures UserTurns(h + g) == UserTurns(h) + UserTurns(g)
    decreases |h|
  {
    if h == [] {
      assert h + g == g;
    } else {
      assert (h + g)[0] == h[0] && (h + g)[1..] == h[1..] + g;
      UserTurnsAppend(h[1..], g);
    }
  }

  /** One field of the context, with its new value, as `updateContext(key, value)`
      is called with. */
  datatype ContextUpdate =
    | SetCurrentTopic(topic: Option<string>)
    | SetLastEntity(entity: Option<string>)
    | SetAwaitingFollowUp(awaiting: bool)

  /** `updateContext(key, value)`: the named field takes the value; the other
      fields and the history are untouched. */
  function UpdateContext(m: Manager, u: ContextUpdate): (r: Manager)
    ensures r.history == m.history
    ensures u.SetCurrentTopic? ==> r.context == m.context.(currentTopic := u.topic)
    ensures u.SetLastEntity? ==> r.context == m.context.(lastEntity := u.entity)
    ensures u.SetAwaitingFollowUp? ==> r.context == m.context.(awaitingFollowUp := u.awaiting)
  {
    match u
    case SetCurrentTopic(t) => m.(context := m.context.(currentTopic := t))
    case SetLastEntity(e) => m.(context := m.context.(lastEntity := e))
    case SetAwaitingFollowUp(a) => m.(context := m.context.(awaitingFollowUp := a))
  }
}
