/** The decision part of `processBotResponse` in js/chatbot.js as one step of
    a state machine: social replies first, then the resolver, and the bot
    turn it records, whose intent feeds the next turn's contextual fallback. */
module Dialogue {
  import opened Options
  import opened Text
  import opened Knowledge
  import opened Intents
  import opened Resolver
  import opened Conversation

  /** What the bot shows: the reply text and the suggestion chips under it. */
  datatype Reply = Reply(text: string, chips: seq<string>)

  const GratitudeReply: Reply := Reply("You're very welcome! Let me know if you need anything else.", ["Projects", "Contact"])
  const GratitudeRecord: string := "You're welcome..."
  const FarewellReply: Reply := Reply("Goodbye! Feels good to help you learn about Monisha.", [])
  const FarewellRecord: string := "Goodbye"
  const NoMatchText: string := "I'm not exactly sure about that, but verify with Monisha's <b>Portfolio</b>. Try asking about <b>Projects</b>, <b>Skills</b>, or <b>Contact Info</b>."
  const DefaultChips: seq<string> := ["Skills", "Projects", "Publications", "Contact"]

  /** `id.split('_')[0]`: the part of an id before its first underscore, the
      whole id when it has none. */
  function IdPrefix(id: string): (p: string)
    ensures |p| <= |id| && p == id[..|p|]
    ensures '_' !in p
    ensures |p| < |id| ==> id[|p|] == '_'
  {
    if id == [] || id[0] == '_' then []
    else [id[0]] + IdPrefix(id[1..])
  }

  /** The triggers of the first intent with the given name, as
      `intentMap[name]` reads them. */
  function TriggersOf(intents: seq<Intent>, name: string): seq<string> {
    if intents == [] then []
    else if intents[0].name == name then intents[0].triggers
    else TriggersOf(intents[1..], name)
  }

  /** The table has a row with this name, so `intentMap[name]` is defined. */
  predicate HasIntent(intents: seq<Intent>, name: string) {
    exists i :: 0 <= i < |intents| && intents[i].name == name
  }

  /** One response of the bot to `input`, given the manager after the user's
      turn was recorded, at clock reading `now`. Gratitude is checked before
      farewell, and both before the resolver; the recorded bot turn carries
      the intent the next fallback will consult. Every step adds exactly one
      bot turn, stamped with the clock, to the ten-turn window, and leaves the
      other context fields alone. */
  function BotStep(m: Manager, input: string, catalogue: seq<Entry>, intents: seq<Intent>, now: nat): (r: (Manager, Reply))
    requires HasIntent(intents, "gratitude") && HasIntent(intents, "farewell")
    ensures r.0.history != [] && r.0.history[|r.0.history| - 1].role == Bot
    ensures r.0.history[|r.0.history| - 1].timestamp == now
    ensures |m.history| <= HistoryLimit ==> r.0.history == Window(m.history + [r.0.history[|r.0.history| - 1]])
    ensures r.0.context.lastEntity == m.context.lastEntity && r.0.context.awaitingFollowUp == m.context.awaitingFollowUp
  {
    var lowered := Lower(input);
    if MatchCount(lowered, TriggersOf(intents, "gratitude")) > 0 then
      (AddTurn(m, Bot, GratitudeRecord, Some("gratitude"), now), GratitudeReply)
    else if MatchCount(lowered, TriggersOf(intents, "farewell")) > 0 then
      (AddTurn(m, Bot, FarewellRecord, Some("farewell"), now), FarewellReply)
    else match FindBestMatch(input, catalogue, intents, m.context.currentTopic)
      case Some(e) => (AddTurn(m, Bot, e.response, Some(IdPrefix(e.id)), now), Reply(e.response, e.followUpChips))
      case None => (AddTurn(m, Bot, NoMatchText, Some("fallback"), now), Reply(NoMatchText, DefaultChips))
  }

  /** The table as declared has both social intents. */
  lemma IntentMapHasSocialIntents()
    ensures HasIntent(IntentMap, "gratitude") && HasIntent(IntentMap, "farewell")
  {
    assert IntentMap[1].name == "gratitude";
    assert IntentMap[2].name == "farewell";
  }

  /** The topic a step leaves is the social intent, the answered entry's id
      prefix (unless that prefix is empty), or `fallback`. */
  lemma BotStepRecordsIntent(m: Manager, input: string, catalogue: seq<Entry>, intents: seq<Intent>, now: nat)
    requires HasIntent(intents, "gratitude") && HasIntent(intents, "farewell")
    ensures var (m', reply) := BotStep(m, input, catalogue, intents, now);
            var lowered := Lower(input);
            var answer := FindBestMatch(input, catalogue, intents, m.context.currentTopic);
            m'.context.currentTopic ==
              if MatchCount(lowered, TriggersOf(intents, "gratitude")) > 0 then Some("gratitude")
              else if MatchCount(lowered, TriggersOf(intents, "farewell")) > 0 then Some("farewell")
              else if answer.None? then Some("fallback")
              else if IdPrefix(answer.value.id) == "" then m.context.currentTopic
              else Some(IdPrefix(answer.value.id))
  {
  }

  /** The id prefix the bot records for each of the three canonical entries
      leads the contextual fallback straight back to that entry's id. */
  lemma ContinuationRoundTrip(id: string)
    requires id == "projects_list" || id == "publications" || id == "skills_core"
    ensures ContinuationTarget(IdPrefix(id)) == Some(id)
  {
    ProjectsListRoundTrip();
    PublicationsRoundTrip();
    SkillsCoreRoundTrip();
  }

  /** `projects_list` is recorded as `projects`, which continues into `projects_list`. */
  lemma ProjectsListRoundTrip()
    ensures ContinuationTarget(IdPrefix("projects_list")) == Some("projects_list")
  {
    assert "projects_list" == "projects" + "_" + "list";
    PrefixBeforeUnderscore("projects", "list");
  }

  /** `publications` has no underscore and is recorded whole. */
  lemma PublicationsRoundTrip()
    ensures ContinuationTarget(IdPrefix("publications")) == Some("publications")
  {
    PrefixBeforeUnderscore("publications", "");
  }

  /** `skills_core` is recorded as `skills`, which continues into `skills_core`. */
  lemma SkillsCoreRoundTrip()
    ensures ContinuationTarget(IdPrefix("skills_core")) == Some("skills_core")
  {
    assert "skills_core" == "skills" + "_" + "core";
    PrefixBeforeUnderscore("skills", "core");
  }

  /** An id made of an underscore-free head, an underscore and anything
      after it has that head as its prefix; so does the head on its own. */
  lemma {:induction false} PrefixBeforeUnderscore(head: string, rest: string)
    requires '_' !in head
    ensures IdPrefix(head + "_" + rest) == head
    ensures IdPrefix(head) == head
  {
    if head != [] {
      assert (head + "_" + rest)[1..] == head[1..] + "_" + rest;
      PrefixBeforeUnderscore(head[1..], rest);
    }
  }

  /** After the bot answers with an entry whose recorded id prefix continues
      back into its id (as for the three canonical entries), a follow-up that
      nothing intercepts, that scores zero everywhere and that asks for more
      is answered with the first entry carrying that id. */
  lemma FollowUpContinuesTopic(m: Manager, input: string, catalogue: seq<Entry>, intents: seq<Intent>, now: nat,
                               e: Entry, next: string)
    requires HasIntent(intents, "gratitude") && HasIntent(intents, "farewell")
    requires MatchCount(Lower(input), TriggersOf(intents, "gratitude")) == 0
    requires MatchCount(Lower(input), TriggersOf(intents, "farewell")) == 0
    requires FindBestMatch(input, catalogue, intents, m.context.currentTopic) == Some(e)
    requires ContinuationTarget(IdPrefix(e.id)) == Some(e.id)
    requires HasContinuationCue(next)
    requires Intercept(intents, catalogue, Lower(next)).None?
    requires Ranking.MaxScore(ScoresFor(next, catalogue)) == 0
    ensures FindBestMatch(next, catalogue, intents, BotStep(m, input, catalogue, intents, now).0.context.currentTopic)
            == FindById(catalogue, e.id)
  {
    var topic := BotStep(m, input, catalogue, intents, now).0.context.currentTopic;
    assert IdPrefix(e.id) != "";
    assert topic == Some(IdPrefix(e.id));
    FallbackOnlyWhenNothingScores(next, catalogue, intents, topic);
  }

  /** The negative partner of `FollowUpContinuesTopic`: after a step that
      thanked, said goodbye or found nothing, the recorded topic is
      `gratitude`, `farewell` or `fallback`, and none of them continues, so a
      later cue cannot revive an earlier answer. */
  lemma SocialStepNeverContinues(m: Manager, input: string, catalogue: seq<Entry>, intents: seq<Intent>, now: nat)
    requires HasIntent(intents, "gratitude") && HasIntent(intents, "farewell")
    requires MatchCount(Lower(input), TriggersOf(intents, "gratitude")) > 0
          || MatchCount(Lower(input), TriggersOf(intents, "farewell")) > 0
          || FindBestMatch(input, catalogue, intents, m.context.currentTopic).None?
    ensures var topic := BotStep(m, input, catalogue, intents, now).0.context.currentTopic;
            topic.Some? && ContinuationTarget(topic.value).None?
  {
    BotStepRecordsIntent(m, input, catalogue, intents, now);
    SocialTopicsStop();
  }

  /** The topics a social or unanswered step records continue nowhere. */
  lemma SocialTopicsStop()
    ensures ContinuationTarget("gratitude").None?
    ensures ContinuationTarget("farewell").None?
    ensures ContinuationTarget("fallback").None?
  {
  }
}
