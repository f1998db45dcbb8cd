/** `findBestMatch` of js/chatbot.js: interception, scoring, the confidence
    threshold with its low-score salvage, and the conversational fallback. */
module Resolver {
  import opened Options
  import opened Text
  import opened Tokenizer
  import opened Knowledge
  import opened Intents
  import opened Scoring
  import opened Ranking

  /** Scores at or above this are a confident match. */
  const Threshold: nat := 3

  /** Every catalogue entry with its score, in catalogue order. */
  function ScoreAll(tokens: seq<string>, lowered: string, catalogue: seq<Entry>): (r: seq<Scored<Entry>>)
    ensures |r| == |catalogue|
    ensures forall i :: 0 <= i < |r| ==> r[i] == Scored(catalogue[i], Score(tokens, lowered, catalogue[i]))
  {
    if catalogue == [] then []
    else [Scored(catalogue[0], Score(tokens, lowered, catalogue[0]))] + ScoreAll(tokens, lowered, catalogue[1..])
  }

  /** The input asks to continue the current topic. The test is made on the
      raw input, so it is case-sensitive: every cue starts with a lower-case
      letter, and an input without one is never a cue. */
  function HasContinuationCue(input: string): (b: bool)
    ensures b ==> exists i :: 0 <= i < |input| && (input[i] == 'm' || input[i] == 'd' || input[i] == 't')
  {
    IncludedFirstCharacter(input, "more");
    IncludedFirstCharacter(input, "detail");
    IncludedFirstCharacter(input, "tell me");
    Includes(input, "more") || Includes(input, "detail") || Includes(input, "tell me")
  }

  /** The cue test is case-sensitive: `more` is a cue, `More` is not. */
  lemma CueIsCaseSensitive()
    ensures HasContinuationCue("more")
    ensures !HasContinuationCue("More")
  {
    IncludesSelfAndEmpty("more");
    assert forall i :: 0 <= i < |"More"| ==> "More"[i] == 'M' || "More"[i] == 'o' || "More"[i] == 'r' || "More"[i] == 'e';
  }

  /** The entry id a remembered topic continues into. Exactly six topics
      continue, two into each of `projects_list`, `publications` and
      `skills_core`; every other topic, the social ones and `fallback`
      included, continues nowhere. */
  function ContinuationTarget(topic: string): (r: Option<string>)
    ensures r.Some? <==> topic in ["projects", "projects_list", "research", "publications", "skills", "skills_core"]
    ensures r == Some("projects_list") <==> topic == "projects" || topic == "projects_list"
    ensures r == Some("publications") <==> topic == "research" || topic == "publications"
    ensures r == Some("skills_core") <==> topic == "skills" || topic == "skills_core"
    ensures r.Some? ==> topic != ""
    ensures r.Some? ==> r.value == "projects_list" || r.value == "publications" || r.value == "skills_core"
  {
    if topic == "projects" || topic == "projects_list" then Some("projects_list")
    else if topic == "research" || topic == "publications" then Some("publications")
    else if topic == "skills" || topic == "skills_core" then Some("skills_core")
    else None
  }

  /** The contextual fallback, reached only when nothing scored. A known
      topic answers with `find` on its entry id, which may itself come back
      empty: the source returns that result without trying anything else. */
  function ContextFallback(input: string, catalogue: seq<Entry>, topic: Option<string>): (r: Option<Entry>)
    ensures r.Some? ==> HasContinuationCue(input) && topic.Some? && ContinuationTarget(topic.value).Some?
    ensures r.Some? ==> r == FindById(catalogue, ContinuationTarget(topic.value).value)
    ensures HasContinuationCue(input) && topic.Some? && ContinuationTarget(topic.value).Some? ==>
              r == FindById(catalogue, ContinuationTarget(topic.value).value)
  {
    if !HasContinuationCue(input) then None
    else match topic
      case None => None
      case Some(t) =>
        match ContinuationTarget(t)
        case None => None
        case Some(id) => FindById(catalogue, id)
  }

  /** `findBestMatch(userInput)`, with the catalogue, the intent table and the
      remembered topic passed in. Every answer is an entry of the catalogue,
      and an empty catalogue never answers, whatever the input, table or
      topic. */
  function FindBestMatch(input: string, catalogue: seq<Entry>, intents: seq<Intent>, topic: Option<string>): (r: Option<Entry>)
    ensures r.Some? ==> r.value in catalogue
    ensures catalogue == [] ==> r.None?
  {
    var lowered := Lower(input);
    var direct := Intercept(intents, catalogue, lowered);
    if direct.Some? then direct
    else
      var scored := ScoreAll(Tokenize(input), lowered, catalogue);
      var best := Scan(scored, Best(None, 0));
      var ranked := SortDescending(Positives(scored));
      ScanFromZero(scored);
      PositivesKeepFirstMax(scored);
      if best.score < Threshold then
        if |ranked| > 0 then
          SalvagePicksFirstMax(scored);
          Some(ranked[0].item)
        else ContextFallback(input, catalogue, topic)
      else best.item
  }

  /** The scores the resolver computes for an input. */
  function ScoresFor(input: string, catalogue: seq<Entry>): seq<Scored<Entry>> {
    ScoreAll(Tokenize(input), Lower(input), catalogue)
  }

  /** Interception has absolute priority: when an intent fires, its
      canonical entry is the answer, whatever the scores. */
  lemma InterceptWins(input: string, catalogue: seq<Entry>, intents: seq<Intent>, topic: Option<string>, i: nat)
    requires i < |intents| && Fires(intents[i], catalogue, Lower(input))
    requires forall j :: 0 <= j < i ==> !Fires(intents[j], catalogue, Lower(input))
    ensures FindBestMatch(input, catalogue, intents, topic) == FindById(catalogue, TargetOf(intents[i].name).value)
  {
    FirstFiringIntentWins(intents, catalogue, Lower(input), i);
  }

  /** Without interception and with some positive score, the answer is the
      first catalogue entry with the maximum score, in the confident branch
      (strict `>` scan) and in the salvage branch (stable sort) alike. */
  lemma BestScoreWins(input: string, catalogue: seq<Entry>, intents: seq<Intent>, topic: Option<string>)
    requires Intercept(intents, catalogue, Lower(input)).None?
    requires MaxScore(ScoresFor(input, catalogue)) > 0
    ensures catalogue != []
    ensures FindBestMatch(input, catalogue, intents, topic) == Some(catalogue[FirstMaxIndex(ScoresFor(input, catalogue))])
  {
    var scored := ScoresFor(input, catalogue);
    ScanFromZero(scored);
    SalvagePicksFirstMax(scored);
  }

  /** The contextual fallback is consulted exactly when no interception
      fires and every entry scores zero. */
  lemma FallbackOnlyWhenNothingScores(input: string, catalogue: seq<Entry>, intents: seq<Intent>, topic: Option<string>)
    requires Intercept(intents, catalogue, Lower(input)).None?
    requires MaxScore(ScoresFor(input, catalogue)) == 0
    ensures FindBestMatch(input, catalogue, intents, topic) == ContextFallback(input, catalogue, topic)
  {
    var scored := ScoresFor(input, catalogue);
    ScanFromZero(scored);
    PositivesKeepFirstMax(scored);
  }

  /** Updating a knowledge item never changes which position wins: scores
      depend on keywords only and the update keeps every entry's keywords. */
  lemma UpdateKeepsScores(input: string, catalogue: seq<Entry>, id: string, patch: Patch)
    ensures |ScoresFor(input, UpdateKnowledgeItem(catalogue, id, patch))| == |catalogue|
    ensures forall i :: 0 <= i < |catalogue| ==>
              ScoresFor(input, UpdateKnowledgeItem(catalogue, id, patch))[i].score == ScoresFor(input, catalogue)[i].score
  {
    var updated := UpdateKnowledgeItem(catalogue, id, patch);
    forall i | 0 <= i < |catalogue|
      ensures ScoresFor(input, updated)[i].score == ScoresFor(input, catalogue)[i].score
    {
      ScoreDependsOnKeywordsOnly(Tokenize(input), Lower(input), updated[i], catalogue[i]);
    }
  }
}
