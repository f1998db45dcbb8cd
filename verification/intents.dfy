/** The intent interceptor of js/chatbot.js: an ordered table of coarse
    intents with substring triggers, a fixed intent-to-entry routing, and the
    first stage of the resolver, which answers with the routed entry of the
    first detected intent before any scoring happens. */
module Intents {
  import opened Options
  import opened Text
  import opened Knowledge

  /** One row of the intent table: a name and its trigger substrings. */
  datatype Intent = Intent(name: string, triggers: seq<string>)

  /** The intent table, in declaration order. */
  const IntentMap: seq<Intent> := [
    Intent("greetings", ["hello", "hi", "hey", "greetings", "morning", "afternoon", "start"]),
    Intent("gratitude", ["thanks", "thank", "cool", "awesome", "good job", "great"]),
    Intent("farewell", ["bye", "goodbye", "see ya", "exit", "close"]),
    Intent("domains", ["domain", "domains", "expert", "expertise", "field", "fields", "area", "areas"]),
    Intent("skills", ["skill", "skills", "stack", "tech", "technology", "languages", "frameworks", "tools", "code"]),
    Intent("projects", ["project", "projects", "work", "works", "portfolio", "app", "apps", "build"]),
    Intent("contact", ["contact", "email", "mail", "phone", "address", "reach", "connect", "social", "linkedin", "github"]),
    Intent("resume", ["resume", "cv", "download", "pdf", "profile"]),
    Intent("experience", ["experience", "job", "work", "history", "career", "background", "company", "companies", "role", "position"]),
    Intent("education", ["education", "degree", "university", "college", "school", "study", "studied", "academic"]),
    Intent("results", ["result", "results", "cgpa", "gpa", "grade", "grades", "mark", "marks"]),
    Intent("research", ["research", "paper", "papers", "publication", "publications", "journal", "conference"]),
    Intent("achievements", ["achievement", "achievements", "award", "awards", "win", "winner", "runner", "competition", "hackathon"])
  ]

  /** The fixed routing from an intent name to the id of its canonical entry.
      The social intents `gratitude` and `farewell` route nowhere; the
      `publications` row is kept although no intent of the table carries
      that name. Every route leads to one of ten entry ids. */
  function TargetOf(name: string): (r: Option<string>)
    ensures r.Some? ==> r.value in ["greetings", "domain_works_list", "skills_core", "resume", "contact",
                                    "projects_list", "publications", "achievements", "experience", "results"]
    ensures name == "gratitude" || name == "farewell" || name == "" ==> r.None?
  {
    if name == "greetings" then Some("greetings")
    else if name == "domains" then Some("domain_works_list")
    else if name == "skills" then Some("skills_core")
    else if name == "resume" then Some("resume")
    else if name == "contact" then Some("contact")
    else if name == "projects" then Some("projects_list")
    else if name == "research" then Some("publications")
    else if name == "publications" then Some("publications")
    else if name == "achievements" then Some("achievements")
    else if name == "education" then Some("experience")
    else if name == "experience" then Some("experience")
    else if name == "results" then Some("results")
    else None
  }

  /** `keywords.filter(k => lowered.includes(k)).length`: how many triggers
      occur in the lower-cased input. */
  function MatchCount(lowered: string, triggers: seq<string>): (n: nat)
    ensures n <= |triggers|
    ensures n > 0 <==> exists k :: 0 <= k < |triggers| && Includes(lowered, triggers[k])
  {
    if triggers == [] then 0
    else (if Includes(lowered, triggers[0]) then 1 else 0) + MatchCount(lowered, triggers[1..])
  }

  /** The intent is detected: at least one of its triggers occurs. */
  predicate Detected(intent: Intent, lowered: string) {
    MatchCount(lowered, intent.triggers) > 0
  }

  /** The intent is detected and the catalogue holds its canonical entry, so
      the interceptor answers with it. */
  predicate Fires(intent: Intent, catalogue: seq<Entry>, lowered: string) {
    Detected(intent, lowered) && TargetOf(intent.name).Some? && FindById(catalogue, TargetOf(intent.name).value).Some?
  }

  /** The interception stage of `findBestMatch`: walk the table in order and
      return the canonical entry of the first intent that fires; an intent
      that is detected but has no target, or whose target is missing from
      the catalogue, does not stop the walk. */
  function Intercept(intents: seq<Intent>, catalogue: seq<Entry>, lowered: string): (r: Option<Entry>)
    ensures r.None? <==> forall i :: 0 <= i < |intents| ==> !Fires(intents[i], catalogue, lowered)
    ensures r.Some? ==> r.value in catalogue
  {
    if intents == [] then None
    else if Fires(intents[0], catalogue, lowered) then FindById(catalogue, TargetOf(intents[0].name).value)
    else Intercept(intents[1..], catalogue, lowered)
  }

  /** First-declared-wins: when the intent at position `i` fires and none
      before it does, the interceptor returns exactly its canonical entry,
      whatever later intents would have fired. */
  lemma {:induction false} FirstFiringIntentWins(intents: seq<Intent>, catalogue: seq<Entry>, lowered: string, i: nat)
    requires i < |intents| && Fires(intents[i], catalogue, lowered)
    requires forall j :: 0 <= j < i ==> !Fires(intents[j], catalogue, lowered)
    ensures Intercept(intents, catalogue, lowered) == FindById(catalogue, TargetOf(intents[i].name).value)
  {
    if i > 0 {
      assert forall j :: 0 <= j < i - 1 ==> intents[1..][j] == intents[j + 1];
      FirstFiringIntentWins(intents[1..], catalogue, lowered, i - 1);
    }
  }

  /** In the table as declared, exactly the two social intents have no
      canonical entry, and no intent is named `publications`, so that routing
      row is never taken. */
  lemma SocialIntentsRouteNowhere()
    ensures forall i :: 0 <= i < |IntentMap| ==>
              (TargetOf(IntentMap[i].name).None? <==> IntentMap[i].name in ["gratitude", "farewell"])
    ensures forall i :: 0 <= i < |IntentMap| ==> IntentMap[i].name != "publications"
  {
  }

  /** `greetings` is declared first, so any input containing `hi` anywhere,
      even inside another word such as `this` or `which`, is answered with
      the greeting entry when the catalogue holds one. */
  lemma GreetingsShadowEverything(catalogue: seq<Entry>, lowered: string)
    requires Includes(lowered, "hi")
    requires FindById(catalogue, "greetings").Some?
    ensures Intercept(IntentMap, catalogue, lowered) == FindById(catalogue, "greetings")
  {
    assert IntentMap[0].triggers[1] == "hi";
    assert Fires(IntentMap[0], catalogue, lowered);
    FirstFiringIntentWins(IntentMap, catalogue, lowered, 0);
  }
}
