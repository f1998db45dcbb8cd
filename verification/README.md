# Portfolio chatbot match-resolution engine, in Dafny

This project models the decision logic of the portfolio chatbot in
`js/chatbot.js`, which is its match-resolution engine. Given a user's free-text input, a catalogue of
knowledge-base entries and the conversation so far, the engine picks one
entry to answer with, or declines. The model covers:

- **Tokenizer** (`tokenize`). It lower-cases the input and deletes a fixed
  set of punctuation characters. It then splits on runs of white space the
  way `String.prototype.split(/\s+/)` does, including the empty leading and
  trailing fields, and keeps the words of two or more characters.
- **Edit distance** (`getLevenshteinDistance`). The source's
  (|b|+1)×(|a|+1) dynamic-programming table is a Dafny method over a 2-D
  array. It is proved equal to the textbook recursive edit distance.
- **Resolver** (`findBestMatch`). It runs in four stages:
  1. Intent interception, walking the intent table in declaration order.
  2. Exact, partial, fuzzy and phrase scoring.
  3. The confidence threshold of 3. Below it, the resolver salvages the
     head of the stably sorted positive scores.
  4. The case-sensitive contextual fallback on `more`, `detail` and
     `tell me`.
- **Conversation manager** (`ConversationManager`). It keeps a window of
  the last ten turns. The current topic is written only by bot turns that
  carry a truthy intent.
- **Knowledge update** (`updateKnowledgeItem`). It patches the first entry
  with a given id in place.
- **One bot step** (the decision part of `processBotResponse`). Gratitude
  is checked first, then farewell, then the resolver. The step records the
  bot turn, whose intent (the id's prefix before `_`, or `fallback`) steers
  the next fallback.

The catalogue, the intent table, the remembered topic and the clock are
explicit parameters rather than globals. Every lookup by id takes the
first entry carrying that id, as `Array.prototype.find` does, because ids
in the catalogue are not unique: `domain_works_list` is declared twice.

Modules: `Options` and `Text` (text.dfy), `Tokenizer`, `Levenshtein`,
`Knowledge`, `Intents`, `Scoring`, `Ranking`, `Resolver`, `Conversation`,
`Dialogue`.

Facts about the code that shape the model:

- **Entry ids.** Ids are not unique: `domain_works_list` is declared at
  js/chatbot.js:100 and pushed again at js/chatbot.js:363, so every lookup
  by id is first-wins.
- **Contractions.** The punctuation class at js/chatbot.js:639 does not
  contain the apostrophe, so `I'm` becomes the token `i'm`
  (`Tokenizer.ContractionIsKept`).
- **Greetings.** The intent `greetings` (js/chatbot.js:40) is routed to the
  entry `greetings` at js/chatbot.js:664. Because it is declared first, any
  input containing `hi` anywhere, even inside `this` or `which`, is
  intercepted by it (`Intents.GreetingsShadowEverything`).
- **Fallback cue.** The cue test at js/chatbot.js:727 calls `includes` on
  the raw, un-lowered input, so `More` is not a cue.
- **Fallback result.** When a cue matches a known topic, js/chatbot.js:729-731
  return the result of `find` even when that result is `undefined`. Nothing
  else is tried.

## Model

| member | source | states |
|---|---|---|
| `Text.Lower` | js/chatbot.js:638 | lower-casing keeps the length, maps every character through the ASCII case map, and leaves no upper-case letter |
| `Text.LowerAppend` | js/chatbot.js:638 | lower-casing works character by character: it distributes over concatenation |
| `Text.IncludesIffOccurs` | js/chatbot.js:657 | the recursive `includes` holds exactly when the needle occurs at some index of the haystack |
| `Text.IncludesSelfAndEmpty` | js/chatbot.js:694 | every string includes itself and the empty string, so a keyword always overlaps an equal token |
| `Text.IncludesNeedsRoom` | js/chatbot.js:694 | a needle longer than the haystack is never included |
| `Tokenizer.StripPunctuation` | js/chatbot.js:639 | the result holds no deleted punctuation, and a character survives exactly when it is in the input and is not punctuation; the deleted class of 22 characters is the predicate `Tokenizer.IsPunctuation` |
| `Tokenizer.StripPunctuationAppend` | js/chatbot.js:639 | deleting punctuation distributes over concatenation, so the kept characters keep their order and multiplicity |
| `Tokenizer.Split` | js/chatbot.js:640 | `split(/\s+/)` always yields at least one field, even for empty text; the `\s` class is the predicate `Tokenizer.IsWhitespace` |
| `Tokenizer.LongWords` | js/chatbot.js:641 | a word is kept exactly when it is in the input list and has at least two characters |
| `Tokenizer.LongWordsAppend` | js/chatbot.js:641 | the length filter distributes over concatenation, so kept words keep their order and repetitions |
| `Tokenizer.SkippedWhitespaceAddsNoWords` | js/chatbot.js:640-641 | leading white space only adds an empty field, which the filter drops |
| `Tokenizer.SplitAtGap` | js/chatbot.js:640-641 | a white space character separates words: the long fields of `s`, a gap and `t` are those of `s` followed by those of `t` |
| `Tokenizer.Tokenize` | js/chatbot.js:637-642 | the tokens are exactly the fields of the lower-cased, punctuation-free text with length at least two, and no token holds an upper-case letter, white space or deleted punctuation |
| `Tokenizer.TokenizeAppend` | js/chatbot.js:637-642 | tokenizing two texts joined by a space gives the tokens of the first followed by those of the second; with `WordIsOneToken` this fixes the token sequence, order and repetitions included |
| `Tokenizer.SplitFromKeepsText` | js/chatbot.js:640 | splitting from any partial field loses exactly the white space: the fields concatenate to the field so far plus the text without white space |
| `Tokenizer.SplitKeepsText` | js/chatbot.js:640 | the fields of `split(/\s+/)`, concatenated, are the text with all white space removed |
| `Tokenizer.FieldCharsFromText` | js/chatbot.js:640 | every character of every field comes from the split text or from the field being read |
| `Tokenizer.FieldsHaveNoWhitespace` | js/chatbot.js:640 | no field contains white space |
| `Tokenizer.FieldsAreClean` | js/chatbot.js:638-640 | no field of the normalized text holds an upper-case letter, white space or deleted punctuation |
| `Tokenizer.PunctuationOnlyYieldsNothing` | js/chatbot.js:637-642 | empty input and input made only of punctuation and white space yield no tokens |
| `Tokenizer.WordIsOneToken` | js/chatbot.js:637-642 | a word of at least two characters without white space or deleted punctuation is exactly one token, itself lower-cased |
| `Tokenizer.ContractionIsKept` | js/chatbot.js:639 | the apostrophe is not deleted: `I'm` tokenizes to `i'm` |
| `Levenshtein.LevenshteinDistance` | js/chatbot.js:745-774 | the table method returns the recursive edit distance, and `|b|` or `|a|` when the other string is empty |
| `Levenshtein.Cell` | js/chatbot.js:761-769 | one table cell computed from its three neighbours, copying the diagonal on equal characters, is the edit distance of the two prefixes |
| `Levenshtein.MatchingLastCharacters` | js/chatbot.js:761-762 | when the last characters agree, the distance equals the diagonal's, which justifies the source's shortcut |
| `Levenshtein.DropFromA` | js/chatbot.js:764-768 | shortening the first prefix by one raises the distance by at most one |
| `Levenshtein.DropFromB` | js/chatbot.js:764-768 | shortening the second prefix by one raises the distance by at most one |
| `Levenshtein.EditDistance` | js/chatbot.js:745-774 | the textbook distance `Dist` of the whole strings is zero exactly for identical strings, at least the length difference and at most the longer length |
| `Levenshtein.Symmetric` | js/chatbot.js:745-774 | the distance does not depend on argument order, although the table is laid out asymmetrically |
| `Levenshtein.LengthBounds` | js/chatbot.js:745-774 | the distance is at least the length difference and at most the longer length |
| `Levenshtein.MissingLetterExample` | js/chatbot.js:696 | `pythn` is at distance 1 from `python`, so it earns fuzzy credit |
| `Knowledge.FirstIndexOf` | js/chatbot.js:615 | the position found is the first entry with the id, and there is none exactly when no entry has the id |
| `Knowledge.FindById` | js/chatbot.js:678 | `find` by id returns nothing exactly when the id is absent, and otherwise the first entry carrying it |
| `Knowledge.UpdateKnowledgeItem` | js/chatbot.js:614-620 | only the first entry with the id changes: its response is replaced when the new one is non-empty and its chips when they are given; lengths, ids, keywords and all other entries are kept; an absent id changes nothing |
| `Knowledge.UpdateThenFind` | js/chatbot.js:614-620 | after an update the id is found at the same position, and an absent id stays absent |
| `Intents.TargetOf` | js/chatbot.js:663-675 | every route leads to one of ten entry ids; `gratitude`, `farewell` and the empty name route nowhere |
| `Intents.MatchCount` | js/chatbot.js:657 | the count is positive exactly when some trigger occurs in the lower-cased input |
| `Intents.Intercept` | js/chatbot.js:656-682 | interception answers nothing exactly when no intent both is detected and has its routed entry in the catalogue, and any answer comes from the catalogue |
| `Intents.FirstFiringIntentWins` | js/chatbot.js:656-682 | when the intent at position `i` fires and none before it does, the answer is the first entry with its routed id |
| `Intents.SocialIntentsRouteNowhere` | js/chatbot.js:39-53 | in the declared table exactly `gratitude` and `farewell` have no route, and no intent is named `publications`, so the routing row at js/chatbot.js:671 is dead |
| `Intents.GreetingsShadowEverything` | js/chatbot.js:40 | any input containing `hi` is answered with the greetings entry when the catalogue has one |
| `Scoring.KeywordCredit` | js/chatbot.js:693-699 | a keyword gives 0, 2, 5 or 8; 8 only for a token longer than 3 when neither string contains the other; credit is positive exactly when the two overlap or are one edit apart with the token longer than 3; the overlap test of js/chatbot.js:694 is the predicate `Scoring.Overlaps` and the fuzzy test of js/chatbot.js:696 is `Scoring.Near` |
| `Scoring.PartialCredit` | js/chatbot.js:693-699 | the summed credit is at most 8 per keyword, at most 2 per keyword for short tokens, and positive exactly when some keyword gives credit |
| `Scoring.PhraseBonus` | js/chatbot.js:704-708 | the bonus is a multiple of 15, at most 15 per keyword, and positive exactly when a keyword containing a space occurs in the lower-cased input |
| `Scoring.TokenScore` | js/chatbot.js:690-701 | a token equal to a keyword contributes exactly 10 with no partial or fuzzy credit; any other token gets at most 8 per keyword, and at most 2 per keyword when it has three characters or fewer |
| `Scoring.TokensScore` | js/chatbot.js:690-701 | the token part of the score is zero exactly when no token contributes, and always zero without keywords |
| `Scoring.TokensScoreAppend` | js/chatbot.js:690 | each token occurrence is credited on its own: the token score of two lists together is the sum of their scores |
| `Scoring.Score` | js/chatbot.js:685-708 | an entry scores zero exactly when no token contributes and no phrase keyword occurs, and always without keywords |
| `Scoring.TokenScorePositive` | js/chatbot.js:690-701 | a token contributes exactly when it equals, overlaps or is near some keyword |
| `Scoring.TokensScorePositive` | js/chatbot.js:690-701 | the token part of the score is positive exactly when some token matches a keyword |
| `Scoring.ScorePositive` | js/chatbot.js:685-715 | an entry scores above zero exactly when some token matches or some phrase keyword occurs; an entry without keywords scores zero |
| `Scoring.NoPhraseNoBonus` | js/chatbot.js:705 | keywords without a space never earn the phrase bonus |
| `Scoring.ScoreDependsOnKeywordsOnly` | js/chatbot.js:687 | entries with equal keywords get equal scores, whatever their id, response or chips |
| `Scoring.ExactBeatsPartialExample` | js/chatbot.js:691-695 | the token `projects` earns 10 from an entry listing it and 5 from one listing only `project` |
| `Scoring.NearMeansSimilarLength` | js/chatbot.js:696 | a fuzzy match means the two lengths differ by at most one |
| `Ranking.MaxScore` | js/chatbot.js:711-714 | the maximum bounds every score and is attained, or is 0 for nothing |
| `Ranking.FirstMaxIndex` | js/chatbot.js:711-714 | the position has the maximum score and every earlier position scores strictly less |
| `Ranking.Scan` | js/chatbot.js:711-714 | the scan ends at least at its starting score and at every item's score, and keeps its accumulator whenever it ends on the starting score |
| `Ranking.ScanFindsFirstMax` | js/chatbot.js:711-714 | the strict `>` scan keeps its accumulator unless some item beats it, and otherwise ends on the first item with the maximum score |
| `Ranking.ScanFromZero` | js/chatbot.js:649-650 | starting from no match and score 0, the scan ends on nothing when all scores are zero and on the first maximum otherwise |
| `Ranking.Positives` | js/chatbot.js:710 | every kept item scores above zero |
| `Ranking.PositivesMembers` | js/chatbot.js:710 | the kept items are exactly the positively scored ones |
| `Ranking.Insert` | js/chatbot.js:717 | inserting adds exactly the one item and keeps all others |
| `Ranking.InsertIsStable` | js/chatbot.js:717 | the item goes right after the leading items that score strictly more, so before any item with an equal score, as the stable sort with comparator `b.score - a.score` does |
| `Ranking.SortDescending` | js/chatbot.js:717 | the sort is a permutation of its input |
| `Ranking.SortIsDescending` | js/chatbot.js:717 | the sorted items are in non-increasing score order |
| `Ranking.SortHeadIsFirstMax` | js/chatbot.js:717 | the head of the stable sort is the first item with the maximum score |
| `Ranking.PositivesKeepFirstMax` | js/chatbot.js:710 | filtering out zeros empties the list exactly when every score is zero, and otherwise keeps the first maximum first |
| `Ranking.SalvagePicksFirstMax` | js/chatbot.js:717-721 | the head of the sorted positive items is the first item with the maximum score |
| `Resolver.ScoreAll` | js/chatbot.js:685-715 | every entry is scored, in catalogue order |
| `Resolver.HasContinuationCue` | js/chatbot.js:727 | a cue needs one of the lower-case letters `m`, `d` or `t` in the raw input |
| `Resolver.CueIsCaseSensitive` | js/chatbot.js:727 | `more` is a cue and `More` is not |
| `Resolver.ContinuationTarget` | js/chatbot.js:729-731 | exactly the six topics `projects`, `projects_list`, `research`, `publications`, `skills` and `skills_core` continue: the first two into `projects_list`, the next two into `publications`, the last two into `skills_core`; every other topic continues nowhere |
| `Resolver.ContextFallback` | js/chatbot.js:724-734 | the fallback answers only when the raw input has a cue and the topic continues into a known id, and then its answer is `find` on that id |
| `Resolver.InterceptWins` | js/chatbot.js:656-682 | when an intent fires, the resolver answers with the entry routed from the first firing intent, whatever the scores |
| `Resolver.BestScoreWins` | js/chatbot.js:710-721 | with no interception and some positive score, the answer is the first catalogue entry with the maximum score, both above and below the threshold |
| `Resolver.FallbackOnlyWhenNothingScores` | js/chatbot.js:720-734 | with no interception and every score zero, the answer is the contextual fallback's |
| `Resolver.FindBestMatch` | js/chatbot.js:647-742 | every answer is an entry of the catalogue, and an empty catalogue never answers |
| `Resolver.UpdateKeepsScores` | js/chatbot.js:614-620 | updating a knowledge item leaves every entry's score as it was |
| `Conversation.Push` | js/chatbot.js:15-22 | the new turn is last; the history grows by it, or shifts once it had reached ten; the window never exceeds ten; the topic changes only for a bot turn with a truthy intent; the other context fields are kept |
| `Conversation.AddTurn` | js/chatbot.js:15-22 | the stamped turn is last; on a window of at most ten the result is the last ten of the old window plus the turn; the topic follows the intent only for a bot turn with a truthy intent; the other context fields are kept |
| `Conversation.ReplayKeepsLastTen` | js/chatbot.js:15-17 | after any sequence of turns the history is the last ten turns of everything said |
| `Conversation.EleventhTurnEvictsFirst` | js/chatbot.js:17 | eleven turns into a fresh conversation, the first turn has been dropped |
| `Conversation.ReplayTopic` | js/chatbot.js:19-21 | after any sequence of turns the topic is the intent of the last bot turn that carried a truthy one, or the topic before |
| `Conversation.UserTurnsMembers` | js/chatbot.js:25 | a turn is kept exactly when it is in the window and the user spoke it |
| `Conversation.UserTurnsAppend` | js/chatbot.js:25 | the filter distributes over concatenation, so user turns keep their order and repetitions |
| `Conversation.LastUserMessage` | js/chatbot.js:24-27 | any answer is a user turn of the window, and there is none exactly when the user has not spoken in the window |
| `Conversation.LastUserMessageIsMostRecent` | js/chatbot.js:24-27 | the last user message is the latest turn spoken by the user, and there is none exactly when the user has not spoken in the window |
| `Conversation.UpdateContext` | js/chatbot.js:33-35 | the named context field takes the value; the other fields and the history are untouched |
| `Dialogue.IdPrefix` | js/chatbot.js:929 | the prefix is an initial part of the id without `_`, and is followed by `_` when shorter than the id |
| `Dialogue.PrefixBeforeUnderscore` | js/chatbot.js:929 | an id made of an underscore-free head, `_` and anything has that head as its prefix |
| `Dialogue.ContinuationRoundTrip` | js/chatbot.js:729-731 | for `projects_list`, `publications` and `skills_core`, the recorded prefix continues back into the same id |
| `Dialogue.IntentMapHasSocialIntents` | js/chatbot.js:41-42 | the declared table has the gratitude and farewell rows the bot step reads |
| `Dialogue.BotStep` | js/chatbot.js:896-936 | each step adds exactly one bot turn, stamped with the clock, to the ten-turn window and leaves the entity and follow-up fields alone |
| `Dialogue.BotStepRecordsIntent` | js/chatbot.js:896-936 | the topic a step leaves is `gratitude`, `farewell`, `fallback` or the answered id's prefix, in that order of precedence |
| `Dialogue.FollowUpContinuesTopic` | js/chatbot.js:724-731 | after an answer whose prefix continues into its id, a zero-scoring follow-up with a cue is answered with the first entry carrying that id |
| `Dialogue.SocialStepNeverContinues` | js/chatbot.js:896-936 | after a step that thanked, said goodbye or found nothing, the recorded topic (`gratitude`, `farewell` or `fallback`) continues nowhere at js/chatbot.js:729-731 |

## Left out

- Building the catalogue from the page (`scrapePortfolioData`) is left out: it is DOM querying and HTML assembly. The catalogue it produces is a parameter. This includes the rewrite of the `contact` keywords at js/chatbot.js:608-611.
- The user interface is left out: chat toggling, message streaming, chips rendering, the thinking indicator and scrolling (including the section scrolls at js/chatbot.js:917-926). These are DOM side effects and timers.
- `addDebugMessage` is treated as a no-op. It only writes to a debug panel.
- The random reply delay (`setTimeout`, `Math.random`) is left out. `Date.now()` is replaced by a caller-supplied natural number.
- `handleInput` command parsing and `runSimulation` are left out. The first is input glue; the second builds an HTML report with a floating-point percentage.
- `toLowerCase` is modelled for ASCII letters only. Unicode case mapping is not modelled.
- `\s` is modelled as the explicit set of characters JavaScript treats as white space.
- `Conversation.UpdateContext`: covers only the three context fields the engine defines. JavaScript would also accept arbitrary new keys.
- `Dialogue.BotStep`: requires the intent table to have `gratitude` and `farewell` rows. Without them the source throws on `undefined.some`. The declared table has both (`Dialogue.IntentMapHasSocialIntents`).
- `Resolver.FindBestMatch`: its own contract states only membership and the empty catalogue. Which entry it picks is stated by `InterceptWins`, `BestScoreWins` and `FallbackOnlyWhenNothingScores`.
- `Tokenizer.LongWords`: counts characters (Unicode scalar values), while `w.length >= 2` at js/chatbot.js:641 counts UTF-16 code units. A lone character outside the Basic Multilingual Plane, such as U+1F600, is dropped by the model but kept by JavaScript. The model is exact for text in the Basic Multilingual Plane.
- `Tokenizer.Tokenize`: inherits the same length difference from `LongWords`.
- `Scoring.KeywordCredit`: the model's `|token| > 3` counts characters, while `token.length > 3` at js/chatbot.js:695 counts UTF-16 code units. The token made of `ab` and U+1F600, overlapping the keyword `ab`, earns 5 in JavaScript (length 4) but 2 in the model (length 3). The model is exact for tokens in the Basic Multilingual Plane.
- `Scoring.Near`: the model's `|token| > 3` counts characters, while `token.length > 3` at js/chatbot.js:696 counts UTF-16 code units. The model is exact for tokens in the Basic Multilingual Plane.
- `Levenshtein.LevenshteinDistance`: works on Dafny strings, i.e. sequences of characters. JavaScript strings are UTF-16 code units, so surrogate pairs are not modelled.
