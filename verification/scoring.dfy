/** The scorer inside `findBestMatch` (js/chatbot.js): exact, partial and
    fuzzy credit per token, and a phrase bonus per multi-word keyword. */
module Scoring {
  import opened Text
  import opened Levenshtein
  import opened Knowledge

  /** Substring containment in either direction, as `k.includes(token) ||
      token.includes(k)`. */
  predicate Overlaps(token: string, keyword: string) {
    Includes(keyword, token) || Includes(token, keyword)
  }

  /** Fuzzy closeness: at most one edit apart and the token longer than three. */
  predicate Near(token: string, keyword: string) {
    EditDistance(token, keyword) <= 1 && |token| > 3
  }

  /** The credit one keyword gives a token that equals none of the entry's
      keywords: 5 for an overlap (2 when the token has at most three
      characters), otherwise 8 for a fuzzy match, otherwise nothing. */
  function KeywordCredit(token: string, keyword: string): (c: nat)
    ensures c == 0 || c == 2 || c == 5 || c == 8
    ensures c == 8 ==> |token| > 3 && !Includes(keyword, token) && !Includes(token, keyword)
    ensures c > 0 <==> Overlaps(token, keyword) || Near(token, keyword)
  {
    if Overlaps(token, keyword) then (if |token| > 3 then 5 else 2)
    else if Near(token, keyword) then 8
    else 0
  }

  /** The partial and fuzzy credit summed over all keywords. */
  function PartialCredit(token: string, keywords: seq<string>): (c: nat)
    ensures c <= 8 * |keywords|
    ensures c > 0 <==> exists k :: 0 <= k < |keywords| && KeywordCredit(token, keywords[k]) > 0
    ensures |token| <= 3 ==> c <= 2 * |keywords|
  {
    if keywords == [] then 0 else KeywordCredit(token, keywords[0]) + PartialCredit(token, keywords[1..])
  }

  /** The contribution of one token: exactly 10 when it equals a keyword,
      with no partial or fuzzy credit on top; otherwise at most 8 per
      keyword, and at most 2 per keyword for a token of three characters or
      fewer. */
  function TokenScore(token: string, keywords: seq<string>): (r: nat)
    ensures token in keywords ==> r == 10
    ensures token !in keywords ==> r <= 8 * |keywords|
    ensures token !in keywords && |token| <= 3 ==> r <= 2 * |keywords|
  {
    if token in keywords then 10 else PartialCredit(token, keywords)
  }

  /** `k.includes(' ')`: the keyword is a phrase of several words. */
  predicate IsPhrase(keyword: string) {
    ' ' in keyword
  }

  /** 15 for every phrase keyword that occurs in the lower-cased input. */
  function PhraseBonus(lowered: string, keywords: seq<string>): (b: nat)
    ensures b % 15 == 0 && b <= 15 * |keywords|
    ensures b > 0 <==> exists k :: 0 <= k < |keywords| && IsPhrase(keywords[k]) && Includes(lowered, keywords[k])
  {
    if keywords == [] then 0
    else (if Includes(lowered, keywords[0]) && IsPhrase(keywords[0]) then 15 else 0) + PhraseBonus(lowered, keywords[1..])
  }

  /** The token contributions summed over all tokens: zero exactly when no
      token contributes, and with no keywords always zero. */
  function TokensScore(tokens: seq<string>, keywords: seq<string>): (r: nat)
    ensures r == 0 <==> forall i :: 0 <= i < |tokens| ==> TokenScore(tokens[i], keywords) == 0
    ensures keywords == [] ==> r == 0
  {
    if tokens == [] then 0 else TokenScore(tokens[0], keywords) + TokensScore(tokens[1..], keywords)
  }

  /** Every occurrence of a token counts on its own: the token part of the
      score of two token lists together is the sum of their scores, so a
      repeated token is credited once per occurrence. */
  lemma {:induction false} TokensScoreAppend(v: seq<string>, w: seq<string>, keywords: seq<string>)
    ensures TokensScore(v + w, keywords) == TokensScore(v, keywords) + TokensScore(w, keywords)
    decreases |v|
  {
    if v == [] {
      assert v + w == w;
    } else {
      assert (v + w)[0] == v[0] && (v + w)[1..] == v[1..] + w;
      TokensScoreAppend(v[1..], w, keywords);
    }
  }

  /** The score of one entry against the tokens and the lower-cased input:
      zero exactly when no token contributes and no phrase keyword occurs. */
  function Score(tokens: seq<string>, lowered: string, e: Entry): (r: nat)
    ensures r == 0 <==>
      (forall i :: 0 <= i < |tokens| ==> TokenScore(tokens[i], e.keywords) == 0) && PhraseBonus(lowered, e.keywords) == 0
    ensures e.keywords == [] ==> r == 0
  {
    TokensScore(tokens, e.keywords) + PhraseBonus(lowered, e.keywords)
  }

  /** Some keyword gives the token credit: it equals it, overlaps it or is near it. */
  predicate Matches(token: string, keywords: seq<string>) {
    exists k :: 0 <= k < |keywords| &&
      (token == keywords[k] || Overlaps(token, keywords[k]) || Near(token, keywords[k]))
  }

  lemma TokenScorePositive(token: string, keywords: seq<string>)
    ensures TokenScore(token, keywords) > 0 <==> Matches(token, keywords)
  {
    if token in keywords {
      var k :| 0 <= k < |keywords| && keywords[k] == token;
      assert token == keywords[k];
    } else if Matches(token, keywords) {
      var k :| 0 <= k < |keywords| &&
        (token == keywords[k] || Overlaps(token, keywords[k]) || Near(token, keywords[k]));
      assert KeywordCredit(token, keywords[k]) > 0;
    }
  }

  lemma {:induction false} TokensScorePositive(tokens: seq<string>, keywords: seq<string>)
    ensures TokensScore(tokens, keywords) > 0 <==> exists t :: 0 <= t < |tokens| && Matches(tokens[t], keywords)
  {
    if tokens != [] {
      TokenScorePositive(tokens[0], keywords);
      TokensScorePositive(tokens[1..], keywords);
      if exists t :: 0 <= t < |tokens| && Matches(tokens[t], keywords) {
        var t :| 0 <= t < |tokens| && Matches(tokens[t], keywords);
        if t > 0 {
          assert tokens[1..][t - 1] == tokens[t];
        }
      }
    }
  }

  /** An entry scores above zero exactly when some token matches one of its
      keywords, or one of its phrase keywords occurs in the input. In
      particular an entry without keywords always scores zero. */
  lemma ScorePositive(tokens: seq<string>, lowered: string, e: Entry)
    ensures Score(tokens, lowered, e) > 0 <==>
      (exists t :: 0 <= t < |tokens| && Matches(tokens[t], e.keywords)) ||
      (exists k :: 0 <= k < |e.keywords| && IsPhrase(e.keywords[k]) && Includes(lowered, e.keywords[k]))
    ensures e.keywords == [] ==> Score(tokens, lowered, e) == 0
  {
    TokensScorePositive(tokens, e.keywords);
  }

  /** Keywords without spaces never earn a phrase bonus. */
  lemma NoPhraseNoBonus(lowered: string, keywords: seq<string>)
    requires forall k :: 0 <= k < |keywords| ==> !IsPhrase(keywords[k])
    ensures PhraseBonus(lowered, keywords) == 0
  {
  }

  /** The score depends on an entry's keywords only: id, response and chips
      play no part. */
  lemma ScoreDependsOnKeywordsOnly(tokens: seq<string>, lowered: string, e: Entry, f: Entry)
    requires e.keywords == f.keywords
    ensures Score(tokens, lowered, e) == Score(tokens, lowered, f)
  {
  }

  /** An example of scoring: for the token `projects`, an entry
      listing `projects` earns the exact-match 10 while an entry listing only
      `project` earns the partial 5. */
  lemma ExactBeatsPartialExample()
    ensures TokenScore("projects", ["projects", "portfolio"]) == 10
    ensures TokenScore("projects", ["project"]) == 5
  {
    assert Includes("projects", "project");
  }

  /** A fuzzy match means the lengths of token and keyword differ by at most one. */
  lemma NearMeansSimilarLength(token: string, keyword: string)
    requires Near(token, keyword)
    ensures |keyword| >= |token| - 1 && |keyword| <= |token| + 1
  {
    LengthBounds(token, keyword, |token|, |keyword|);
  }
}
