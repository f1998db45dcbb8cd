/** The tokenizer of js/chatbot.js: lower-case the text, delete a fixed set of
    punctuation characters, split on whitespace runs and keep the words of at
    least two characters. */
module Tokenizer {
  import opened Text

  /** The characters the tokenizer deletes: `. , / # ! $ % ^ & * ; : { } = - _ ` ~ ( ) ?`.
      The apostrophe is deliberately not among them. */
  predicate IsPunctuation(c: char) {
    || c == '.' || c == ',' || c == '/' || c == '#' || c == '!' || c == '$'
    || c == '%' || c == '^' || c == '&' || c == '*' || c == ';' || c == ':'
    || c == '{' || c == '}' || c == '=' || c == '-' || c == '_' || c == '`'
    || c == '~' || c == '(' || c == ')' || c == '?'
  }

  /** The JavaScript regular-expression class `\s`: the ASCII white space
      characters, the Unicode space separators, the line and paragraph
      separators and the byte-order mark. */
  predicate IsWhitespace(c: char) {
    || '\t' <= c <= '\r'
    || c == ' ' || c == '\U{00A0}' || c == '\U{1680}'
    || '\U{2000}' <= c <= '\U{200A}'
    || c == '\U{2028}' || c == '\U{2029}' || c == '\U{202F}' || c == '\U{205F}'
    || c == '\U{3000}' || c == '\U{FEFF}'
  }

  /** No character of `s` is white space. */
  predicate NoWhitespace(s: string) {
    forall i :: 0 <= i < |s| ==> !IsWhitespace(s[i])
  }

  /** `s.replace(/[...]/g, "")`: every punctuation character deleted, the
      others kept in order. */
  function StripPunctuation(s: string): (r: string)
    ensures |r| <= |s|
    ensures forall i :: 0 <= i < |r| ==> !IsPunctuation(r[i])
    ensures forall i :: 0 <= i < |r| ==> r[i] in s
    ensures forall i :: 0 <= i < |s| && !IsPunctuation(s[i]) ==> s[i] in r
  {
    if s == [] then []
    else if IsPunctuation(s[0]) then StripPunctuation(s[1..])
    else [s[0]] + StripPunctuation(s[1..])
  }

  /** `s` with its leading white space removed. */
  function SkipWhitespace(s: string): (r: string)
    ensures r == [] || !IsWhitespace(r[0])
    ensures |r| <= |s| && r == s[|s| - |r|..]
    ensures forall i :: 0 <= i < |s| - |r| ==> IsWhitespace(s[i])
  {
    if s != [] && IsWhitespace(s[0]) then SkipWhitespace(s[1..]) else s
  }

  /** The fields `s.split(/\s+/)` produces when `cur` holds the characters of
      the field read so far: one field per gap between maximal whitespace
      runs, so a leading or trailing run yields an empty field. */
  function SplitFrom(s: string, cur: string): (r: seq<string>)
    ensures |r| >= 1
    decreases |s|
  {
    if s == [] then [cur]
    else if IsWhitespace(s[0]) then [cur] + SplitFrom(SkipWhitespace(s[1..]), "")
    else SplitFrom(s[1..], cur + [s[0]])
  }

  /** `s.split(/\s+/)`. */
  function Split(s: string): (r: seq<string>)
    ensures |r| >= 1
  {
    SplitFrom(s, "")
  }

  /** `s` with every white space character removed. */
  function RemoveWhitespace(s: string): string {
    if s == [] then []
    else if IsWhitespace(s[0]) then RemoveWhitespace(s[1..])
    else [s[0]] + RemoveWhitespace(s[1..])
  }

  /** The fields, concatenated. */
  function Concat(fields: seq<string>): string {
    if fields == [] then [] else fields[0] + Concat(fields[1..])
  }

  lemma {:induction false} RemoveWhitespaceOfSkipped(s: string)
    ensures RemoveWhitespace(SkipWhitespace(s)) == RemoveWhitespace(s)
  {
    if s != [] && IsWhitespace(s[0]) {
      RemoveWhitespaceOfSkipped(s[1..]);
    }
  }

  /** Splitting loses exactly the white space: the fields, concatenated,
      are the input with its white space removed. */
  lemma {:induction false} SplitFromKeepsText(s: string, cur: string)
    ensures Concat(SplitFrom(s, cur)) == cur + RemoveWhitespace(s)
    decreases |s|
  {
    if s == [] {
      assert Concat([cur]) == cur + Concat([]);
    } else if IsWhitespace(s[0]) {
      var rest := SkipWhitespace(s[1..]);
      SplitFromKeepsText(rest, "");
      SplitAtSpace(s, cur);
    } else {
      SplitFromKeepsText(s[1..], cur + [s[0]]);
      SplitAtChar(s, cur);
    }
  }

  /** A white space character closes the current field. */
  lemma SplitAtSpace(s: string, cur: string)
    requires s != [] && IsWhitespace(s[0])
    requires Concat(SplitFrom(SkipWhitespace(s[1..]), "")) == RemoveWhitespace(SkipWhitespace(s[1..]))
    ensures Concat(SplitFrom(s, cur)) == cur + RemoveWhitespace(s)
  {
    var tail := SplitFrom(SkipWhitespace(s[1..]), "");
    RemoveWhitespaceOfSkipped(s[1..]);
    assert SplitFrom(s, cur) == [cur] + tail;
    assert Concat([cur] + tail) == cur + Concat(tail) by {
      assert ([cur] + tail)[1..] == tail;
    }
  }

  /** Any other character extends the current field. */
  lemma SplitAtChar(s: string, cur: string)
    requires s != [] && !IsWhitespace(s[0])
    requires Concat(SplitFrom(s[1..], cur + [s[0]])) == (cur + [s[0]]) + RemoveWhitespace(s[1..])
    ensures Concat(SplitFrom(s, cur)) == cur + RemoveWhitespace(s)
  {
    var w := RemoveWhitespace(s[1..]);
    KeptCharacter(s);
    AppendAssociates(cur, [s[0]], w);
  }

  /** A character that is not white space survives at the front. */
  lemma KeptCharacter(s: string)
    requires s != [] && !IsWhitespace(s[0])
    ensures RemoveWhitespace(s) == [s[0]] + RemoveWhitespace(s[1..])
  {
  }

  lemma AppendAssociates<T>(a: seq<T>, b: seq<T>, c: seq<T>)
    ensures (a + b) + c == a + (b + c)
  {
  }

  lemma SplitKeepsText(s: string)
    ensures Concat(Split(s)) == RemoveWhitespace(s)
  {
    SplitFromKeepsText(s, "");
  }

  /** `.filter(w => w.length >= 2)`: the words of at least two characters, in order. */
  function LongWords(words: seq<string>): (r: seq<string>)
    ensures |r| <= |words|
    ensures forall w :: w in r <==> w in words && |w| >= 2
  {
    if words == [] then []
    else if |words[0]| >= 2 then [words[0]] + LongWords(words[1..])
    else LongWords(words[1..])
  }

  /** The text the splitter sees: lower-cased, punctuation deleted. */
  function Normalize(text: string): (r: string)
    ensures forall i :: 0 <= i < |r| ==> !IsUpper(r[i]) && !IsPunctuation(r[i])
  {
    StripPunctuation(Lower(text))
  }

  /** `tokenize(text)`. Every token is at least two characters long, holds no
      upper-case letter, no white space and no deleted punctuation, and the
      tokens are exactly the long fields of the normalized text. */
  function Tokenize(text: string): (tokens: seq<string>)
    ensures forall t :: t in tokens <==> t in Split(Normalize(text)) && |t| >= 2
    ensures forall t :: t in tokens ==> |t| >= 2
    ensures forall t, i :: t in tokens && 0 <= i < |t| ==>
              !IsUpper(t[i]) && !IsWhitespace(t[i]) && !IsPunctuation(t[i])
  {
    FieldsAreClean(text);
    LongWords(Split(Normalize(text)))
  }

  /** Every character of a field comes from the text being split, or from
      the field read so far. */
  lemma {:induction false} FieldCharsFromText(s: string, cur: string)
    ensures forall f, c :: f in SplitFrom(s, cur) && c in f ==> c in cur || c in s
    decreases |s|
  {
    if s == [] {
    } else if IsWhitespace(s[0]) {
      var rest := SkipWhitespace(s[1..]);
      FieldCharsFromText(rest, "");
      assert forall c :: c in rest ==> c in s;
    } else {
      FieldCharsFromText(s[1..], cur + [s[0]]);
    }
  }

  /** No field holds white space, provided the field read so far holds none. */
  lemma {:induction false} FieldsHaveNoWhitespace(s: string, cur: string)
    requires NoWhitespace(cur)
    ensures forall f :: f in SplitFrom(s, cur) ==> NoWhitespace(f)
    decreases |s|
  {
    if s == [] {
    } else if IsWhitespace(s[0]) {
      FieldsHaveNoWhitespace(SkipWhitespace(s[1..]), "");
    } else {
      assert NoWhitespace(cur + [s[0]]);
      FieldsHaveNoWhitespace(s[1..], cur + [s[0]]);
    }
  }

  /** No field of the normalized text holds an upper-case letter, white
      space or deleted punctuation. */
  lemma FieldsAreClean(text: string)
    ensures forall f, i :: f in Split(Normalize(text)) && 0 <= i < |f| ==>
              !IsUpper(f[i]) && !IsWhitespace(f[i]) && !IsPunctuation(f[i])
  {
    var n := Normalize(text);
    FieldCharsFromText(n, "");
    FieldsHaveNoWhitespace(n, "");
    forall f, i | f in Split(n) && 0 <= i < |f|
      ensures !IsUpper(f[i]) && !IsWhitespace(f[i]) && !IsPunctuation(f[i])
    {
      assert NoWhitespace(f);
      assert f[i] in f;
      var j :| 0 <= j < |n| && n[j] == f[i];
    }
  }

  /** A list of words all shorter than two characters filters to nothing. */
  lemma {:induction false} NoLongWords(words: seq<string>)
    requires forall w :: w in words ==> |w| < 2
    ensures LongWords(words) == []
  {
    if words != [] {
      NoLongWords(words[1..]);
    }
  }

  /** Text made only of punctuation and white space is no evidence at all. */
  lemma PunctuationOnlyYieldsNothing(text: string)
    requires forall i :: 0 <= i < |text| ==> IsPunctuation(text[i]) || IsWhitespace(text[i])
    ensures Tokenize(text) == []
  {
    var n := Normalize(text);
    NormalizedIsWhitespace(text);
    AllWhitespaceSplitsEmpty(n, "");
    NoLongWords(Split(n));
  }

  /** Normalizing such text leaves only its white space. */
  lemma NormalizedIsWhitespace(text: string)
    requires forall i :: 0 <= i < |text| ==> IsPunctuation(text[i]) || IsWhitespace(text[i])
    ensures forall i :: 0 <= i < |Normalize(text)| ==> IsWhitespace(Normalize(text)[i])
  {
    var n := Normalize(text);
    var l := Lower(text);
    forall i | 0 <= i < |n|
      ensures IsWhitespace(n[i])
    {
      var j :| 0 <= j < |l| && l[j] == n[i];
      assert !IsUpper(text[j]);
    }
  }

  /** Splitting pure white space yields only empty fields. */
  lemma {:induction false} AllWhitespaceSplitsEmpty(s: string, cur: string)
    requires cur == ""
    requires forall i :: 0 <= i < |s| ==> IsWhitespace(s[i])
    ensures forall f :: f in SplitFrom(s, cur) ==> f == ""
    decreases |s|
  {
    if s != [] {
      var rest := SkipWhitespace(s[1..]);
      assert rest == [];
      AllWhitespaceSplitsEmpty(rest, "");
    }
  }

  /** A single word of at least two characters, none of them white space
      or deleted punctuation, is one token: itself, lower-cased. */
  lemma WordIsOneToken(w: string)
    requires |w| >= 2
    requires forall i :: 0 <= i < |w| ==> !IsPunctuation(w[i]) && !IsWhitespace(w[i])
    ensures Tokenize(w) == [Lower(w)]
  {
    var l := Lower(w);
    forall i | 0 <= i < |l|
      ensures !IsPunctuation(l[i]) && !IsWhitespace(l[i])
    {
      LowerKeepsClass(w[i]);
    }
    NothingToStrip(l);
    OneField(l, "");
    assert "" + l == l;
    assert Normalize(w) == l;
    assert LongWords([l]) == [l] + LongWords([]);
  }

  /** Lower-casing never turns a character into white space or punctuation. */
  lemma LowerKeepsClass(c: char)
    requires !IsPunctuation(c) && !IsWhitespace(c)
    ensures !IsPunctuation(LowerChar(c)) && !IsWhitespace(LowerChar(c))
  {
    if IsUpper(c) {
      assert 'a' <= LowerChar(c) <= 'z';
    }
  }

  /** Text without deleted punctuation is left as it is. */
  lemma {:induction false} NothingToStrip(s: string)
    requires forall i :: 0 <= i < |s| ==> !IsPunctuation(s[i])
    ensures StripPunctuation(s) == s
  {
    if s != [] {
      NothingToStrip(s[1..]);
    }
  }

  /** Text without white space is one field. */
  lemma {:induction false} OneField(s: string, cur: string)
    requires forall i :: 0 <= i < |s| ==> !IsWhitespace(s[i])
    ensures SplitFrom(s, cur) == [cur + s]
    decreases |s|
  {
    if s != [] {
      OneField(s[1..], cur + [s[0]]);
      assert (cur + [s[0]]) + s[1..] == cur + s;
    } else {
      assert cur + s == cur;
    }
  }

  /** The apostrophe is not among the deleted characters, so a contraction
      such as `I'm` survives as the token `i'm`. */
  lemma ContractionIsKept()
    ensures Tokenize("I'm") == ["i'm"]
  {
    ApostropheWord();
    WordIsOneToken("I'm");
    LowerContraction();
  }

  lemma LowerContraction()
    ensures Lower("I'm") == "i'm"
  {
    var l := Lower("I'm");
    assert l[0] == LowerChar('I') == 'i';
    assert l[1] == '\'' && l[2] == 'm';
  }

  /** None of the three characters of `I'm` is deleted or splits. */
  lemma ApostropheWord()
    ensures forall i :: 0 <= i < |"I'm"| ==> !IsPunctuation("I'm"[i]) && !IsWhitespace("I'm"[i])
  {
    var w := "I'm";
    forall i | 0 <= i < |w|
      ensures !IsPunctuation(w[i]) && !IsWhitespace(w[i])
    {
      assert w[i] == 'I' || w[i] == '\'' || w[i] == 'm';
    }
  }

  /** Deleting punctuation works character by character: the characters it
      keeps stay in order and keep their multiplicity. */
  lemma {:induction false} StripPunctuationAppend(s: string, t: string)
    ensures StripPunctuation(s + t) == StripPunctuation(s) + StripPunctuation(t)
    decreases |s|
  {
    if s == [] {
      assert s + t == t;
    } else {
      assert (s + t)[0] == s[0] && (s + t)[1..] == s[1..] + t;
      StripPunctuationAppend(s[1..], t);
    }
  }

  /** The length filter keeps each word on its own merits, so it keeps the
      order and the repetitions of the words it keeps. */
  lemma {:induction false} LongWordsAppend(v: seq<string>, w: seq<string>)
    ensures LongWords(v + w) == LongWords(v) + LongWords(w)
    decreases |v|
  {
    if v == [] {
      assert v + w == w;
    } else {
      assert (v + w)[0] == v[0] && (v + w)[1..] == v[1..] + w;
      LongWordsAppend(v[1..], w);
    }
  }

  /** Leading white space adds at most one empty field, which the length
      filter drops. */
  lemma SkippedWhitespaceAddsNoWords(t: string)
    ensures LongWords(SplitFrom(t, "")) == LongWords(SplitFrom(SkipWhitespace(t), ""))
  {
    if t != [] && IsWhitespace(t[0]) {
      LongWordsAppend([""], SplitFrom(SkipWhitespace(t[1..]), ""));
    }
  }

  /** A white space character between `s` and `t` separates their words:
      the long fields of the whole are those of `s`, read on from `cur`,
      followed by those of `t`. */
  lemma {:induction false} SplitAtGap(s: string, c: char, t: string, cur: string)
    requires IsWhitespace(c)
    ensures LongWords(SplitFrom(s + [c] + t, cur))
         == LongWords(SplitFrom(s, cur)) + LongWords(SplitFrom(t, ""))
    decreases |s|, 1
  {
    if s == [] {
      GapFirst(c, t, cur);
    } else if IsWhitespace(s[0]) {
      GapAfterSpace(s, c, t, cur);
    } else {
      var u := s + [c] + t;
      assert u[0] == s[0] && u[1..] == s[1..] + [c] + t;
      assert SplitFrom(u, cur) == SplitFrom(s[1..] + [c] + t, cur + [s[0]]);
      assert SplitFrom(s, cur) == SplitFrom(s[1..], cur + [s[0]]);
      SplitAtGap(s[1..], c, t, cur + [s[0]]);
    }
  }

  /** `SplitAtGap` when `s` is empty. */
  lemma GapFirst(c: char, t: string, cur: string)
    requires IsWhitespace(c)
    ensures LongWords(SplitFrom([c] + t, cur))
         == LongWords(SplitFrom([], cur)) + LongWords(SplitFrom(t, ""))
  {
    assert ([c] + t)[1..] == t;
    assert SplitFrom([c] + t, cur) == [cur] + SplitFrom(SkipWhitespace(t), "");
    SkippedWhitespaceAddsNoWords(t);
    LongWordsAppend([cur], SplitFrom(SkipWhitespace(t), ""));
  }

  /** `SplitAtGap` when `s` starts with white space. */
  lemma {:induction false} GapAfterSpace(s: string, c: char, t: string, cur: string)
    requires IsWhitespace(c) && s != [] && IsWhitespace(s[0])
    ensures LongWords(SplitFrom(s + [c] + t, cur))
         == LongWords(SplitFrom(s, cur)) + LongWords(SplitFrom(t, ""))
    decreases |s|, 0
  {
    var u := s + [c] + t;
    var rest := s[1..] + [c] + t;
    assert u[0] == s[0] && u[1..] == rest;
    assert SplitFrom(u, cur) == [cur] + SplitFrom(SkipWhitespace(rest), "");
    assert SplitFrom(s, cur) == [cur] + SplitFrom(SkipWhitespace(s[1..]), "");
    var x, y := SplitFrom(SkipWhitespace(rest), ""), SplitFrom(SkipWhitespace(s[1..]), "");
    var head, tail := LongWords([cur]), LongWords(SplitFrom(t, ""));
    SplitAtGap(s[1..], c, t, "");
    SkippedWhitespaceAddsNoWords(rest);
    SkippedWhitespaceAddsNoWords(s[1..]);
    assert LongWords(x) == LongWords(y) + tail;
    LongWordsAppend([cur], x);
    LongWordsAppend([cur], y);
    calc {
      LongWords(SplitFrom(u, cur));
      LongWords([cur] + x);
      head + LongWords(x);
      head + (LongWords(y) + tail);
      { AppendAssociates(head, LongWords(y), tail); }
      (head + LongWords(y)) + tail;
      LongWords([cur] + y) + tail;
      LongWords(SplitFrom(s, cur)) + tail;
    }
  }

  /** Tokenizing two texts joined by a space yields the tokens of the first
      followed by the tokens of the second. With `WordIsOneToken` this fixes
      the token sequence, order and repetitions included: words separated
      by spaces become their lower-cased selves, one token per occurrence. */
  lemma TokenizeAppend(a: string, b: string)
    ensures Tokenize(a + " " + b) == Tokenize(a) + Tokenize(b)
  {
    var la, lb := Lower(a), Lower(b);
    LowerAppend(a + " ", b);
    LowerAppend(a, " ");
    assert Lower(" ") == " ";
    StripPunctuationAppend(la + " ", lb);
    StripPunctuationAppend(la, " ");
    assert StripPunctuation(" ") == " ";
    assert Normalize(a + " " + b) == Normalize(a) + [' '] + Normalize(b);
    SplitAtGap(Normalize(a), ' ', Normalize(b), "");
  }
}
