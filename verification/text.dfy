/** Small shared vocabulary: an optional value (JavaScript's `null`/`undefined`
    versus a present value) and the string primitives the engine relies on,
    restricted to what the matcher actually uses. */
module Options {

  /** A value that may be absent; `None` stands for `null` or `undefined`. */
  datatype Option<+T> = None | Some(value: T)
}

module Text {

  /** ASCII upper-case letter. */
  predicate IsUpper(c: char) {
    'A' <= c <= 'Z'
  }

  /** `String.prototype.toLowerCase` on one character, restricted to ASCII. */
  function LowerChar(c: char): (r: char)
    ensures !IsUpper(r)
    ensures !IsUpper(c) ==> r == c
    ensures IsUpper(c) ==> r as int == c as int + 32
  {
    if IsUpper(c) then (c as int + 32) as char else c
  }

  /** `String.prototype.toLowerCase`, restricted to ASCII letters. */
  function Lower(s: string): (r: string)
    ensures |r| == |s|
    ensures forall i :: 0 <= i < |r| ==> r[i] == LowerChar(s[i])
    ensures forall i :: 0 <= i < |r| ==> !IsUpper(r[i])
  {
    if s == [] then [] else [LowerChar(s[0])] + Lower(s[1..])
  }

  /** Lower-casing works character by character, so it distributes over
      concatenation. */
  lemma LowerAppend(s: string, t: string)
    ensures Lower(s + t) == Lower(s) + Lower(t)
  {
  }

  /** `needle` occurs at the start of `hay`. */
  predicate StartsWith(hay: string, needle: string) {
    |needle| <= |hay| && hay[..|needle|] == needle
  }

  /** `hay.includes(needle)`: some position of `hay` starts an occurrence of
      `needle`; the empty needle occurs in every string. */
  predicate Includes(hay: string, needle: string)
    decreases |hay|
  {
    StartsWith(hay, needle) || (|hay| > 0 && Includes(hay[1..], needle))
  }

  /** The positional reading of `Includes`: an occurrence at index `i`. */
  predicate OccursAt(hay: string, needle: string, i: int) {
    0 <= i && i + |needle| <= |hay| && hay[i..i + |needle|] == needle
  }

  /** `Includes` holds exactly when the needle occurs at some index. */
  lemma {:induction false} IncludesIffOccurs(hay: string, needle: string)
    ensures Includes(hay, needle) <==> exists i :: OccursAt(hay, needle, i)
    decreases |hay|
  {
    if Includes(hay, needle) {
      if StartsWith(hay, needle) {
        assert OccursAt(hay, needle, 0);
      } else {
        IncludesIffOccurs(hay[1..], needle);
        var i :| OccursAt(hay[1..], needle, i);
        assert hay[1..][i..i + |needle|] == hay[i + 1..i + 1 + |needle|];
        assert OccursAt(hay, needle, i + 1);
      }
    }
    if exists i :: OccursAt(hay, needle, i) {
      var i :| OccursAt(hay, needle, i);
      if i == 0 {
        assert StartsWith(hay, needle);
      } else {
        assert hay[1..][i - 1..i - 1 + |needle|] == hay[i..i + |needle|];
        assert OccursAt(hay[1..], needle, i - 1);
        IncludesIffOccurs(hay[1..], needle);
      }
    }
  }

  /** An included non-empty needle has its first character somewhere in the haystack. */
  lemma IncludedFirstCharacter(hay: string, needle: string)
    ensures Includes(hay, needle) && needle != [] ==> exists i :: 0 <= i < |hay| && hay[i] == needle[0]
  {
    IncludesIffOccurs(hay, needle);
    if Includes(hay, needle) && needle != [] {
      var i :| OccursAt(hay, needle, i);
      assert hay[i] == hay[i..i + |needle|][0];
    }
  }

  /** A string includes itself and the empty string. */
  lemma IncludesSelfAndEmpty(s: string)
    ensures Includes(s, s)
    ensures Includes(s, "")
  {
    assert s[..|s|] == s;
    assert s[..0] == "";
  }

  /** A needle longer than the haystack never occurs in it. */
  lemma {:induction false} IncludesNeedsRoom(hay: string, needle: string)
    requires Includes(hay, needle)
    ensures |needle| <= |hay|
    decreases |hay|
  {
    if !StartsWith(hay, needle) {
      IncludesNeedsRoom(hay[1..], needle);
    }
  }
}
