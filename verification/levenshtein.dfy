/** The edit distance used for fuzzy keyword matching in js/chatbot.js: the
    classic dynamic-programming table over prefixes, proved equal to the
    textbook recursive definition. */
module Levenshtein {

  function Min3(x: nat, y: nat, z: nat): (m: nat)
    ensures m <= x && m <= y && m <= z
    ensures m == x || m == y || m == z
  {
    if x <= y && x <= z then x else if y <= z then y else z
  }

  /** The textbook edit distance between the prefixes `a[..i]` and `b[..j]`:
      the fewest single-character insertions, deletions and substitutions
      turning one into the other. */
  function Dist(a: string, b: string, i: nat, j: nat): nat
    requires i <= |a| && j <= |b|
    decreases i + j
  {
    if i == 0 then j
    else if j == 0 then i
    else Min3(Dist(a, b, i - 1, j) + 1,
              Dist(a, b, i, j - 1) + 1,
              Dist(a, b, i - 1, j - 1) + (if a[i - 1] == b[j - 1] then 0 else 1))
  }

  /** The edit distance between two whole strings: zero exactly for equal
      strings, never below the difference in length and never above the
      longer length. */
  function EditDistance(a: string, b: string): (r: nat)
    ensures r == 0 <==> a == b
    ensures |a| - |b| <= r && |b| - |a| <= r
    ensures r <= if |a| <= |b| then |b| else |a|
  {
    ZeroIffIdentical(a, b);
    LengthBounds(a, b, |a|, |b|);
    Dist(a, b, |a|, |b|)
  }

  /** Removing the last character of `a`'s prefix raises the distance by at most one. */
  lemma {:induction false} DropFromA(a: string, b: string, i: nat, j: nat)
    requires 1 <= i <= |a| && j <= |b|
    ensures Dist(a, b, i - 1, j) <= Dist(a, b, i, j) + 1
    decreases i + j
  {
    if j > 0 {
      DropFromA(a, b, i, j - 1);
      assert Dist(a, b, i - 1, j) <= Dist(a, b, i - 1, j - 1) + 1;
    }
  }

  /** Removing the last character of `b`'s prefix raises the distance by at most one. */
  lemma {:induction false} DropFromB(a: string, b: string, i: nat, j: nat)
    requires i <= |a| && 1 <= j <= |b|
    ensures Dist(a, b, i, j - 1) <= Dist(a, b, i, j) + 1
    decreases i + j
  {
    if i > 0 {
      DropFromB(a, b, i - 1, j);
      assert Dist(a, b, i, j - 1) <= Dist(a, b, i - 1, j - 1) + 1;
    }
  }

  /** When the last characters agree the minimum is always the diagonal, so
      the table may copy it without comparing the other two neighbours. */
  lemma MatchingLastCharacters(a: string, b: string, i: nat, j: nat)
    requires 1 <= i <= |a| && 1 <= j <= |b| && a[i - 1] == b[j - 1]
    ensures Dist(a, b, i, j) == Dist(a, b, i - 1, j - 1)
  {
    DropFromB(a, b, i - 1, j);
    DropFromA(a, b, i, j - 1);
  }

  /** The table is filled correctly for every cell before (`p`, `q`) in
      row-major order, and for the whole first row and first column. Rows
      range over `b`, columns over `a`, as in the source. */
  ghost predicate Filled(m: array2<nat>, a: string, b: string, i: int, j: int)
    requires m.Length0 == |b| + 1 && m.Length1 == |a| + 1
    reads m
  {
    forall p, q ::
      0 <= p <= |b| && 0 <= q <= |a| && (p == 0 || q == 0 || p < i || (p == i && q < j))
      ==> m[p, q] == Dist(a, b, q, p)
  }

  /** `getLevenshteinDistance(a, b)`: the early returns for empty strings, then
      the (|b|+1)×(|a|+1) table, copying the diagonal when characters match
      and taking the cheapest neighbour plus one otherwise. */
  method LevenshteinDistance(a: string, b: string) returns (d: nat)
    ensures d == EditDistance(a, b)
    ensures |a| == 0 ==> d == |b|
    ensures |b| == 0 ==> d == |a|
  {
    if |a| == 0 {
      return |b|;
    }
    if |b| == 0 {
      return |a|;
    }
    var m := new nat[|b| + 1, |a| + 1];
    var i := 0;
    while i <= |b|
      invariant 0 <= i <= |b| + 1
      invariant forall p :: 0 <= p < i ==> m[p, 0] == p
    {
      m[i, 0] := i;
      i := i + 1;
    }
    var j := 0;
    while j <= |a|
      invariant 0 <= j <= |a| + 1
      invariant forall p :: 0 <= p <= |b| ==> m[p, 0] == p
      invariant forall q :: 0 <= q < j ==> m[0, q] == q
    {
      m[0, j] := j;
      j := j + 1;
    }
    i := 1;
    while i <= |b|
      invariant 1 <= i <= |b| + 1
      invariant Filled(m, a, b, i, 0)
    {
      FillRow(m, a, b, i);
      i := i + 1;
    }
    d := m[|b|, |a|];
  }

  /** Row `i` of the table, left to right, given every earlier row and the
      first column. */
  method FillRow(m: array2<nat>, a: string, b: string, i: nat)
    requires m.Length0 == |b| + 1 && m.Length1 == |a| + 1
    requires 1 <= i <= |b| && Filled(m, a, b, i, 0)
    modifies m
    ensures Filled(m, a, b, i + 1, 0)
  {
    var j := 1;
    while j <= |a|
      invariant 1 <= j <= |a| + 1
      invariant Filled(m, a, b, i, j)
    {
      var v := Cell(m[i - 1, j - 1], m[i, j - 1], m[i - 1, j], a, b, i, j);
      m[i, j] := v;
      j := j + 1;
    }
  }

  /** The value of cell (`i`, `j`) from its three filled neighbours. */
  function Cell(diag: nat, left: nat, up: nat, a: string, b: string, i: nat, j: nat): (v: nat)
    requires 1 <= i <= |b| && 1 <= j <= |a|
    requires diag == Dist(a, b, j - 1, i - 1) && left == Dist(a, b, j - 1, i) && up == Dist(a, b, j, i - 1)
    ensures v == Dist(a, b, j, i)
  {
    if b[i - 1] == a[j - 1] then
      MatchingLastCharacters(a, b, j, i);
      diag
    else
      Unfold(a, b, j, i);
      Min3Rotate(left + 1, up + 1, diag + 1);
      Min3(diag + 1, left + 1, up + 1)
  }

  /** Equal prefixes are at distance zero. */
  lemma {:induction false} SamePrefixIsZero(a: string, b: string, i: nat)
    requires i <= |a| && i <= |b| && a[..i] == b[..i]
    ensures Dist(a, b, i, i) == 0
  {
    if i > 0 {
      assert a[i - 1] == a[..i][i - 1] == b[..i][i - 1] == b[i - 1];
      assert a[..i - 1] == a[..i][..i - 1];
      assert b[..i - 1] == b[..i][..i - 1];
      SamePrefixIsZero(a, b, i - 1);
    }
  }

  /** Distance zero means the prefixes are equal. */
  lemma {:induction false} ZeroMeansSamePrefix(a: string, b: string, i: nat, j: nat)
    requires i <= |a| && j <= |b| && Dist(a, b, i, j) == 0
    ensures i == j && a[..i] == b[..j]
    decreases i + j
  {
    if i > 0 && j > 0 {
      ZeroMeansSamePrefix(a, b, i - 1, j - 1);
      assert a[..i] == a[..i - 1] + [a[i - 1]];
      assert b[..j] == b[..j - 1] + [b[j - 1]];
    }
  }

  /** The distance between whole strings is zero exactly when they are identical. */
  lemma ZeroIffIdentical(a: string, b: string)
    ensures Dist(a, b, |a|, |b|) == 0 <==> a == b
  {
    if a == b {
      SamePrefixIsZero(a, b, |a|);
    }
    if Dist(a, b, |a|, |b|) == 0 {
      ZeroMeansSamePrefix(a, b, |a|, |b|);
      assert a == a[..|a|] && b == b[..|b|];
    }
  }

  /** The distance is symmetric, although the table is not filled symmetrically. */
  lemma {:induction false} Symmetric(a: string, b: string, i: nat, j: nat)
    requires i <= |a| && j <= |b|
    ensures Dist(a, b, i, j) == Dist(b, a, j, i)
    decreases i + j
  {
    if i > 0 && j > 0 {
      Symmetric(a, b, i - 1, j);
      Symmetric(a, b, i, j - 1);
      Symmetric(a, b, i - 1, j - 1);
      Unfold(a, b, i, j);
      Unfold(b, a, j, i);
      var cost := if a[i - 1] == b[j - 1] then 0 else 1;
      Min3Swap(Dist(a, b, i - 1, j) + 1, Dist(a, b, i, j - 1) + 1, Dist(a, b, i - 1, j - 1) + cost);
    }
  }

  /** One step of the recurrence away from the borders. */
  lemma Unfold(a: string, b: string, i: nat, j: nat)
    requires 1 <= i <= |a| && 1 <= j <= |b|
    ensures Dist(a, b, i, j) == Min3(Dist(a, b, i - 1, j) + 1, Dist(a, b, i, j - 1) + 1,
                                     Dist(a, b, i - 1, j - 1) + (if a[i - 1] == b[j - 1] then 0 else 1))
  {
  }

  lemma Min3Rotate(x: nat, y: nat, z: nat)
    ensures Min3(z, x, y) == Min3(x, y, z)
  {
  }

  lemma Min3Swap(x: nat, y: nat, z: nat)
    ensures Min3(x, y, z) == Min3(y, x, z)
  {
  }

  /** The distance is at least the difference in length. */
  lemma {:induction false} LengthLowerBound(a: string, b: string, i: nat, j: nat)
    requires i <= |a| && j <= |b|
    ensures i - j <= Dist(a, b, i, j) && j - i <= Dist(a, b, i, j)
    decreases i + j
  {
    if i > 0 && j > 0 {
      LengthLowerBound(a, b, i - 1, j);
      LengthLowerBound(a, b, i, j - 1);
      LengthLowerBound(a, b, i - 1, j - 1);
    }
  }

  /** The distance is at most the longer length: substitute along the
      shorter string, then insert or delete the rest. */
  lemma {:induction false} LengthUpperBound(a: string, b: string, i: nat, j: nat)
    requires i <= |a| && j <= |b|
    ensures Dist(a, b, i, j) <= if i <= j then j else i
    decreases i + j
  {
    if i > 0 && j > 0 {
      LengthUpperBound(a, b, i - 1, j - 1);
    }
  }

  /** Both length bounds together. */
  lemma LengthBounds(a: string, b: string, i: nat, j: nat)
    requires i <= |a| && j <= |b|
    ensures i - j <= Dist(a, b, i, j) && j - i <= Dist(a, b, i, j)
    ensures Dist(a, b, i, j) <= if i <= j then j else i
  {
    LengthLowerBound(a, b, i, j);
    LengthUpperBound(a, b, i, j);
  }

  /** An example: a misspelling that misses one letter is one edit away
      from the word. */
  lemma MissingLetterExample()
    ensures EditDistance("pythn", "python") == 1
  {
    var a, b := "pythn", "python";
    SamePrefixIsZero(a, b, 4);
    assert Dist(a, b, 4, 5) <= Dist(a, b, 4, 4) + 1;
    assert Dist(a, b, 5, 6) <= Dist(a, b, 4, 5);
  }
}
