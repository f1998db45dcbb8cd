/** The two ways `findBestMatch` (js/chatbot.js) picks a winner among scored
    entries: a left-to-right scan that only moves on a strictly higher score,
    and a stable descending sort of the positive-scoring entries. Both pick
    the first entry with the maximum score. */
module Ranking {
  import opened Options

  /** An item with its score, as pushed onto `potentialMatches`. */
  datatype Scored<T> = Scored(item: T, score: nat)

  /** The greatest score, or 0 when there is nothing to score. */
  function MaxScore<T>(s: seq<Scored<T>>): (m: nat)
    ensures forall i :: 0 <= i < |s| ==> s[i].score <= m
    ensures s != [] ==> exists i :: 0 <= i < |s| && s[i].score == m
    ensures s == [] ==> m == 0
  {
    if s == [] then 0
    else
      var rest := MaxScore(s[1..]);
      assert forall i :: 1 <= i < |s| ==> s[i] == s[1..][i - 1];
      if s[0].score >= rest then s[0].score else rest
  }

  /** The position of the first item with the maximum score. */
  function FirstMaxIndex<T>(s: seq<Scored<T>>): (i: nat)
    requires s != []
    ensures i < |s| && s[i].score == MaxScore(s)
    ensures forall j :: 0 <= j < i ==> s[j].score < MaxScore(s)
  {
    FirstAtLeast(s, MaxScore(s))
  }

  /** The position of the first item scoring at least `bound`. */
  function FirstAtLeast<T>(s: seq<Scored<T>>, bound: nat): (i: nat)
    requires exists k :: 0 <= k < |s| && s[k].score >= bound
    ensures i < |s| && s[i].score >= bound
    ensures forall j :: 0 <= j < i ==> s[j].score < bound
  {
    if s[0].score >= bound then 0
    else
      var k :| 0 <= k < |s| && s[k].score >= bound;
      assert s[1..][k - 1] == s[k];
      1 + FirstAtLeast(s[1..], bound)
  }

  /** The state of the scan: the best item so far and its score. */
  datatype Best<T> = Best(item: Option<T>, score: nat)

  /** The scan `if (score > highestScore) { highestScore = score; bestMatch = item; }`
      continued from `acc` over the remaining items. */
  function Scan<T>(s: seq<Scored<T>>, acc: Best<T>): (r: Best<T>)
    ensures acc.score <= r.score
    ensures forall i :: 0 <= i < |s| ==> s[i].score <= r.score
    ensures r.score == acc.score ==> r == acc
  {
    if s == [] then acc
    else if s[0].score > acc.score then Scan(s[1..], Best(Some(s[0].item), s[0].score))
    else Scan(s[1..], acc)
  }

  /** The scan, started from an accumulator, ends with the larger of the
      accumulated score and the maximum, and it moves off the accumulated
      item exactly when some item beats it, landing on the first item with
      the maximum score. */
  lemma {:induction false} ScanFindsFirstMax<T>(s: seq<Scored<T>>, acc: Best<T>)
    ensures MaxScore(s) <= acc.score ==> Scan(s, acc) == acc
    ensures MaxScore(s) > acc.score ==>
              Scan(s, acc) == Best(Some(s[FirstMaxIndex(s)].item), MaxScore(s))
  {
    if s != [] {
      var m := MaxScore(s);
      if s[0].score > acc.score {
        var acc' := Best(Some(s[0].item), s[0].score);
        ScanFindsFirstMax(s[1..], acc');
        if MaxScore(s[1..]) > s[0].score {
          FirstMaxShift(s);
        }
      } else {
        ScanFindsFirstMax(s[1..], acc);
        if m > acc.score {
          FirstMaxShift(s);
        }
      }
    }
  }

  /** When the head is not a maximum, the first maximum lies in the tail. */
  lemma FirstMaxShift<T>(s: seq<Scored<T>>)
    requires s != [] && s[0].score < MaxScore(s)
    ensures s[1..] != [] && MaxScore(s[1..]) == MaxScore(s)
    ensures FirstMaxIndex(s) == FirstMaxIndex(s[1..]) + 1
  {
    var i := FirstMaxIndex(s);
    var j := FirstMaxIndex(s[1..]);
    assert s[1..][i - 1] == s[i];
    assert s[j + 1] == s[1..][j];
  }

  /** `findBestMatch`'s scan from `bestMatch = null, highestScore = 0`: it
      ends on the first item with the maximum score, or on nothing when every
      score is zero. */
  lemma ScanFromZero<T>(s: seq<Scored<T>>)
    ensures MaxScore(s) == 0 ==> Scan(s, Best(None, 0)) == Best(None, 0)
    ensures MaxScore(s) > 0 ==> Scan(s, Best(None, 0)) == Best(Some(s[FirstMaxIndex(s)].item), MaxScore(s))
  {
    ScanFindsFirstMax(s, Best(None, 0));
  }

  /** `potentialMatches`: the items scoring above zero, in their original order. */
  function Positives<T>(s: seq<Scored<T>>): (r: seq<Scored<T>>)
    ensures |r| <= |s|
    ensures forall i :: 0 <= i < |r| ==> r[i].score > 0
  {
    if s == [] then []
    else if s[0].score > 0 then [s[0]] + Positives(s[1..])
    else Positives(s[1..])
  }

  /** The kept items are exactly the positive-scoring ones. */
  lemma {:induction false} PositivesMembers<T>(s: seq<Scored<T>>)
    ensures forall x :: x in Positives(s) <==> x in s && x.score > 0
  {
    if s != [] {
      PositivesMembers(s[1..]);
      assert s == [s[0]] + s[1..];
    }
  }

  /** Insert `x` before the first element it is not beaten by: equal scores
      keep `x`, which came earlier in the input, in front. */
  function Insert<T>(x: Scored<T>, s: seq<Scored<T>>): (r: seq<Scored<T>>)
    ensures |r| == |s| + 1
    ensures multiset(r) == multiset(s) + multiset{x}
  {
    if s == [] || s[0].score <= x.score then [x] + s
    else
      assert s == [s[0]] + s[1..];
      [s[0]] + Insert(x, s[1..])
  }

  /** How many leading items of `s` score strictly more than `x`: the
      place where `Insert` puts `x`. */
  function LeadersAbove<T>(x: Scored<T>, s: seq<Scored<T>>): (k: nat)
    ensures k <= |s|
    ensures forall i :: 0 <= i < k ==> s[i].score > x.score
    ensures k < |s| ==> s[k].score <= x.score
  {
    if s == [] || s[0].score <= x.score then 0 else 1 + LeadersAbove(x, s[1..])
  }

  /** `Insert` places `x` right after the leading items that score strictly
      more than it, so it lands before every item scoring the same: the
      comparator `b.score - a.score` of the stable sort keeps ties in their
      original order. */
  lemma {:induction false} InsertIsStable<T>(x: Scored<T>, s: seq<Scored<T>>)
    ensures var k := LeadersAbove(x, s); Insert(x, s) == s[..k] + [x] + s[k..]
  {
    if s != [] && s[0].score > x.score {
      var k := LeadersAbove(x, s[1..]);
      InsertIsStable(x, s[1..]);
      assert Insert(x, s) == [s[0]] + (s[1..][..k] + [x] + s[1..][k..]);
      ConsSplit(s[0], s[1..], k, x);
      assert [s[0]] + s[1..] == s;
    } else {
      assert s[..0] == [] && s[0..] == s;
    }
  }

  /** Putting `h` in front of a sequence split at `k` splits the longer
      sequence at `k + 1`. */
  lemma ConsSplit<T>(h: T, t: seq<T>, k: nat, x: T)
    requires k <= |t|
    ensures [h] + (t[..k] + [x] + t[k..]) == ([h] + t)[..k + 1] + [x] + ([h] + t)[k + 1..]
  {
    assert ([h] + t)[..k + 1] == [h] + t[..k];
    assert ([h] + t)[k + 1..] == t[k..];
  }

  /** `sort((a, b) => b.score - a.score)`: a stable sort into descending
      score order, written as an insertion sort. */
  function SortDescending<T>(s: seq<Scored<T>>): (r: seq<Scored<T>>)
    ensures |r| == |s|
    ensures multiset(r) == multiset(s)
  {
    if s == [] then []
    else
      assert s == [s[0]] + s[1..];
      Insert(s[0], SortDescending(s[1..]))
  }

  predicate Descending<T>(s: seq<Scored<T>>) {
    forall i, j :: 0 <= i < j < |s| ==> s[i].score >= s[j].score
  }

  lemma {:induction false} InsertKeepsDescending<T>(x: Scored<T>, s: seq<Scored<T>>)
    requires Descending(s)
    ensures Descending(Insert(x, s))
  {
    if s != [] && s[0].score > x.score {
      InsertKeepsDescending(x, s[1..]);
      var r := Insert(x, s[1..]);
      forall k | 0 <= k < |r|
        ensures r[k].score <= s[0].score
      {
        assert r[k] in multiset(s[1..]) + multiset{x};
        if r[k] != x {
          var m :| 0 <= m < |s[1..]| && s[1..][m] == r[k];
          assert s[m + 1] == r[k];
        }
      }
      assert Insert(x, s) == [s[0]] + r;
    }
  }

  /** The sort really sorts. */
  lemma {:induction false} SortIsDescending<T>(s: seq<Scored<T>>)
    ensures Descending(SortDescending(s))
  {
    if s != [] {
      SortIsDescending(s[1..]);
      InsertKeepsDescending(s[0], SortDescending(s[1..]));
    }
  }

  /** The head of the stably sorted sequence is the first item with the
      maximum score. */
  lemma {:induction false} SortHeadIsFirstMax<T>(s: seq<Scored<T>>)
    requires s != []
    ensures SortDescending(s)[0] == s[FirstMaxIndex(s)]
  {
    if |s| > 1 {
      var t := SortDescending(s[1..]);
      SortHeadIsFirstMax(s[1..]);
      assert SortDescending(s) == Insert(s[0], t);
      if t[0].score > s[0].score {
        assert Insert(s[0], t)[0] == t[0];
        FirstMaxShift(s);
      } else {
        assert Insert(s[0], t)[0] == s[0];
        HeadAtLeastTailMax(s);
      }
    }
  }

  /** A head scoring at least the tail's maximum is the first maximum. */
  lemma HeadAtLeastTailMax<T>(s: seq<Scored<T>>)
    requires |s| > 1 && s[0].score >= s[1..][FirstMaxIndex(s[1..])].score
    ensures FirstMaxIndex(s) == 0
  {
  }

  /** Filtering out the zero scores keeps the first maximum when the maximum
      is positive, and empties the sequence exactly when every score is zero. */
  lemma PositivesKeepFirstMax<T>(s: seq<Scored<T>>)
    ensures Positives(s) == [] <==> MaxScore(s) == 0
    ensures MaxScore(s) > 0 ==> Positives(s)[FirstMaxIndex(Positives(s))] == s[FirstMaxIndex(s)]
  {
    if MaxScore(s) > 0 {
      PositivesFirstMax(s);
    } else {
      NoPositives(s);
    }
  }

  /** With every score zero nothing is kept. */
  lemma {:induction false} NoPositives<T>(s: seq<Scored<T>>)
    requires MaxScore(s) == 0
    ensures Positives(s) == []
  {
    if s != [] {
      NoPositives(s[1..]);
    }
  }

  /** Dropping zero scores keeps the maximum, once it is positive. */
  lemma {:induction false} PositivesKeepMax<T>(s: seq<Scored<T>>)
    requires MaxScore(s) > 0
    ensures MaxScore(Positives(s)) == MaxScore(s)
  {
    if s[0].score > 0 {
      assert Positives(s) == [s[0]] + Positives(s[1..]);
      assert ([s[0]] + Positives(s[1..]))[1..] == Positives(s[1..]);
      if MaxScore(s[1..]) > 0 {
        PositivesKeepMax(s[1..]);
      } else {
        NoPositives(s[1..]);
      }
    } else {
      PositivesKeepMax(s[1..]);
    }
  }

  /** A head with the maximum score is the first maximum. */
  lemma HeadIsFirstMax<T>(s: seq<Scored<T>>)
    requires s != [] && s[0].score == MaxScore(s)
    ensures FirstMaxIndex(s) == 0
  {
  }

  lemma {:induction false} PositivesFirstMax<T>(s: seq<Scored<T>>)
    requires MaxScore(s) > 0
    ensures Positives(s) != [] && Positives(s)[FirstMaxIndex(Positives(s))] == s[FirstMaxIndex(s)]
  {
    var p := Positives(s);
    PositivesKeepMax(s);
    if s[0].score == MaxScore(s) {
      assert p == [s[0]] + Positives(s[1..]);
      HeadIsFirstMax(s);
      HeadIsFirstMax(p);
      assert p[FirstMaxIndex(p)] == s[0] == s[FirstMaxIndex(s)];
    } else {
      FirstMaxShift(s);
      PositivesFirstMax(s[1..]);
      var q := Positives(s[1..]);
      assert s[FirstMaxIndex(s)] == s[1..][FirstMaxIndex(s[1..])] == q[FirstMaxIndex(q)];
      if s[0].score > 0 {
        assert p == [s[0]] + q;
        assert p[1..] == q;
        FirstMaxShift(p);
        assert p[FirstMaxIndex(p)] == q[FirstMaxIndex(q)];
      } else {
        assert p == q;
      }
    }
  }

  /** The salvage branch: the head of the sorted positive items is the first
      item with the maximum score. */
  lemma SalvagePicksFirstMax<T>(s: seq<Scored<T>>)
    requires MaxScore(s) > 0
    ensures SortDescending(Positives(s)) != []
    ensures SortDescending(Positives(s))[0] == s[FirstMaxIndex(s)]
  {
    PositivesKeepFirstMax(s);
    SortHeadIsFirstMax(Positives(s));
  }
}
