/**
 Phases 3 and 4 of `hybrid_search` and `build_context` in `backend/pipeline/query.py`.

 Scores are exact reals.  Case folding happens outside: a point carries its lower-cased
 text and title beside the raw text.
 */
module Reranking {
  import opened Common
  import opened Sequences

  datatype Point = Point(id: int, text: string, lowText: string, lowTitle: string, slideNum: int, score: real)

  datatype Scored = Scored(score: real, point: Point)

  const PREFIX_LENGTH: nat := 200

  predicate OccursAt(needle: string, hay: string, i: nat) {
    i + |needle| <= |hay| && hay[i..i + |needle|] == needle
  }

  predicate Occurs(needle: string, hay: string) {
    exists i :: 0 <= i <= |hay| && OccursAt(needle, hay, i)
  }

  function Prefix(p: Point): string {
    if |p.text| <= PREFIX_LENGTH then p.text else p.text[..PREFIX_LENGTH]
  }

  /** `needle in hay` */
  lemma OccursIff(needle: string, hay: string)
    ensures Occurs(needle, hay) <==> exists a, b :: hay == a + needle + b
  {
    if i :| 0 <= i <= |hay| && OccursAt(needle, hay, i) {
      assert hay == hay[..i] + needle + hay[i + |needle|..];
    }
    if a, b :| hay == a + needle + b {
      assert hay[|a|..|a| + |needle|] == needle;
      assert OccursAt(needle, hay, |a|);
    }
  }

  /** Two points repeat each other exactly when their texts are equal, or have 200 characters and agree on these. */
  lemma SamePrefixIff(p: Point, q: Point)
    ensures Prefix(p) == Prefix(q) <==>
              p.text == q.text || (|p.text| >= 200 && |q.text| >= 200 && p.text[..200] == q.text[..200])
  {
    assert |p.text| == 200 ==> p.text[..200] == p.text;
    assert |q.text| == 200 ==> q.text[..200] == q.text;
  }

  function Take<T>(s: seq<T>, k: int): seq<T> {
    if k <= 0 then [] else if |s| <= k then s else s[..k]
  }

  // ---------------------------------------------------------------- scoring

  predicate Matches(p: Point, query: string) {
    Occurs(query, p.lowTitle) || Occurs(query, p.lowText)
  }

  /** `boost` is decided by the first expansion that matches: a title match outranks a text match. */
  ghost predicate IsMatchBoost(boost: real, p: Point, expanded: seq<string>) {
    || (boost == 0.0 && forall q :: q in expanded ==> !Matches(p, q))
    || (exists j :: && 0 <= j < |expanded| && Matches(p, expanded[j])
                    && (forall i :: 0 <= i < j ==> !Matches(p, expanded[i]))
                    && boost == if Occurs(expanded[j], p.lowTitle) then 0.4 else 0.2)
  }

  function FixedBoost(p: Point, definition: bool): real {
    (if definition && Occurs("title", p.lowText) then 0.15 else 0.0)
    + (if p.slideNum <= 20 then 0.1 * (1.0 - p.slideNum as real / 100.0) else 0.0)
  }

  /** One iteration of the phase 3 loop. */
  method FinalScore(p: Point, expanded: seq<string>, definition: bool) returns (score: real)
    ensures IsMatchBoost(score - p.score - FixedBoost(p, definition), p, expanded)
    ensures var fixed := (if definition && Occurs("title", p.lowText) then 0.15 else 0.0)
                         + (if p.slideNum <= 20 then 0.1 * (1.0 - p.slideNum as real / 100.0) else 0.0);
            && ((forall q :: q in expanded ==> !Occurs(q, p.lowTitle) && !Occurs(q, p.lowText)) ==> score == p.score + fixed)
            && (forall j | && 0 <= j < |expanded| && (Occurs(expanded[j], p.lowTitle) || Occurs(expanded[j], p.lowText))
                           && forall i :: 0 <= i < j ==> !Occurs(expanded[i], p.lowTitle) && !Occurs(expanded[i], p.lowText) ::
                  score == p.score + fixed + if Occurs(expanded[j], p.lowTitle) then 0.4 else 0.2)
  {
    score := p.score;
    var i := 0;
    while i < |expanded|
      invariant 0 <= i <= |expanded| && score == p.score
      invariant forall k :: 0 <= k < i ==> !Matches(p, expanded[k])
    {
      if Occurs(expanded[i], p.lowTitle) {
        score := score + 0.4;
        break;
      }
      if Occurs(expanded[i], p.lowText) {
        score := score + 0.2;
        break;
      }
      i := i + 1;
    }
    assert IsMatchBoost(score - p.score, p, expanded);
    if definition && Occurs("title", p.lowText) {
      score := score + 0.15;
    }
    if p.slideNum <= 20 {
      score := score + 0.1 * (1.0 - p.slideNum as real / 100.0);
    }
  }

  // ---------------------------------------------------------------- stable sort

  /** `list.sort(key=score, reverse=True)`: descending, equal scores keep their order. */
  function StableDescending(s: seq<Scored>): seq<Scored> {
    if s == [] then [] else InsertLast(StableDescending(s[..|s| - 1]), s[|s| - 1])
  }

  function InsertLast(s: seq<Scored>, x: Scored): seq<Scored> {
    if s == [] || s[|s| - 1].score >= x.score then s + [x]
    else InsertLast(s[..|s| - 1], x) + [s[|s| - 1]]
  }

  ghost predicate Descending(s: seq<Scored>) {
    forall i, j :: 0 <= i < j < |s| ==> s[i].score >= s[j].score
  }

  /** The elements of one score, in order. */
  function WithScore(s: seq<Scored>, v: real): seq<Scored> {
    if s == [] then [] else (if s[0].score == v then [s[0]] else []) + WithScore(s[1..], v)
  }

  lemma {:induction false} WithScoreMembers(s: seq<Scored>, v: real)
    ensures forall x :: x in WithScore(s, v) <==> x in s && x.score == v
  {
    if s != [] {
      WithScoreMembers(s[1..], v);
      assert forall x :: x in s <==> x == s[0] || x in s[1..];
    }
  }

  lemma {:induction false} WithScoreAppend(a: seq<Scored>, b: seq<Scored>, v: real)
    ensures WithScore(a + b, v) == WithScore(a, v) + WithScore(b, v)
  {
    if a == [] {
      assert a + b == b;
    } else {
      assert (a + b)[0] == a[0] && (a + b)[1..] == a[1..] + b;
      WithScoreAppend(a[1..], b, v);
      Associative(if a[0].score == v then [a[0]] else [], WithScore(a[1..], v), WithScore(b, v));
    }
  }

  lemma {:induction false} InsertKeepsDescending(s: seq<Scored>, x: Scored)
    requires Descending(s)
    ensures Descending(InsertLast(s, x))
    ensures |InsertLast(s, x)| == |s| + 1
    ensures s == [] || InsertLast(s, x)[|s|] == s[|s| - 1] || InsertLast(s, x)[|s|] == x
    ensures InsertLast(s, x)[|s|].score <= x.score
    ensures s != [] ==> InsertLast(s, x)[|s|].score <= s[|s| - 1].score
  {
    if s != [] && s[|s| - 1].score < x.score {
      var n := |s| - 1;
      InsertKeepsDescending(s[..n], x);
      var r := InsertLast(s[..n], x);
      assert forall i :: 0 <= i < |r| ==> r[i].score >= r[n].score;
      assert n > 0 ==> s[n - 1].score >= s[n].score;
    }
  }

  lemma {:induction false} InsertIsStable(s: seq<Scored>, x: Scored, v: real)
    ensures WithScore(InsertLast(s, x), v) == WithScore(s, v) + WithScore([x], v)
  {
    if s == [] || s[|s| - 1].score >= x.score {
      WithScoreAppend(s, [x], v);
    } else {
      var n := |s| - 1;
      var init, last := s[..n], [s[n]];
      assert s == init + last;
      InsertIsStable(init, x, v);
      WithScoreAppend(InsertLast(init, x), last, v);
      WithScoreAppend(init, last, v);
      assert WithScore(last, v) == [] || WithScore([x], v) == [];
      SwapWithEmpty(WithScore(init, v), WithScore([x], v), WithScore(last, v));
    }
  }

  lemma {:induction false} SortKeepsScores(s: seq<Scored>, v: real)
    ensures WithScore(StableDescending(s), v) == WithScore(s, v)
  {
    if s != [] {
      var init, last := s[..|s| - 1], s[|s| - 1];
      assert s == init + [last];
      SortKeepsScores(init, v);
      InsertIsStable(StableDescending(init), last, v);
      WithScoreAppend(init, [last], v);
    }
  }

  /** The sort is descending, and a rearrangement that is stable at every score. */
  lemma {:induction false} SortIsStable(s: seq<Scored>)
    ensures Descending(StableDescending(s)) && |StableDescending(s)| == |s|
    ensures forall v :: WithScore(StableDescending(s), v) == WithScore(s, v)
  {
    forall v ensures WithScore(StableDescending(s), v) == WithScore(s, v) {
      SortKeepsScores(s, v);
    }
    if s != [] {
      SortIsStable(s[..|s| - 1]);
      InsertKeepsDescending(StableDescending(s[..|s| - 1]), s[|s| - 1]);
    }
  }

  lemma HeadLeads(a: seq<Scored>)
    requires a != []
    ensures WithScore(a, a[0].score) != [] && WithScore(a, a[0].score)[0] == a[0]
  {
  }

  /** Equal score classes: the head of one descending list does not exceed the head of the other. */
  lemma HeadIsInBoth(a: seq<Scored>, b: seq<Scored>)
    requires a != [] && Descending(b)
    requires forall v :: WithScore(a, v) == WithScore(b, v)
    ensures b != [] && a[0].score <= b[0].score
  {
    WithScoreMembers(a, a[0].score);
    WithScoreMembers(b, a[0].score);
    assert a[0] in WithScore(a, a[0].score);
    assert a[0] in b;
  }

  /** A descending list begins with the first of its elements of the highest score. */
  lemma {:induction false} HeadIsBest(a: seq<Scored>, b: seq<Scored>)
    requires a != [] && Descending(a) && Descending(b)
    requires forall v :: WithScore(a, v) == WithScore(b, v)
    ensures b != [] && b[0] == a[0]
  {
    HeadIsInBoth(a, b);
    HeadIsInBoth(b, a);
    HeadLeads(a);
    HeadLeads(b);
  }

  /** Two descending lists with the same elements at every score are equal. */
  lemma {:induction false} StableSortIsUnique(a: seq<Scored>, b: seq<Scored>)
    requires Descending(a) && Descending(b)
    requires forall v :: WithScore(a, v) == WithScore(b, v)
    ensures a == b
  {
    if a == [] {
      if b != [] {
        HeadIsBest(b, a);
      }
    } else {
      HeadIsBest(a, b);
      forall v ensures WithScore(a[1..], v) == WithScore(b[1..], v) {
        TailScores(a, v);
        TailScores(b, v);
      }
      StableSortIsUnique(a[1..], b[1..]);
      assert a == [a[0]] + a[1..] && b == [b[0]] + b[1..];
    }
  }

  lemma TailScores(a: seq<Scored>, v: real)
    requires a != []
    ensures WithScore(a[1..], v) == WithScore(a, v)[if a[0].score == v then 1 else 0..]
  {
  }

  // ---------------------------------------------------------------- diversity

  /** Entry `p` does not repeat the 200-character prefix of a better-ranked entry. */
  predicate Fresh(r: seq<Scored>, p: nat)
    requires p < |r|
  {
    forall q :: 0 <= q < p ==> Prefix(r[q].point) != Prefix(r[p].point)
  }

  /** The ranking without later repeats. */
  function Distinct(r: seq<Scored>): (d: seq<Scored>)
    ensures |d| <= |r|
  {
    if r == [] then []
    else
      var n := |r| - 1;
      Distinct(r[..n]) + if Fresh(r, n) then [r[n]] else []
  }

  /** The distinct entries come from the ranking, and no two share a prefix. */
  lemma {:induction false} DistinctFacts(r: seq<Scored>)
    ensures forall x :: x in Distinct(r) ==> x in r
    ensures forall i, j :: 0 <= i < j < |Distinct(r)| ==> Prefix(Distinct(r)[i].point) != Prefix(Distinct(r)[j].point)
  {
    if r != [] {
      var n := |r| - 1;
      var d := Distinct(r[..n]);
      DistinctFacts(r[..n]);
      assert r == r[..n] + [r[n]];
      if Fresh(r, n) {
        forall i | 0 <= i < |d| ensures Prefix(d[i].point) != Prefix(r[n].point) {
          assert d[i] in r[..n];
        }
      }
    }
  }

  /** The prefixes of the first `i` entries. */
  function Prefixes(r: seq<Scored>, i: nat): set<string>
    requires i <= |r|
  {
    if i == 0 then {} else Prefixes(r, i - 1) + {Prefix(r[i - 1].point)}
  }

  lemma {:induction false} PrefixesMembers(r: seq<Scored>, i: nat, text: string)
    requires i <= |r|
    ensures text in Prefixes(r, i) <==> exists q | 0 <= q < i :: Prefix(r[q].point) == text
  {
    if i > 0 {
      PrefixesMembers(r, i - 1, text);
    }
  }

  /** The distinct entries among the first `i`. */
  function DistinctUpTo(r: seq<Scored>, i: nat): seq<Scored>
    requires i <= |r|
  {
    Distinct(r[..i])
  }

  /** What the loop has after `i` entries. */
  ghost predicate Collected(r: seq<Scored>, i: nat, k: int, final: seq<Scored>, seen: set<string>) {
    i <= |r| && final == DistinctUpTo(r, i) && seen == Prefixes(r, i) && (final == [] || |final| <= k)
  }

  lemma CollectedStep(r: seq<Scored>, i: nat, k: int, final: seq<Scored>, seen: set<string>)
    requires Collected(r, i, k, final, seen) && i < |r| && |final| < k
    ensures var text := Prefix(r[i].point);
            if text in seen then Collected(r, i + 1, k, final, seen)
            else Collected(r, i + 1, k, final + [r[i]], seen + {text})
  {
    var text := Prefix(r[i].point);
    DistinctStep(r, i);
    PrefixesMembers(r, i, text);
    assert text in seen ==> seen + {text} == seen;
  }

  /** The phase 4 loop. */
  method Diversify(reranked: seq<Scored>, topK: int) returns (final: seq<Scored>)
    ensures final == Take(Distinct(reranked), topK)
  {
    final := [];
    var seen: set<string> := {};
    var i := 0;
    while i < |reranked| && |final| < topK
      invariant 0 <= i <= |reranked| && Collected(reranked, i, topK, final, seen)
    {
      CollectedStep(reranked, i, topK, final, seen);
      var text := Prefix(reranked[i].point);
      if text !in seen {
        seen := seen + {text};
        final := final + [reranked[i]];
      }
      i := i + 1;
    }
    QuotaReached(reranked, i, topK);
  }

  /** Stopping early is harmless: the entries found are those the whole list would give. */
  lemma QuotaReached(r: seq<Scored>, i: nat, k: int)
    requires i <= |r| && (DistinctUpTo(r, i) == [] || |DistinctUpTo(r, i)| <= k)
    requires i == |r| || |DistinctUpTo(r, i)| >= k
    ensures DistinctUpTo(r, i) == Take(Distinct(r), k)
  {
    if i == |r| {
      assert r[..i] == r;
    } else {
      DistinctGrows(r, i);
    }
  }

  lemma DistinctStep(r: seq<Scored>, p: nat)
    requires p < |r|
    ensures Distinct(r[..p + 1]) == if Fresh(r, p) then Distinct(r[..p]) + [r[p]] else Distinct(r[..p])
  {
    assert r[..p + 1][..p] == r[..p];
    assert forall q :: 0 <= q < p ==> r[..p + 1][q] == r[q];
    assert Fresh(r[..p + 1], p) == Fresh(r, p);
  }

  lemma {:induction false} DistinctGrows(r: seq<Scored>, p: nat)
    requires p <= |r|
    ensures Distinct(r[..p]) <= Distinct(r)
    decreases |r| - p
  {
    if p == |r| {
      assert r[..p] == r;
    } else {
      DistinctStep(r, p);
      DistinctGrows(r, p + 1);
    }
  }

  /** `s` is the point `p` with its phase 3 score. */
  ghost predicate IsScored(s: Scored, p: Point, expanded: seq<string>, definition: bool) {
    s.point == p && IsMatchBoost(s.score - p.score - FixedBoost(p, definition), p, expanded)
  }

  /**
   What the search returns: the first min(top_k, RERANK_TOP_K) entries of the stably
   sorted candidates after removing later repeats of a prefix.
   */
  method Rerank(points: seq<Point>, expanded: seq<string>, definition: bool, topK: int, rerankTopK: nat)
    returns (results: seq<Scored>, scored: seq<Scored>)
    ensures |scored| == |points|
    ensures forall i :: 0 <= i < |points| ==> scored[i].point == points[i] && IsScored(scored[i], points[i], expanded, definition)
    ensures results == Take(Distinct(StableDescending(scored)), Min(topK, rerankTopK))
  {
    scored := [];
    for i := 0 to |points|
      invariant |scored| == i
      invariant forall k :: 0 <= k < i ==> IsScored(scored[k], points[k], expanded, definition)
    {
      var s := FinalScore(points[i], expanded, definition);
      scored := scored + [Scored(s, points[i])];
    }
    var final := Diversify(StableDescending(scored), topK);
    results := Take(final, rerankTopK);
    TakeTwice(Distinct(StableDescending(scored)), topK, rerankTopK);
  }

  lemma TakeTwice<T>(s: seq<T>, a: int, b: int)
    ensures Take(Take(s, a), b) == Take(s, Min(a, b))
  {
  }

  /** A fresh entry that finds room is kept, at the place its rank gives it. */
  lemma {:induction false} KeptWhenRoom(r: seq<Scored>, k: int, p: nat)
    requires p < |r| && Fresh(r, p) && |Distinct(r[..p])| < k
    ensures |Distinct(r[..p])| < |Take(Distinct(r), k)|
    ensures Take(Distinct(r), k)[|Distinct(r[..p])|] == r[p]
  {
    DistinctStep(r, p);
    DistinctGrows(r, p + 1);
    PrefixAt(Distinct(r[..p + 1]), Distinct(r), |Distinct(r[..p])|);
  }

  lemma PrefixAt<T>(d: seq<T>, all: seq<T>, i: nat)
    requires d <= all && i < |d|
    ensures i < |all| && all[i] == d[i]
  {
  }

  lemma TakeOfPrefix<T>(d: seq<T>, all: seq<T>, k: int)
    requires d <= all && |d| >= k
    ensures Take(all, k) == Take(d, k) && |Take(d, k)| == if k < 0 then 0 else k
    ensures forall x :: x in Take(d, k) ==> x in d
  {
  }

  /** Once the quota is filled, every kept entry ranks above entry `p`. */
  lemma KeptRankAbove(r: seq<Scored>, k: int, p: nat)
    requires p < |r| && Descending(r) && |Distinct(r[..p])| >= k
    ensures |Take(Distinct(r), k)| == if k < 0 then 0 else k
    ensures forall x :: x in Take(Distinct(r), k) ==> x.score >= r[p].score
  {
    DistinctGrows(r, p);
    DistinctFacts(r[..p]);
    TakeOfPrefix(Distinct(r[..p]), Distinct(r), k);
    forall x | x in Take(Distinct(r[..p]), k) ensures x.score >= r[p].score {
      var q :| 0 <= q < p && r[..p][q] == x;
      assert r[q] == x;
    }
  }

  /**
   Every omitted candidate repeats a better-ranked prefix, or the quota was already
   filled by entries that rank above it.
   */
  lemma OmittedOnlyForCause(scored: seq<Scored>, k: int, p: nat)
    requires p < |scored|
    ensures var r := StableDescending(scored);
            var out := Take(Distinct(r), k);
            && |r| == |scored|
            && (|| r[p] in out
                || !Fresh(r, p)
                || (|out| == (if k < 0 then 0 else k) && forall x :: x in out ==> x.score >= r[p].score))
  {
    SortIsStable(scored);
    var r := StableDescending(scored);
    if |Distinct(r[..p])| >= k {
      KeptRankAbove(r, k, p);
    } else if Fresh(r, p) {
      KeptWhenRoom(r, k, p);
    }
  }

  // ---------------------------------------------------------------- context

  datatype Hit = Hit(source: string, words: nat)

  datatype Block = Block(number: nat, source: string)

  function WordTotal(hits: seq<Hit>): nat {
    if hits == [] then 0 else WordTotal(hits[..|hits| - 1]) + hits[|hits| - 1].words
  }

  /** The context is the longest prefix of the hits that fits the word budget, numbered from 1. */
  method BuildContext(hits: seq<Hit>, maxWords: int) returns (blocks: seq<Block>)
    ensures |blocks| <= |hits|
    ensures forall i :: 0 <= i < |blocks| ==> blocks[i] == Block(i + 1, hits[i].source)
    ensures forall k :: 1 <= k <= |hits| ==> (k <= |blocks| <==> WordTotal(hits[..k]) <= maxWords)
  {
    blocks := [];
    var total: nat := 0;
    var i := 0;
    while i < |hits|
      invariant 0 <= i == |blocks| <= |hits|
      invariant total == WordTotal(hits[..i])
      invariant forall k :: 0 <= k < i ==> blocks[k] == Block(k + 1, hits[k].source)
      invariant forall k :: 1 <= k <= i ==> WordTotal(hits[..k]) <= maxWords
    {
      var w := hits[i].words;
      assert hits[..i + 1][..i] == hits[..i];
      if total + w > maxWords {
        forall k | i < k <= |hits| ensures WordTotal(hits[..k]) > maxWords {
          WordTotalGrows(hits, i + 1, k);
        }
        break;
      }
      blocks := blocks + [Block(i + 1, hits[i].source)];
      total := total + w;
      i := i + 1;
    }
  }

  lemma {:induction false} WordTotalGrows(hits: seq<Hit>, i: nat, k: nat)
    requires i <= k <= |hits|
    ensures WordTotal(hits[..i]) <= WordTotal(hits[..k])
  {
    if i < k {
      WordTotalGrows(hits, i, k - 1);
      assert hits[..k][..k - 1] == hits[..k - 1];
    }
  }
}
