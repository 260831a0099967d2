/** Mode dispatch over the two chunk searches, recency weighting and the
    unified search that mixes chunk results with fact results. The full-text
    and vector searches are parameters: given a fetch size they return their
    ranked lists. The fact search result, the clock and the date found for a
    chunk (from its e-mail row, its attachment's e-mail row or its metadata)
    are parameters too. */
module UnifiedRetrieval {
  import opened Wrappers
  import Sorting
  import opened Search

  // ------------------------------------------------------- mode dispatch

  /** `hybrid_search`: "fts" and "vector" return that search's list for
      `limit`; "hybrid" fetches twice as many from each, fuses them and keeps
      the first `limit`; any other mode is an error. */
  function HybridSearch(mode: string, limit: nat,
                        fts: nat -> seq<SearchResult>, vec: nat -> seq<SearchResult>)
    : (r: Result<seq<SearchResult>>)
    requires mode == "hybrid" ==>
      Fusable(Tag(fts(limit * 2), true), RrfK) && Fusable(Tag(vec(limit * 2), false), RrfK)
    ensures r.Failure? <==> mode != "fts" && mode != "vector" && mode != "hybrid"
    ensures mode == "fts" ==> r == Success(fts(limit))
    ensures mode == "vector" ==> r == Success(vec(limit))
    ensures mode == "hybrid" ==> r == Success(HybridMerge(fts(limit * 2), vec(limit * 2), limit))
  {
    if mode == "fts" then Success(fts(limit))
    else if mode == "vector" then Success(vec(limit))
    else if mode == "hybrid" then Success(HybridMerge(fts(limit * 2), vec(limit * 2), limit))
    else Failure("Unknown search mode: " + mode)
  }

  /** The hybrid branch: the fused list cut to `limit`. */
  function HybridMerge(fts: seq<SearchResult>, vec: seq<SearchResult>, limit: nat): (r: seq<SearchResult>)
    requires Fusable(Tag(fts, true), RrfK) && Fusable(Tag(vec, false), RrfK)
    ensures |r| <= limit && |r| <= |RrfMerge(fts, vec, RrfK)|
    ensures r == RrfMerge(fts, vec, RrfK)[..|r|]
    ensures forall i, j :: 0 <= i < j < |r| ==> r[i].score >= r[j].score
  {
    Sorting.Take(RrfMerge(fts, vec, RrfK), limit)
  }

  /** In hybrid mode the result holds the best-scoring fused chunks: a fused
      chunk that was cut scores no higher than any chunk that was kept. */
  lemma HybridKeepsBest(limit: nat, fts: nat -> seq<SearchResult>, vec: nat -> seq<SearchResult>)
    requires Fusable(Tag(fts(limit * 2), true), RrfK) && Fusable(Tag(vec(limit * 2), false), RrfK)
    ensures var all := RrfMerge(fts(limit * 2), vec(limit * 2), RrfK);
      var kept := HybridMerge(fts(limit * 2), vec(limit * 2), limit);
      |kept| == (if limit < |all| then limit else |all|)
      && forall i, j :: 0 <= i < |kept| <= j < |all| ==> all[j].score <= kept[i].score
  {
  }

  // ----------------------------------------------------------- recency

  /** Whole days from `date` to `now`, both in seconds, rounded down as
      Python's `timedelta.days` does (negative for a date in the future). */
  function DaysAgo(now: int, date: int): (d: int)
    ensures d * SecondsPerDay <= now - date < (d + 1) * SecondsPerDay
  {
    (now - date) / SecondsPerDay
  }

  /** `max(0.5, 1 - days / (2 * decay))`. */
  function RecencyFactor(days: int, decay: int): (f: real)
    requires decay != 0
    ensures f >= 0.5
    ensures decay > 0 && days >= 0 ==> f <= 1.0
    ensures decay > 0 && days >= decay ==> f == 0.5
    ensures decay > 0 && days <= decay ==> f == 1.0 - (days as real) / ((2 * decay) as real)
  {
    var span := (decay * 2) as real;
    var q := (days as real) / span;
    assert decay > 0 && days >= decay ==> q >= 0.5 by {
      if decay > 0 && days >= decay { DivAtLeast(days as real, span); }
    }
    assert decay > 0 && days <= decay ==> q <= 0.5 by {
      if decay > 0 && days <= decay { DivAtMost(days as real, span); }
    }
    var raw := 1.0 - q;
    if raw < 0.5 then 0.5 else raw
  }

  lemma DivAtLeast(a: real, c: real)
    requires c > 0.0 && a >= 0.5 * c
    ensures a / c >= 0.5
  {
    assert a / c * c == a;
  }

  lemma DivAtMost(a: real, c: real)
    requires c > 0.0 && a <= 0.5 * c
    ensures a / c <= 0.5
  {
    assert a / c * c == a;
  }

  /** A unified result: a chunk or a fact, with the date used for recency
      (None when there is none or it does not parse). */
  datatype Unified = Unified(
    id: string,
    resultType: string,
    sourceId: string,
    preview: string,
    score: real,
    date: Option<int>)

  /** The weighted copy of one result; a missing date, or a zero decay
      (whose division error the source swallows), leaves it unchanged. */
  function Weigh(u: Unified, now: int, decay: int): (w: Unified)
    ensures w.(score := u.score) == u
    ensures u.date.None? || decay == 0 ==> w == u
    ensures decay != 0 && u.date.Some? ==>
      w.score == u.score * RecencyFactor(DaysAgo(now, u.date.value), decay)
  {
    if u.date.Some? && decay != 0 then
      u.(score := u.score * RecencyFactor(DaysAgo(now, u.date.value), decay))
    else u
  }

  /** `w` is `u` weighted for recency over `decay` days: only the score may
      differ; it is scaled by the recency factor when `u` is dated and the
      decay is not zero, and kept otherwise. */
  predicate WeightedFrom(w: Unified, u: Unified, now: int, decay: int) {
    w.(score := u.score) == u
    && (u.date.Some? && decay != 0 ==> w.score == u.score * RecencyFactor(DaysAgo(now, u.date.value), decay))
    && (u.date.None? || decay == 0 ==> w.score == u.score)
  }

  /** `_apply_recency_weight`. */
  function ApplyRecency(results: seq<Unified>, now: int, decay: int): (r: seq<Unified>)
    ensures |r| == |results|
    ensures forall i :: 0 <= i < |r| ==> WeightedFrom(r[i], results[i], now, decay)
  {
    seq(|results|, i requires 0 <= i < |results| => Weigh(results[i], now, decay))
  }

  /** A non-negative score is never cut below half, and with a positive decay
      and a past date it never grows. */
  lemma RecencyBounds(u: Unified, now: int, decay: int)
    requires u.score >= 0.0
    ensures Weigh(u, now, decay).score >= u.score / 2.0
    ensures decay > 0 && (u.date.Some? ==> u.date.value <= now) ==> Weigh(u, now, decay).score <= u.score
  {
    if u.date.Some? && decay != 0 {
      var f := RecencyFactor(DaysAgo(now, u.date.value), decay);
      assert u.score * f >= u.score * 0.5;
      if decay > 0 && u.date.value <= now {
        assert u.score * f <= u.score * 1.0;
      }
    }
  }

  // ----------------------------------------------------- unified search

  /** Virtual e-mails are grouped with e-mails for filtering. */
  function Grouped(sourceType: string): string {
    if sourceType == "virtual_email" then "email" else sourceType
  }

  /** The chunk filter: no list, or an empty one, admits every chunk. */
  predicate Admits(sourceTypes: Option<seq<string>>, sourceType: string) {
    sourceTypes.None? || |sourceTypes.value| == 0 || Grouped(sourceType) in sourceTypes.value
  }

  /** Facts are searched only when asked for and not filtered out; unlike the
      chunk filter, an empty list excludes them. */
  predicate FactsWanted(includeFacts: bool, sourceTypes: Option<seq<string>>) {
    includeFacts && (sourceTypes.None? || "fact" in sourceTypes.value)
  }

  function ToUnified(c: SearchResult, dateOf: SearchResult -> Option<int>): Unified {
    Unified(c.chunkId, c.sourceType, c.sourceId, c.preview, c.score, dateOf(c))
  }

  /** The admitted chunks, in order, as unified results. */
  function ChunkCandidates(chunks: seq<SearchResult>, sourceTypes: Option<seq<string>>,
                           dateOf: SearchResult -> Option<int>): (r: seq<Unified>)
    ensures |r| <= |chunks|
  {
    if |chunks| == 0 then []
    else
      (if Admits(sourceTypes, chunks[0].sourceType) then [ToUnified(chunks[0], dateOf)] else [])
      + ChunkCandidates(chunks[1..], sourceTypes, dateOf)
  }

  /** Filtering keeps exactly the admitted chunks: each kept result comes from
      an admitted chunk, and each admitted chunk is kept. */
  lemma {:induction false} ChunkFilter(chunks: seq<SearchResult>, sourceTypes: Option<seq<string>>,
                                       dateOf: SearchResult -> Option<int>)
    ensures forall u :: u in ChunkCandidates(chunks, sourceTypes, dateOf) ==>
      exists c :: c in chunks && Admits(sourceTypes, c.sourceType) && u == ToUnified(c, dateOf)
    ensures forall c :: c in chunks && Admits(sourceTypes, c.sourceType) ==>
      ToUnified(c, dateOf) in ChunkCandidates(chunks, sourceTypes, dateOf)
    decreases |chunks|
  {
    if |chunks| > 0 {
      ChunkFilter(chunks[1..], sourceTypes, dateOf);
      assert chunks == [chunks[0]] + chunks[1..];
    }
  }

  /** A weighting is determined by what it is weighted from. */
  lemma WeightedIsWeigh(w: Unified, u: Unified, now: int, decay: int)
    requires WeightedFrom(w, u, now, decay)
    ensures w == Weigh(u, now, decay)
  {
    assert w == w.(score := u.score).(score := w.score);
  }

  /** `u` as the candidate list holds it: weighted when recency is on. */
  function AsCandidate(u: Unified, recency: bool, now: int): (w: Unified)
    ensures recency ==> WeightedFrom(w, u, now, RecencyDecayDays)
    ensures !recency ==> w == u
  {
    if recency then Weigh(u, now, RecencyDecayDays) else u
  }

  /** `r` lists the candidates: first the admitted chunks, each one present
      and nothing else, then the facts in order when they are wanted. */
  predicate CandidateList(r: seq<Unified>, chunks: seq<SearchResult>, facts: seq<Unified>,
                          sourceTypes: Option<seq<string>>, includeFacts: bool, recency: bool, now: int,
                          dateOf: SearchResult -> Option<int>) {
    var n := |r| - (if FactsWanted(includeFacts, sourceTypes) then |facts| else 0);
    0 <= n <= |chunks|
    && (forall i :: n <= i < |r| ==> r[i] == AsCandidate(facts[i - n], recency, now))
    && (forall u :: u in r[..n] ==>
          exists c :: c in chunks && Admits(sourceTypes, c.sourceType) && u == AsCandidate(ToUnified(c, dateOf), recency, now))
    && (forall c :: c in chunks && Admits(sourceTypes, c.sourceType) ==>
          AsCandidate(ToUnified(c, dateOf), recency, now) in r[..n])
  }

  /** Everything that competes for a place: the admitted chunks first, then
      the facts, in order, when they are wanted; each weighted for recency
      when that is on. */
  function Candidates(chunks: seq<SearchResult>, facts: seq<Unified>, sourceTypes: Option<seq<string>>,
                      includeFacts: bool, recency: bool, now: int,
                      dateOf: SearchResult -> Option<int>): (r: seq<Unified>)
    ensures CandidateList(r, chunks, facts, sourceTypes, includeFacts, recency, now, dateOf)
  {
    var cs := ChunkCandidates(chunks, sourceTypes, dateOf);
    var tail := if FactsWanted(includeFacts, sourceTypes) then facts else [];
    var pre := cs + tail;
    var r := if recency then ApplyRecency(pre, now, RecencyDecayDays) else pre;
    forall i | 0 <= i < |r|
      ensures r[i] == AsCandidate(pre[i], recency, now)
    {
      if recency {
        WeightedIsWeigh(r[i], pre[i], now, RecencyDecayDays);
      }
    }
    Halves(pre, cs, tail, r, recency, now);
    CandidatesFrom(chunks, facts, sourceTypes, includeFacts, recency, now, dateOf, cs, r);
    r
  }

  lemma Halves(pre: seq<Unified>, cs: seq<Unified>, tail: seq<Unified>, r: seq<Unified>, recency: bool, now: int)
    requires pre == cs + tail && |r| == |pre|
    requires forall i :: 0 <= i < |r| ==> r[i] == AsCandidate(pre[i], recency, now)
    ensures forall i :: 0 <= i < |cs| ==> r[..|cs|][i] == AsCandidate(cs[i], recency, now)
    ensures forall i :: |cs| <= i < |r| ==> r[i] == AsCandidate(tail[i - |cs|], recency, now)
  {
    forall i | 0 <= i < |cs|
      ensures r[..|cs|][i] == AsCandidate(cs[i], recency, now)
    {
      assert pre[i] == cs[i];
    }
    forall i | |cs| <= i < |r|
      ensures r[i] == AsCandidate(tail[i - |cs|], recency, now)
    {
      assert pre[i] == tail[i - |cs|];
    }
  }

  lemma CandidatesFrom(chunks: seq<SearchResult>, facts: seq<Unified>, sourceTypes: Option<seq<string>>,
                       includeFacts: bool, recency: bool, now: int, dateOf: SearchResult -> Option<int>,
                       cs: seq<Unified>, r: seq<Unified>)
    requires cs == ChunkCandidates(chunks, sourceTypes, dateOf)
    requires |r| == |cs| + (if FactsWanted(includeFacts, sourceTypes) then |facts| else 0)
    requires forall i :: 0 <= i < |cs| ==> r[..|cs|][i] == AsCandidate(cs[i], recency, now)
    requires FactsWanted(includeFacts, sourceTypes) ==>
      forall i :: |cs| <= i < |r| ==> r[i] == AsCandidate(facts[i - |cs|], recency, now)
    ensures CandidateList(r, chunks, facts, sourceTypes, includeFacts, recency, now, dateOf)
  {
    ChunksScored(chunks, sourceTypes, recency, now, dateOf, cs, r[..|cs|]);
  }

  /** The chunk part: an entry for each admitted chunk and nothing else. */
  lemma ChunksScored(chunks: seq<SearchResult>, sourceTypes: Option<seq<string>>, recency: bool, now: int,
                     dateOf: SearchResult -> Option<int>, cs: seq<Unified>, r: seq<Unified>)
    requires cs == ChunkCandidates(chunks, sourceTypes, dateOf)
    requires |r| == |cs| && forall i :: 0 <= i < |r| ==> r[i] == AsCandidate(cs[i], recency, now)
    ensures |r| <= |chunks|
    ensures forall u :: u in r ==>
      exists c :: c in chunks && Admits(sourceTypes, c.sourceType) && u == AsCandidate(ToUnified(c, dateOf), recency, now)
    ensures forall c :: c in chunks && Admits(sourceTypes, c.sourceType) ==>
      AsCandidate(ToUnified(c, dateOf), recency, now) in r
  {
    ChunkFilter(chunks, sourceTypes, dateOf);
    forall u | u in r
      ensures exists c :: c in chunks && Admits(sourceTypes, c.sourceType) && u == AsCandidate(ToUnified(c, dateOf), recency, now)
    {
      var i :| 0 <= i < |r| && r[i] == u;
      assert cs[i] in cs;
      var c :| c in chunks && Admits(sourceTypes, c.sourceType) && cs[i] == ToUnified(c, dateOf);
    }
    forall c | c in chunks && Admits(sourceTypes, c.sourceType)
      ensures AsCandidate(ToUnified(c, dateOf), recency, now) in r
    {
      var i :| 0 <= i < |cs| && cs[i] == ToUnified(c, dateOf);
      assert r[i] == AsCandidate(ToUnified(c, dateOf), recency, now);
    }
  }

  function NegUnifiedScore(u: Unified): real {
    -u.score
  }

  /** `unified_search`: chunks from `hybrid_search` at twice the limit,
      filtered, plus facts, weighted, sorted by descending score (stably) and
      cut to `limit`. An unknown mode is the error `hybrid_search` raises. */
  function UnifiedSearch(mode: string, limit: nat, sourceTypes: Option<seq<string>>,
                  includeFacts: bool, recency: bool, now: int,
                  fts: nat -> seq<SearchResult>, vec: nat -> seq<SearchResult>,
                  facts: seq<Unified>, dateOf: SearchResult -> Option<int>)
    : (r: Result<seq<Unified>>)
    requires mode == "hybrid" ==>
      Fusable(Tag(fts(limit * 4), true), RrfK) && Fusable(Tag(vec(limit * 4), false), RrfK)
    ensures r.Failure? <==> HybridSearch(mode, limit * 2, fts, vec).Failure?
    ensures r.Success? ==>
      IsTopK(Candidates(HybridSearch(mode, limit * 2, fts, vec).value, facts, sourceTypes,
                        includeFacts, recency, now, dateOf), limit, r.value)
  {
    var chunks := HybridSearch(mode, limit * 2, fts, vec);
    if chunks.Failure? then Failure(chunks.error)
    else
      var all := Candidates(chunks.value, facts, sourceTypes, includeFacts, recency, now, dateOf);
      TopKOf(all, limit);
      Success(Sorting.Take(Sorting.SortBy(all, NegUnifiedScore), limit))
  }

  /** `r` is `limit` of the candidates (all of them when fewer), drawn from
      them, best first, and no candidate left out scores above one kept. */
  predicate IsTopK(all: seq<Unified>, limit: nat, r: seq<Unified>) {
    |r| == (if limit < |all| then limit else |all|)
    && multiset(r) <= multiset(all)
    && (forall i, j :: 0 <= i < j < |r| ==> r[i].score >= r[j].score)
    && (forall u :: u in all && u !in r ==> forall i :: 0 <= i < |r| ==> u.score <= r[i].score)
  }

  /** The first `limit` of the candidates sorted by descending score are the top `limit`. */
  lemma TopKOf(all: seq<Unified>, limit: nat)
    ensures IsTopK(all, limit, Sorting.Take(Sorting.SortBy(all, NegUnifiedScore), limit))
  {
    TopK(all, Sorting.SortBy(all, NegUnifiedScore), limit);
  }

  lemma TopK(all: seq<Unified>, sorted: seq<Unified>, limit: nat)
    requires multiset(sorted) == multiset(all) && Sorting.SortedBy(sorted, NegUnifiedScore)
    ensures var r := Sorting.Take(sorted, limit);
      multiset(r) <= multiset(all)
      && (forall i, j :: 0 <= i < j < |r| ==> r[i].score >= r[j].score)
      && (forall u :: u in all && u !in r ==> forall i :: 0 <= i < |r| ==> u.score <= r[i].score)
  {
    var r := Sorting.Take(sorted, limit);
    assert sorted == r + sorted[|r|..];
    assert multiset(sorted) == multiset(r) + multiset(sorted[|r|..]);
    forall u | u in all && u !in r
      ensures forall i :: 0 <= i < |r| ==> u.score <= r[i].score
    {
      assert u in multiset(sorted);
      var p :| 0 <= p < |sorted| && sorted[p] == u;
    }
  }

  /** A virtual e-mail chunk passes exactly the filters an e-mail chunk passes. */
  lemma VirtualEmailFiltersAsEmail(sourceTypes: Option<seq<string>>)
    ensures Admits(sourceTypes, "virtual_email") <==> Admits(sourceTypes, "email")
  {
  }

  /** An empty type list keeps every chunk but drops the facts. */
  lemma EmptyTypeList(includeFacts: bool, t: string)
    ensures Admits(Some([]), t) && !FactsWanted(includeFacts, Some([]))
  {
  }
}
