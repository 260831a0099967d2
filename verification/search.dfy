/** Retrieval over the chunk index: reciprocal-rank fusion of the full-text
    and vector result lists, mode dispatch, recency weighting and the unified
    search over chunks and facts. The two underlying searches are inputs:
    their result lists are given, ranked 1, 2, 3, ... in list order. */
module Search {
  import opened Wrappers
  import Sorting

  /** The fusion constant `k` of reciprocal-rank fusion. */
  const RrfK: int := 60
  /** Days over which the recency factor falls linearly from 1 to its floor of 0.5. */
  const RecencyDecayDays: int := 30
  const SecondsPerDay: int := 86400

  datatype SearchResult = SearchResult(
    chunkId: string,
    sourceType: string,
    sourceId: string,
    preview: string,
    score: real,
    ftsRank: Option<int>,
    vectorRank: Option<int>)

  /** An entry of one of the two ranked lists; `lexical` marks the full-text list. */
  datatype Hit = Hit(result: SearchResult, lexical: bool)

  function RankOf(h: Hit): Option<int> {
    if h.lexical then h.result.ftsRank else h.result.vectorRank
  }

  /** Every entry carries the rank of its own list, and `k + rank` is not zero. */
  predicate Fusable(hits: seq<Hit>, k: int) {
    forall i :: 0 <= i < |hits| ==> RankOf(hits[i]).Some? && k + RankOf(hits[i]).value != 0
  }

  function Tag(results: seq<SearchResult>, lexical: bool): (hits: seq<Hit>)
    ensures |hits| == |results|
    ensures forall i :: 0 <= i < |hits| ==> hits[i] == Hit(results[i], lexical)
  {
    seq(|results|, i requires 0 <= i < |results| => Hit(results[i], lexical))
  }

  /** The full-text list followed by the vector list, the order fusion visits them in. */
  function Both(fts: seq<SearchResult>, vec: seq<SearchResult>): seq<Hit> {
    Tag(fts, true) + Tag(vec, false)
  }

  function ChunkIds(results: seq<SearchResult>): (ids: seq<string>)
    ensures |ids| == |results|
    ensures forall i :: 0 <= i < |ids| ==> ids[i] == results[i].chunkId
  {
    seq(|results|, i requires 0 <= i < |results| => results[i].chunkId)
  }

  function HitIds(hits: seq<Hit>): (ids: seq<string>)
    ensures |ids| == |hits|
    ensures forall i :: 0 <= i < |ids| ==> ids[i] == hits[i].result.chunkId
  {
    seq(|hits|, i requires 0 <= i < |hits| => hits[i].result.chunkId)
  }

  function Reciprocal(k: int, rank: int): real
    requires k + rank != 0
  {
    1.0 / ((k + rank) as real)
  }

  /** Sum of `1/(k + rank)` over the entries of `hits` with this chunk id. */
  function Contribution(hits: seq<Hit>, id: string, k: int): real
    requires Fusable(hits, k)
  {
    if |hits| == 0 then 0.0
    else (if hits[0].result.chunkId == id then Reciprocal(k, RankOf(hits[0]).value) else 0.0)
         + Contribution(hits[1..], id, k)
  }

  /** Rank carried by the last entry of the given list kind with this id. */
  function LastRank(hits: seq<Hit>, id: string, lexical: bool): Option<int> {
    if |hits| == 0 then None
    else
      var later := LastRank(hits[1..], id, lexical);
      if later.Some? then later
      else if hits[0].result.chunkId == id && hits[0].lexical == lexical then RankOf(hits[0])
      else None
  }

  /** The first entry with this id. */
  function FirstHit(hits: seq<Hit>, id: string): Option<SearchResult> {
    if |hits| == 0 then None
    else if hits[0].result.chunkId == id then Some(hits[0].result)
    else FirstHit(hits[1..], id)
  }

  /** Position of the first occurrence of `id`, or `|ids|` when absent. */
  function FirstPos(ids: seq<string>, id: string): (p: nat)
    ensures p <= |ids|
    ensures p < |ids| ==> ids[p] == id
    ensures forall i :: 0 <= i < p ==> ids[i] != id
  {
    if |ids| == 0 then 0
    else if ids[0] == id then 0
    else 1 + FirstPos(ids[1..], id)
  }

  /** The document fields of a result: chunk id, source type, source id and preview. */
  type Document = (string, string, string, string)

  function Doc(r: SearchResult): Document {
    (r.chunkId, r.sourceType, r.sourceId, r.preview)
  }

  // ------------------------------------------------------------ the fusion

  function IndexOfId(m: seq<SearchResult>, id: string): (i: int)
    ensures -1 <= i < |m|
    ensures i >= 0 ==> m[i].chunkId == id
    ensures forall j :: 0 <= j < |m| && (i < 0 || j < i) ==> m[j].chunkId != id
  {
    if |m| == 0 then -1
    else if m[0].chunkId == id then 0
    else
      var j := IndexOfId(m[1..], id);
      if j < 0 then -1 else j + 1
  }

  /** The record a first sighting creates: the hit's document, score 0, no ranks. */
  function Fresh(r: SearchResult): SearchResult {
    SearchResult(r.chunkId, r.sourceType, r.sourceId, r.preview, 0.0, None, None)
  }

  /** Record the hit's rank on the entry and add its reciprocal rank to the score. */
  function Bump(e: SearchResult, h: Hit, k: int): SearchResult
    requires RankOf(h).Some? && k + RankOf(h).value != 0
  {
    var add := Reciprocal(k, RankOf(h).value);
    if h.lexical then e.(ftsRank := h.result.ftsRank, score := e.score + add)
    else e.(vectorRank := h.result.vectorRank, score := e.score + add)
  }

  function AddHit(m: seq<SearchResult>, h: Hit, k: int): seq<SearchResult>
    requires RankOf(h).Some? && k + RankOf(h).value != 0
  {
    var i := IndexOfId(m, h.result.chunkId);
    if i < 0 then m + [Bump(Fresh(h.result), h, k)] else m[i := Bump(m[i], h, k)]
  }

  /** Fold the hits into the insertion-ordered table of fused records. */
  function Accumulate(m: seq<SearchResult>, hits: seq<Hit>, k: int): seq<SearchResult>
    requires Fusable(hits, k)
    decreases |hits|
  {
    if |hits| == 0 then m else Accumulate(AddHit(m, hits[0], k), hits[1..], k)
  }

  function NegScore(r: SearchResult): real {
    -r.score
  }

  predicate InResults(r: seq<SearchResult>, id: string) {
    exists i :: 0 <= i < |r| && r[i].chunkId == id
  }

  /** Reciprocal-rank fusion of a full-text and a vector result list. */
  function RrfMerge(fts: seq<SearchResult>, vec: seq<SearchResult>, k: int): (r: seq<SearchResult>)
    requires Fusable(Tag(fts, true), k) && Fusable(Tag(vec, false), k)
    ensures forall i, j :: 0 <= i < j < |r| ==> r[i].chunkId != r[j].chunkId
    ensures forall id :: InResults(r, id) <==> id in ChunkIds(fts) || id in ChunkIds(vec)
    ensures forall i :: 0 <= i < |r| ==>
      r[i].score == Contribution(Tag(fts, true), r[i].chunkId, k)
                    + Contribution(Tag(vec, false), r[i].chunkId, k)
    ensures forall i :: 0 <= i < |r| ==>
      (r[i].ftsRank.Some? <==> r[i].chunkId in ChunkIds(fts))
      && (r[i].vectorRank.Some? <==> r[i].chunkId in ChunkIds(vec))
      && r[i].ftsRank == LastRank(Tag(fts, true), r[i].chunkId, true)
      && r[i].vectorRank == LastRank(Tag(vec, false), r[i].chunkId, false)
    ensures forall i :: 0 <= i < |r| ==>
      FirstHit(Both(fts, vec), r[i].chunkId).Some?
      && Doc(r[i]) == Doc(FirstHit(Both(fts, vec), r[i].chunkId).value)
    ensures forall i, j :: 0 <= i < j < |r| ==> r[i].score >= r[j].score
    ensures forall i, j :: 0 <= i < j < |r| && r[i].score == r[j].score ==>
      FirstPos(ChunkIds(fts) + ChunkIds(vec), r[i].chunkId)
        < FirstPos(ChunkIds(fts) + ChunkIds(vec), r[j].chunkId)
  {
    var hits := Both(fts, vec);
    FusableAppend(Tag(fts, true), Tag(vec, false), k);
    var merged := Accumulate([], hits, k);
    var r := Sorting.SortBy(merged, NegScore);
    MergeOrder(fts, vec, k, merged);
    MergeShape(merged, r, ChunkIds(fts) + ChunkIds(vec));
    RecordsFacts(fts, vec, k, merged, r);
    r
  }

  /** `RecordFacts` for every record of the sorted result. */
  lemma RecordsFacts(fts: seq<SearchResult>, vec: seq<SearchResult>, k: int,
                     merged: seq<SearchResult>, r: seq<SearchResult>)
    requires Fusable(Tag(fts, true), k) && Fusable(Tag(vec, false), k) && Fusable(Both(fts, vec), k)
    requires merged == Accumulate([], Both(fts, vec), k)
    requires forall i :: 0 <= i < |r| ==> EntryIn(merged, r[i].chunkId) == Some(r[i])
    ensures forall i :: 0 <= i < |r| ==>
      r[i].score == Contribution(Tag(fts, true), r[i].chunkId, k)
                    + Contribution(Tag(vec, false), r[i].chunkId, k)
    ensures forall i :: 0 <= i < |r| ==>
      (r[i].ftsRank.Some? <==> r[i].chunkId in ChunkIds(fts))
      && (r[i].vectorRank.Some? <==> r[i].chunkId in ChunkIds(vec))
      && r[i].ftsRank == LastRank(Tag(fts, true), r[i].chunkId, true)
      && r[i].vectorRank == LastRank(Tag(vec, false), r[i].chunkId, false)
    ensures forall i :: 0 <= i < |r| ==>
      FirstHit(Both(fts, vec), r[i].chunkId).Some?
      && Doc(r[i]) == Doc(FirstHit(Both(fts, vec), r[i].chunkId).value)
  {
    forall i | 0 <= i < |r|
      ensures r[i].score == Contribution(Tag(fts, true), r[i].chunkId, k)
                            + Contribution(Tag(vec, false), r[i].chunkId, k)
      ensures (r[i].ftsRank.Some? <==> r[i].chunkId in ChunkIds(fts))
              && (r[i].vectorRank.Some? <==> r[i].chunkId in ChunkIds(vec))
              && r[i].ftsRank == LastRank(Tag(fts, true), r[i].chunkId, true)
              && r[i].vectorRank == LastRank(Tag(vec, false), r[i].chunkId, false)
      ensures FirstHit(Both(fts, vec), r[i].chunkId).Some?
              && Doc(r[i]) == Doc(FirstHit(Both(fts, vec), r[i].chunkId).value)
    {
      RecordFacts(fts, vec, k, merged, r[i]);
    }
  }

  function LexicalHit(id: string, rank: int): SearchResult {
    SearchResult(id, "email", id, "", 0.0, Some(rank), None)
  }

  function SemanticHit(id: string, rank: int): SearchResult {
    SearchResult(id, "email", id, "", 0.0, None, Some(rank))
  }

  function ExampleFts(a: string, b: string, c: string): seq<SearchResult> {
    [LexicalHit(a, 1), LexicalHit(b, 2), LexicalHit(c, 3)]
  }

  function ExampleVec(a: string, b: string, d: string): seq<SearchResult> {
    [SemanticHit(b, 1), SemanticHit(a, 2), SemanticHit(d, 3)]
  }

  predicate Distinct4(a: string, b: string, c: string, d: string) {
    a != b && a != c && a != d && b != c && b != d && c != d
  }

  /** With k = 60, full-text [A, B, C] and vector [B, A, D], for any four
      distinct ids: A and B tie on 1/61 + 1/62 and A, seen first, stays
      ahead; C and D tie on 1/63 and C, seen first, stays ahead. */
  lemma RrfExample(a: string, b: string, c: string, d: string)
    requires Distinct4(a, b, c, d)
    ensures Fusable(Tag(ExampleFts(a, b, c), true), RrfK) && Fusable(Tag(ExampleVec(a, b, d), false), RrfK)
    ensures ChunkIds(RrfMerge(ExampleFts(a, b, c), ExampleVec(a, b, d), RrfK)) == [a, b, c, d]
  {
    var fts := ExampleFts(a, b, c);
    var vec := ExampleVec(a, b, d);
    ExampleScores(a, b, c, d);
    var ids := ChunkIds(fts) + ChunkIds(vec);
    assert ids == [a, b, c, b, a, d];
    ExampleFirstPos(ids, a, b, c, d);
    ExampleMerge(fts, vec, a, b, c, d);
  }

  const TieAB: real := 1.0 / 61.0 + 1.0 / 62.0
  const TieCD: real := 1.0 / 63.0

  /** The fused scores of the example: 1/61 + 1/62 for A and B, 1/63 for C and D. */
  lemma ExampleScores(a: string, b: string, c: string, d: string)
    requires Distinct4(a, b, c, d)
    ensures Fusable(Tag(ExampleFts(a, b, c), true), RrfK) && Fusable(Tag(ExampleVec(a, b, d), false), RrfK)
    ensures ChunkIds(ExampleFts(a, b, c)) == [a, b, c] && ChunkIds(ExampleVec(a, b, d)) == [b, a, d]
    ensures forall id :: id == a || id == b ==>
      Contribution(Tag(ExampleFts(a, b, c), true), id, RrfK)
      + Contribution(Tag(ExampleVec(a, b, d), false), id, RrfK) == TieAB
    ensures forall id :: id == c || id == d ==>
      Contribution(Tag(ExampleFts(a, b, c), true), id, RrfK)
      + Contribution(Tag(ExampleVec(a, b, d), false), id, RrfK) == TieCD
  {
    var f := Tag(ExampleFts(a, b, c), true);
    var v := Tag(ExampleVec(a, b, d), false);
    ExampleTags(a, b, c, d);
    forall id | id == a || id == b || id == c || id == d
      ensures Contribution(f, id, RrfK) + Contribution(v, id, RrfK) == if id == a || id == b then TieAB else TieCD
    {
      ExampleScore(a, b, c, d, id);
    }
  }

  lemma ExampleTags(a: string, b: string, c: string, d: string)
    ensures Tag(ExampleFts(a, b, c), true)
      == [Hit(LexicalHit(a, 1), true), Hit(LexicalHit(b, 2), true), Hit(LexicalHit(c, 3), true)]
    ensures Tag(ExampleVec(a, b, d), false)
      == [Hit(SemanticHit(b, 1), false), Hit(SemanticHit(a, 2), false), Hit(SemanticHit(d, 3), false)]
  {
  }

  lemma ExampleScore(a: string, b: string, c: string, d: string, id: string)
    requires Distinct4(a, b, c, d) && (id == a || id == b || id == c || id == d)
    ensures Fusable(Tag(ExampleFts(a, b, c), true), RrfK) && Fusable(Tag(ExampleVec(a, b, d), false), RrfK)
    ensures Contribution(Tag(ExampleFts(a, b, c), true), id, RrfK)
            + Contribution(Tag(ExampleVec(a, b, d), false), id, RrfK)
            == if id == a || id == b then TieAB else TieCD
  {
    var f := Tag(ExampleFts(a, b, c), true);
    var v := Tag(ExampleVec(a, b, d), false);
    ExampleTags(a, b, c, d);
    Contribution3(f, id, RrfK);
    Contribution3(v, id, RrfK);
  }

  /** The example's order follows from the fused scores and the first-seen positions alone. */
  lemma ExampleMerge(fts: seq<SearchResult>, vec: seq<SearchResult>, a: string, b: string, c: string, d: string)
    requires Distinct4(a, b, c, d)
    requires Fusable(Tag(fts, true), RrfK) && Fusable(Tag(vec, false), RrfK)
    requires ChunkIds(fts) == [a, b, c] && ChunkIds(vec) == [b, a, d]
    requires forall id :: id == a || id == b ==>
      Contribution(Tag(fts, true), id, RrfK) + Contribution(Tag(vec, false), id, RrfK) == TieAB
    requires forall id :: id == c || id == d ==>
      Contribution(Tag(fts, true), id, RrfK) + Contribution(Tag(vec, false), id, RrfK) == TieCD
    requires var ids := ChunkIds(fts) + ChunkIds(vec);
      FirstPos(ids, a) == 0 && FirstPos(ids, b) == 1 && FirstPos(ids, c) == 2 && FirstPos(ids, d) == 5
    ensures ChunkIds(RrfMerge(fts, vec, RrfK)) == [a, b, c, d]
  {
    var r := RrfMerge(fts, vec, RrfK);
    ExampleFromMerge(r, fts, vec, a, b, c, d);
  }

  /** The order of any list with the fused list's guarantees, on the example's inputs. */
  lemma ExampleFromMerge(r: seq<SearchResult>, fts: seq<SearchResult>, vec: seq<SearchResult>,
                         a: string, b: string, c: string, d: string)
    requires Distinct4(a, b, c, d)
    requires Fusable(Tag(fts, true), RrfK) && Fusable(Tag(vec, false), RrfK)
    requires ChunkIds(fts) == [a, b, c] && ChunkIds(vec) == [b, a, d]
    requires forall id :: id == a || id == b ==>
      Contribution(Tag(fts, true), id, RrfK) + Contribution(Tag(vec, false), id, RrfK) == TieAB
    requires forall id :: id == c || id == d ==>
      Contribution(Tag(fts, true), id, RrfK) + Contribution(Tag(vec, false), id, RrfK) == TieCD
    requires var ids := ChunkIds(fts) + ChunkIds(vec);
      FirstPos(ids, a) == 0 && FirstPos(ids, b) == 1 && FirstPos(ids, c) == 2 && FirstPos(ids, d) == 5
    requires forall i, j :: 0 <= i < j < |r| ==> r[i].chunkId != r[j].chunkId
    requires forall id :: InResults(r, id) <==> id in ChunkIds(fts) || id in ChunkIds(vec)
    requires forall i :: 0 <= i < |r| ==>
      r[i].score == Contribution(Tag(fts, true), r[i].chunkId, RrfK)
                    + Contribution(Tag(vec, false), r[i].chunkId, RrfK)
    requires forall i, j :: 0 <= i < j < |r| ==> r[i].score >= r[j].score
    requires forall i, j :: 0 <= i < j < |r| && r[i].score == r[j].score ==>
      FirstPos(ChunkIds(fts) + ChunkIds(vec), r[i].chunkId)
        < FirstPos(ChunkIds(fts) + ChunkIds(vec), r[j].chunkId)
    ensures ChunkIds(r) == [a, b, c, d]
  {
    ExampleMembers(r, ChunkIds(fts), ChunkIds(vec), a, b, c, d);
    TiedScores(r, Tag(fts, true), Tag(vec, false), a, b, c, d);
    ExampleOrder(r, ChunkIds(fts) + ChunkIds(vec), TieAB, TieCD, a, b, c, d);
  }

  /** Entries scored by their contributions carry the example's tie scores. */
  lemma TiedScores(r: seq<SearchResult>, f: seq<Hit>, v: seq<Hit>, a: string, b: string, c: string, d: string)
    requires Fusable(f, RrfK) && Fusable(v, RrfK)
    requires forall i :: 0 <= i < |r| ==>
      r[i].score == Contribution(f, r[i].chunkId, RrfK) + Contribution(v, r[i].chunkId, RrfK)
    requires forall id :: id == a || id == b ==> Contribution(f, id, RrfK) + Contribution(v, id, RrfK) == TieAB
    requires forall id :: id == c || id == d ==> Contribution(f, id, RrfK) + Contribution(v, id, RrfK) == TieCD
    ensures forall i :: 0 <= i < |r| ==>
      ((r[i].chunkId == a || r[i].chunkId == b) ==> r[i].score == TieAB)
      && ((r[i].chunkId == c || r[i].chunkId == d) ==> r[i].score == TieCD)
  {
  }

  /** `FirstPos` is the index of an occurrence with none before it. */
  lemma FirstPosAt(ids: seq<string>, id: string, p: nat)
    requires p < |ids| && ids[p] == id
    requires forall i :: 0 <= i < p ==> ids[i] != id
    ensures FirstPos(ids, id) == p
  {
  }

  /** First-seen positions in the visiting order [A, B, C, B, A, D]. */
  lemma ExampleFirstPos(ids: seq<string>, a: string, b: string, c: string, d: string)
    requires Distinct4(a, b, c, d) && ids == [a, b, c, b, a, d]
    ensures FirstPos(ids, a) == 0 && FirstPos(ids, b) == 1 && FirstPos(ids, c) == 2 && FirstPos(ids, d) == 5
  {
    FirstPosAt(ids, a, 0);
    FirstPosAt(ids, b, 1);
    FirstPosAt(ids, c, 2);
    FirstPosAt(ids, d, 5);
  }

  lemma ExampleMembers(r: seq<SearchResult>, f: seq<string>, v: seq<string>, a: string, b: string, c: string, d: string)
    requires f == [a, b, c] && v == [b, a, d]
    requires forall id :: InResults(r, id) <==> id in f || id in v
    ensures InResults(r, a) && InResults(r, b) && InResults(r, c) && InResults(r, d)
    ensures forall i :: 0 <= i < |r| ==> Among(r[i].chunkId, a, b, c, d)
  {
    assert f[0] == a && f[1] == b && f[2] == c && v[2] == d;
    forall i | 0 <= i < |r|
      ensures Among(r[i].chunkId, a, b, c, d)
    {
      assert InResults(r, r[i].chunkId);
    }
  }

  predicate Among(x: string, a: string, b: string, c: string, d: string) {
    x == a || x == b || x == c || x == d
  }

  /** The contribution of a three-entry list, term by term. */
  lemma Contribution3(hits: seq<Hit>, id: string, k: int)
    requires |hits| == 3 && Fusable(hits, k)
    ensures Contribution(hits, id, k) == Term(hits[0], id, k) + Term(hits[1], id, k) + Term(hits[2], id, k)
  {
    var t1 := hits[1..];
    var t2 := t1[1..];
    assert t2[1..] == [];
    assert Contribution(t2, id, k) == Term(hits[2], id, k) + Contribution(t2[1..], id, k);
    assert Contribution(t1, id, k) == Term(hits[1], id, k) + Contribution(t2, id, k);
  }

  function Term(h: Hit, id: string, k: int): real
    requires RankOf(h).Some? && k + RankOf(h).value != 0
  {
    if h.result.chunkId == id then Reciprocal(k, RankOf(h).value) else 0.0
  }

  /** Distinct ids A, B, C, D, scored and tie-ranked as in the example, can only come in this order. */
  lemma ExampleOrder(r: seq<SearchResult>, ids: seq<string>, ab: real, cd: real,
                     a: string, b: string, c: string, d: string)
    requires Distinct4(a, b, c, d) && cd < ab
    requires forall i, j :: 0 <= i < j < |r| ==> r[i].chunkId != r[j].chunkId
    requires InResults(r, a) && InResults(r, b) && InResults(r, c) && InResults(r, d)
    requires forall i :: 0 <= i < |r| ==> Among(r[i].chunkId, a, b, c, d)
    requires forall i :: 0 <= i < |r| ==>
      ((r[i].chunkId == a || r[i].chunkId == b) ==> r[i].score == ab)
      && ((r[i].chunkId == c || r[i].chunkId == d) ==> r[i].score == cd)
    requires forall i, j :: 0 <= i < j < |r| ==> r[i].score >= r[j].score
    requires forall i, j :: 0 <= i < j < |r| && r[i].score == r[j].score ==>
      FirstPos(ids, r[i].chunkId) < FirstPos(ids, r[j].chunkId)
    requires FirstPos(ids, a) == 0 && FirstPos(ids, b) == 1 && FirstPos(ids, c) == 2 && FirstPos(ids, d) == 5
    ensures ChunkIds(r) == [a, b, c, d]
  {
    var ia :| 0 <= ia < |r| && r[ia].chunkId == a;
    var ib :| 0 <= ib < |r| && r[ib].chunkId == b;
    var ic :| 0 <= ic < |r| && r[ic].chunkId == c;
    var id :| 0 <= id < |r| && r[id].chunkId == d;
    ExampleRelativeOrder(r, ids, ia, ib, ic, id, ab, cd);
    ExamplePositions(r, ia, ib, ic, id, a, b, c, d);
  }

  lemma ExampleRelativeOrder(r: seq<SearchResult>, ids: seq<string>, ia: nat, ib: nat, ic: nat, id: nat, ab: real, cd: real)
    requires cd < ab
    requires ia < |r| && ib < |r| && ic < |r| && id < |r|
    requires ia != ib && ic != id
    requires r[ia].score == ab && r[ib].score == ab && r[ic].score == cd && r[id].score == cd
    requires forall i, j :: 0 <= i < j < |r| ==> r[i].score >= r[j].score
    requires forall i, j :: 0 <= i < j < |r| && r[i].score == r[j].score ==>
      FirstPos(ids, r[i].chunkId) < FirstPos(ids, r[j].chunkId)
    requires FirstPos(ids, r[ia].chunkId) == 0 && FirstPos(ids, r[ib].chunkId) == 1
    requires FirstPos(ids, r[ic].chunkId) == 2 && FirstPos(ids, r[id].chunkId) == 5
    ensures ia < ib < ic < id
  {
    assert ia < ic && ib < ic;
    assert ia < ib && ic < id;
  }

  lemma ExamplePositions(r: seq<SearchResult>, ia: nat, ib: nat, ic: nat, id: nat,
                         a: string, b: string, c: string, d: string)
    requires forall i, j :: 0 <= i < j < |r| ==> r[i].chunkId != r[j].chunkId
    requires forall i :: 0 <= i < |r| ==> Among(r[i].chunkId, a, b, c, d)
    requires ia < ib < ic < id < |r|
    requires r[ia].chunkId == a && r[ib].chunkId == b && r[ic].chunkId == c && r[id].chunkId == d
    ensures ChunkIds(r) == [a, b, c, d]
  {
    assert ia == 0 && ib == 1 && ic == 2 && id == 3 by {
      SamePositions(r, 0, ia, ib, ic, id, a, b, c, d);
      SamePositions(r, 1, ia, ib, ic, id, a, b, c, d);
      SamePositions(r, 2, ia, ib, ic, id, a, b, c, d);
      SamePositions(r, 3, ia, ib, ic, id, a, b, c, d);
    }
    assert |r| == 4 by {
      if |r| > 4 {
        SamePositions(r, 4, ia, ib, ic, id, a, b, c, d);
      }
    }
  }

  /** An index holding one of the four ids is that id's position. */
  lemma SamePositions(r: seq<SearchResult>, e: nat, ia: nat, ib: nat, ic: nat, id: nat,
                      a: string, b: string, c: string, d: string)
    requires forall i, j :: 0 <= i < j < |r| ==> r[i].chunkId != r[j].chunkId
    requires e < |r| && ia < |r| && ib < |r| && ic < |r| && id < |r|
    requires r[ia].chunkId == a && r[ib].chunkId == b && r[ic].chunkId == c && r[id].chunkId == d
    requires Among(r[e].chunkId, a, b, c, d)
    ensures e == ia || e == ib || e == ic || e == id
  {
    if r[e].chunkId == a {
      assert e == ia;
    } else if r[e].chunkId == b {
      assert e == ib;
    } else if r[e].chunkId == c {
      assert e == ic;
    } else {
      assert e == id;
    }
  }

  // ------------------------------------------------- proof of the fusion

  lemma FusableAppend(a: seq<Hit>, b: seq<Hit>, k: int)
    requires Fusable(a, k) && Fusable(b, k)
    ensures Fusable(a + b, k)
  {
  }

  function EntryIn(m: seq<SearchResult>, id: string): Option<SearchResult> {
    var i := IndexOfId(m, id);
    if i >= 0 then Some(m[i]) else None
  }

  function Base(e: Option<SearchResult>, r: SearchResult): SearchResult {
    if e.Some? then e.value else Fresh(r)
  }

  lemma {:induction false} IndexOfIdSnoc(m: seq<SearchResult>, x: SearchResult, id: string)
    ensures IndexOfId(m + [x], id)
         == if IndexOfId(m, id) >= 0 then IndexOfId(m, id) else if x.chunkId == id then |m| else -1
    decreases |m|
  {
    if |m| > 0 {
      assert (m + [x])[1..] == m[1..] + [x];
      IndexOfIdSnoc(m[1..], x, id);
    }
  }

  lemma {:induction false} IndexOfIdUpdate(m: seq<SearchResult>, i: nat, v: SearchResult, id: string)
    requires i < |m| && v.chunkId == m[i].chunkId
    ensures IndexOfId(m[i := v], id) == IndexOfId(m, id)
    decreases |m|
  {
    if i > 0 {
      assert m[i := v][1..] == m[1..][i - 1 := v];
      IndexOfIdUpdate(m[1..], i - 1, v, id);
    }
  }

  lemma AddHitEntry(m: seq<SearchResult>, h: Hit, k: int, id: string)
    requires RankOf(h).Some? && k + RankOf(h).value != 0
    ensures EntryIn(AddHit(m, h, k), id)
         == if h.result.chunkId == id then Some(Bump(Base(EntryIn(m, id), h.result), h, k))
            else EntryIn(m, id)
  {
    var i := IndexOfId(m, h.result.chunkId);
    var m' := AddHit(m, h, k);
    if i < 0 {
      IndexOfIdSnoc(m, Bump(Fresh(h.result), h, k), id);
    } else {
      IndexOfIdUpdate(m, i, Bump(m[i], h, k), id);
    }
  }

  function ScoreOf(e: Option<SearchResult>): real {
    if e.Some? then e.value.score else 0.0
  }

  function FtsOf(e: Option<SearchResult>): Option<int> {
    if e.Some? then e.value.ftsRank else None
  }

  function VecOf(e: Option<SearchResult>): Option<int> {
    if e.Some? then e.value.vectorRank else None
  }

  function DocOf(e: Option<SearchResult>): Option<Document> {
    if e.Some? then Some(Doc(e.value)) else None
  }

  function FirstDoc(hits: seq<Hit>, id: string): Option<Document> {
    DocOf(FirstHit(hits, id))
  }

  lemma HitIdsCons(hits: seq<Hit>)
    requires |hits| > 0
    ensures HitIds(hits) == [hits[0].result.chunkId] + HitIds(hits[1..])
  {
  }

  lemma {:induction false} AccumulatePresence(m: seq<SearchResult>, hits: seq<Hit>, k: int, id: string)
    requires Fusable(hits, k)
    ensures EntryIn(Accumulate(m, hits, k), id).Some? <==> EntryIn(m, id).Some? || id in HitIds(hits)
    decreases |hits|
  {
    if |hits| > 0 {
      AddHitEntry(m, hits[0], k, id);
      AccumulatePresence(AddHit(m, hits[0], k), hits[1..], k, id);
      HitIdsCons(hits);
    }
  }

  lemma {:induction false} AccumulateScore(m: seq<SearchResult>, hits: seq<Hit>, k: int, id: string)
    requires Fusable(hits, k)
    ensures ScoreOf(EntryIn(Accumulate(m, hits, k), id)) == ScoreOf(EntryIn(m, id)) + Contribution(hits, id, k)
    decreases |hits|
  {
    if |hits| > 0 {
      AddHitEntry(m, hits[0], k, id);
      AccumulateScore(AddHit(m, hits[0], k), hits[1..], k, id);
    }
  }

  lemma {:induction false} AccumulateRanks(m: seq<SearchResult>, hits: seq<Hit>, k: int, id: string)
    requires Fusable(hits, k)
    ensures FtsOf(EntryIn(Accumulate(m, hits, k), id))
         == if LastRank(hits, id, true).Some? then LastRank(hits, id, true) else FtsOf(EntryIn(m, id))
    ensures VecOf(EntryIn(Accumulate(m, hits, k), id))
         == if LastRank(hits, id, false).Some? then LastRank(hits, id, false) else VecOf(EntryIn(m, id))
    decreases |hits|
  {
    if |hits| > 0 {
      AddHitEntry(m, hits[0], k, id);
      AccumulateRanks(AddHit(m, hits[0], k), hits[1..], k, id);
    }
  }

  lemma {:induction false} AccumulateDoc(m: seq<SearchResult>, hits: seq<Hit>, k: int, id: string)
    requires Fusable(hits, k)
    ensures DocOf(EntryIn(Accumulate(m, hits, k), id))
         == if EntryIn(m, id).Some? then DocOf(EntryIn(m, id)) else FirstDoc(hits, id)
    decreases |hits|
  {
    if |hits| > 0 {
      AddHitEntry(m, hits[0], k, id);
      AccumulateDoc(AddHit(m, hits[0], k), hits[1..], k, id);
    }
  }

  /** Every table entry's id has been seen. */
  predicate SeenIds(m: seq<SearchResult>, seen: seq<string>) {
    forall i :: 0 <= i < |m| ==> FirstPos(seen, m[i].chunkId) < |seen|
  }

  /** Table entries are in order of first sighting (so their ids are distinct). */
  predicate FirstSeenOrder(m: seq<SearchResult>, seen: seq<string>) {
    forall i, j :: 0 <= i < j < |m| ==> FirstPos(seen, m[i].chunkId) < FirstPos(seen, m[j].chunkId)
  }

  /** Every seen id has a table entry. */
  predicate Covered(m: seq<SearchResult>, seen: seq<string>) {
    forall p :: 0 <= p < |seen| ==> IndexOfId(m, seen[p]) >= 0
  }

  predicate OrderInv(m: seq<SearchResult>, seen: seq<string>) {
    SeenIds(m, seen) && FirstSeenOrder(m, seen) && Covered(m, seen)
  }

  lemma {:induction false} FirstPosAppend(seen: seq<string>, x: string, id: string)
    ensures FirstPos(seen + [x], id)
         == if FirstPos(seen, id) < |seen| then FirstPos(seen, id)
            else if id == x then |seen| else |seen| + 1
    decreases |seen|
  {
    if |seen| > 0 {
      assert (seen + [x])[1..] == seen[1..] + [x];
      FirstPosAppend(seen[1..], x, id);
    }
  }

  lemma AddHitOrderNew(m: seq<SearchResult>, h: Hit, k: int, seen: seq<string>)
    requires RankOf(h).Some? && k + RankOf(h).value != 0
    requires OrderInv(m, seen)
    requires IndexOfId(m, h.result.chunkId) < 0
    ensures OrderInv(AddHit(m, h, k), seen + [h.result.chunkId])
  {
    var x := h.result.chunkId;
    var seen' := seen + [x];
    var e := Bump(Fresh(h.result), h, k);
    var m' := m + [e];
    assert AddHit(m, h, k) == m';
    assert e.chunkId == x;
    assert FirstPos(seen, x) == |seen|;
    FirstPosAppend(seen, x, x);
    forall i | 0 <= i < |m|
      ensures FirstPos(seen', m[i].chunkId) == FirstPos(seen, m[i].chunkId) < |seen|
    {
      FirstPosAppend(seen, x, m[i].chunkId);
    }
    assert SeenIds(m', seen') by {
      forall i | 0 <= i < |m'|
        ensures FirstPos(seen', m'[i].chunkId) < |seen'|
      {
        if i < |m| {
          assert m'[i] == m[i];
        }
      }
    }
    assert FirstSeenOrder(m', seen') by {
      forall i, j | 0 <= i < j < |m'|
        ensures FirstPos(seen', m'[i].chunkId) < FirstPos(seen', m'[j].chunkId)
      {
        assert m'[i] == m[i];
        if j < |m| {
          assert m'[j] == m[j];
        }
      }
    }
    assert Covered(m', seen') by {
      forall p | 0 <= p < |seen'|
        ensures IndexOfId(m', seen'[p]) >= 0
      {
        IndexOfIdSnoc(m, e, seen'[p]);
        if p < |seen| {
          assert seen'[p] == seen[p];
        }
      }
    }
  }

  lemma AddHitOrderOld(m: seq<SearchResult>, h: Hit, k: int, seen: seq<string>)
    requires RankOf(h).Some? && k + RankOf(h).value != 0
    requires OrderInv(m, seen)
    requires IndexOfId(m, h.result.chunkId) >= 0
    ensures OrderInv(AddHit(m, h, k), seen + [h.result.chunkId])
  {
    var x := h.result.chunkId;
    var seen' := seen + [x];
    var i0 := IndexOfId(m, x);
    var m' := m[i0 := Bump(m[i0], h, k)];
    assert AddHit(m, h, k) == m';
    forall i | 0 <= i < |m'|
      ensures m'[i].chunkId == m[i].chunkId
      ensures FirstPos(seen', m'[i].chunkId) == FirstPos(seen, m[i].chunkId) < |seen|
    {
      FirstPosAppend(seen, x, m[i].chunkId);
    }
    forall p | 0 <= p < |seen'|
      ensures IndexOfId(m', seen'[p]) >= 0
    {
      IndexOfIdUpdate(m, i0, Bump(m[i0], h, k), seen'[p]);
      if p < |seen| {
        assert seen'[p] == seen[p];
      }
    }
  }

  lemma {:induction false} AccumulateOrder(m: seq<SearchResult>, hits: seq<Hit>, k: int, seen: seq<string>)
    requires Fusable(hits, k)
    requires OrderInv(m, seen)
    ensures OrderInv(Accumulate(m, hits, k), seen + HitIds(hits))
    decreases |hits|
  {
    if |hits| == 0 {
      assert seen + HitIds(hits) == seen;
    } else {
      var h := hits[0];
      var seen' := seen + [h.result.chunkId];
      HitIdsCons(hits);
      assert seen' + HitIds(hits[1..]) == seen + HitIds(hits);
      if IndexOfId(m, h.result.chunkId) < 0 {
        AddHitOrderNew(m, h, k, seen);
      } else {
        AddHitOrderOld(m, h, k, seen);
      }
      AccumulateOrder(AddHit(m, h, k), hits[1..], k, seen');
    }
  }

  lemma {:induction false} ContributionAppend(a: seq<Hit>, b: seq<Hit>, id: string, k: int)
    requires Fusable(a, k) && Fusable(b, k)
    ensures Fusable(a + b, k)
    ensures Contribution(a + b, id, k) == Contribution(a, id, k) + Contribution(b, id, k)
    decreases |a|
  {
    if |a| > 0 {
      assert (a + b)[1..] == a[1..] + b;
      ContributionAppend(a[1..], b, id, k);
    } else {
      assert a + b == b;
    }
  }

  lemma {:induction false} LastRankAppend(a: seq<Hit>, b: seq<Hit>, id: string, lexical: bool)
    ensures LastRank(a + b, id, lexical)
         == if LastRank(b, id, lexical).Some? then LastRank(b, id, lexical) else LastRank(a, id, lexical)
    decreases |a|
  {
    if |a| > 0 {
      assert (a + b)[1..] == a[1..] + b;
      LastRankAppend(a[1..], b, id, lexical);
    } else {
      assert a + b == b;
    }
  }

  lemma {:induction false} LastRankOtherKind(results: seq<SearchResult>, id: string, lexical: bool)
    ensures LastRank(Tag(results, lexical), id, !lexical) == None
    decreases |results|
  {
    if |results| > 0 {
      assert Tag(results, lexical)[1..] == Tag(results[1..], lexical);
      LastRankOtherKind(results[1..], id, lexical);
    }
  }

  /** Under `Fusable`, the last rank exists exactly when the id occurs. */
  lemma {:induction false} LastRankPresent(results: seq<SearchResult>, id: string, lexical: bool, k: int)
    requires Fusable(Tag(results, lexical), k)
    ensures LastRank(Tag(results, lexical), id, lexical).Some? <==> id in ChunkIds(results)
    decreases |results|
  {
    if |results| > 0 {
      assert Tag(results, lexical)[1..] == Tag(results[1..], lexical);
      assert ChunkIds(results) == [results[0].chunkId] + ChunkIds(results[1..]);
      LastRankPresent(results[1..], id, lexical, k);
    }
  }

  lemma MergeOrder(fts: seq<SearchResult>, vec: seq<SearchResult>, k: int, merged: seq<SearchResult>)
    requires Fusable(Both(fts, vec), k)
    requires merged == Accumulate([], Both(fts, vec), k)
    ensures OrderInv(merged, ChunkIds(fts) + ChunkIds(vec))
  {
    var all := ChunkIds(fts) + ChunkIds(vec);
    assert HitIds(Both(fts, vec)) == all;
    AccumulateOrder([], Both(fts, vec), k, []);
    assert [] + HitIds(Both(fts, vec)) == all;
  }

  lemma MergeShape(merged: seq<SearchResult>, r: seq<SearchResult>, all: seq<string>)
    requires OrderInv(merged, all)
    requires r == Sorting.SortBy(merged, NegScore)
    ensures forall i, j :: 0 <= i < j < |r| ==> r[i].chunkId != r[j].chunkId
    ensures forall id :: InResults(r, id) <==> id in all
    ensures forall i, j :: 0 <= i < j < |r| ==> r[i].score >= r[j].score
    ensures forall i, j :: 0 <= i < j < |r| && r[i].score == r[j].score ==>
      FirstPos(all, r[i].chunkId) < FirstPos(all, r[j].chunkId)
    ensures forall i :: 0 <= i < |r| ==> EntryIn(merged, r[i].chunkId) == Some(r[i])
  {
    var rank := (x: SearchResult) => FirstPos(all, x.chunkId) as int;
    assert Sorting.RankIncreasing(merged, rank);
    Sorting.SortByTiesRanked(merged, NegScore, rank);
    Sorting.DistinctLabelsPermute(r, merged, (x: SearchResult) => x.chunkId);
    forall id
      ensures InResults(r, id) <==> id in all
    {
      MergedPresence(merged, r, all, id);
    }
    forall i | 0 <= i < |r|
      ensures EntryIn(merged, r[i].chunkId) == Some(r[i])
    {
      MergedEntry(merged, r, all, i);
    }
  }

  lemma RecordFacts(fts: seq<SearchResult>, vec: seq<SearchResult>, k: int,
                    merged: seq<SearchResult>, x: SearchResult)
    requires Fusable(Tag(fts, true), k) && Fusable(Tag(vec, false), k) && Fusable(Both(fts, vec), k)
    requires merged == Accumulate([], Both(fts, vec), k)
    requires EntryIn(merged, x.chunkId) == Some(x)
    ensures x.score == Contribution(Tag(fts, true), x.chunkId, k) + Contribution(Tag(vec, false), x.chunkId, k)
    ensures (x.ftsRank.Some? <==> x.chunkId in ChunkIds(fts))
            && (x.vectorRank.Some? <==> x.chunkId in ChunkIds(vec))
            && x.ftsRank == LastRank(Tag(fts, true), x.chunkId, true)
            && x.vectorRank == LastRank(Tag(vec, false), x.chunkId, false)
    ensures FirstHit(Both(fts, vec), x.chunkId).Some?
            && Doc(x) == Doc(FirstHit(Both(fts, vec), x.chunkId).value)
  {
    var id := x.chunkId;
    var hits := Both(fts, vec);
    AccumulateScore([], hits, k, id);
    AccumulateRanks([], hits, k, id);
    AccumulateDoc([], hits, k, id);
    ContributionAppend(Tag(fts, true), Tag(vec, false), id, k);
    LastRankAppend(Tag(fts, true), Tag(vec, false), id, true);
    LastRankAppend(Tag(fts, true), Tag(vec, false), id, false);
    LastRankOtherKind(vec, id, false);
    LastRankOtherKind(fts, id, true);
    LastRankPresent(fts, id, true, k);
    LastRankPresent(vec, id, false, k);
  }

  /** A sorted record is the table's entry for its id. */
  lemma MergedEntry(merged: seq<SearchResult>, r: seq<SearchResult>, all: seq<string>, i: nat)
    requires OrderInv(merged, all) && multiset(r) == multiset(merged) && i < |r|
    ensures EntryIn(merged, r[i].chunkId) == Some(r[i])
  {
    assert r[i] in multiset(merged);
    var j :| 0 <= j < |merged| && merged[j] == r[i];
    assert IndexOfId(merged, r[i].chunkId) == j;
  }

  lemma MergedPresence(merged: seq<SearchResult>, r: seq<SearchResult>, all: seq<string>, id: string)
    requires OrderInv(merged, all) && multiset(r) == multiset(merged)
    ensures InResults(r, id) <==> id in all
  {
    if InResults(r, id) {
      var i :| 0 <= i < |r| && r[i].chunkId == id;
      assert r[i] in multiset(merged);
      var j :| 0 <= j < |merged| && merged[j] == r[i];
      assert FirstPos(all, id) < |all|;
    }
    if id in all {
      var p :| 0 <= p < |all| && all[p] == id;
      var j := IndexOfId(merged, all[p]);
      assert merged[j] in multiset(r);
      var i :| 0 <= i < |r| && r[i] == merged[j];
      assert r[i].chunkId == id;
    }
  }
}
