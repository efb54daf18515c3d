/** The retrieval coordinator of `backend/rag_engine.py`: the reranking
    selection of `RAGEngine._rerank_results` and the grounding-context string
    that `RAGEngine.stream_answer` assembles from the selected documents.

    The vector store, the FlashRank reranker and the language model are not
    part of this model: the documents the retriever returned and the scored
    passages the reranker returned are inputs. Relevance scores are integers;
    only their order matters. */
module RagEngine {
  import opened Text
  import opened Seqs
  import opened Documents

  /** Number of passages `stream_answer` keeps after reranking (`top_n=3`). */
  const FinalTopN: nat := 3

  /** A passage as handed to the reranker: `{"id": str(i), "text": ..., "meta": ...}`. */
  datatype Passage = Passage(id: string, text: string, meta: Metadata)

  /** A reranker result: a passage together with the relevance score the
      reranker attached to it. */
  datatype ScoredPassage = ScoredPassage(passage: Passage, score: int)

  // ---------------------------------------------------------------------------
  // Passages handed to the reranker
  // ---------------------------------------------------------------------------

  function IndexedPassage(docs: seq<Document>, i: nat): Passage
    requires i < |docs|
  {
    Passage(NatToString(i), docs[i].pageContent, docs[i].metadata)
  }

  function PassageDocument(p: Passage): Document {
    Document(p.text, p.meta)
  }

  /** The passage list of `_rerank_results`: one passage per retrieved
      document, in retrieval order, whose id is the document's position. */
  function Passages(docs: seq<Document>): (ps: seq<Passage>)
    ensures |ps| == |docs|
    ensures forall i :: 0 <= i < |ps| ==> PassageDocument(ps[i]) == docs[i]
    ensures forall i :: 0 <= i < |ps| ==> AllDigits(ps[i].id) && DecimalValue(ps[i].id) == i
  {
    var ps := seq(|docs|, i requires 0 <= i < |docs| => IndexedPassage(docs, i));
    assert forall i :: 0 <= i < |ps| ==> DecimalValue(ps[i].id) == i by {
      forall i | 0 <= i < |ps| ensures DecimalValue(ps[i].id) == i {
        DecimalValueOfNatToString(i);
      }
    }
    ps
  }

  /** Passages built from the same retrieval never share an id, so the
      reranker can tell them apart even when two documents are equal. */
  lemma PassageIdsDistinct(docs: seq<Document>, i: nat, j: nat)
    requires i < j < |docs|
    ensures Passages(docs)[i].id != Passages(docs)[j].id
  {
    var ps := Passages(docs);
    assert DecimalValue(ps[i].id) == i && DecimalValue(ps[j].id) == j;
  }

  function ResultPassage(r: ScoredPassage): Passage {
    r.passage
  }

  /** `Document(page_content=res['text'], metadata=res['meta'])`. */
  function ResultDocument(r: ScoredPassage): Document {
    PassageDocument(r.passage)
  }

  /** What the reranker is relied on to do: return every passage it was given,
      each exactly once and unchanged, with a score attached, in any order. */
  predicate RerankerContract(docs: seq<Document>, results: seq<ScoredPassage>) {
    multiset(Map(ResultPassage, results)) == multiset(Passages(docs))
  }

  // ---------------------------------------------------------------------------
  // sorted(results, key=score, reverse=True)
  // ---------------------------------------------------------------------------

  predicate SortedByScoreDesc(rs: seq<ScoredPassage>) {
    forall i, j :: 0 <= i < j < |rs| ==> rs[i].score >= rs[j].score
  }

  /** Inserts `x` in front of the first element that does not outscore it. */
  function InsertByScore(x: ScoredPassage, rs: seq<ScoredPassage>): (out: seq<ScoredPassage>)
    ensures multiset(out) == multiset(rs) + multiset{x}
    ensures |out| == |rs| + 1
    ensures out[0] == x || (rs != [] && out[0] == rs[0])
  {
    if rs == [] || rs[0].score <= x.score then [x] + rs
    else
      assert rs == [rs[0]] + rs[1..];
      [rs[0]] + InsertByScore(x, rs[1..])
  }

  lemma SortedCons(h: ScoredPassage, t: seq<ScoredPassage>)
    requires SortedByScoreDesc(t)
    requires t != [] ==> t[0].score <= h.score
    ensures SortedByScoreDesc([h] + t)
  {
    var out := [h] + t;
    forall i, j | 0 <= i < j < |out| ensures out[i].score >= out[j].score {
      if i == 0 {
        assert out[j] == t[j - 1];
      } else {
        assert out[i] == t[i - 1] && out[j] == t[j - 1];
      }
    }
  }

  /** Inserting into a sorted sequence keeps it sorted. */
  lemma {:induction false} InsertByScoreSorted(x: ScoredPassage, rs: seq<ScoredPassage>)
    requires SortedByScoreDesc(rs)
    ensures SortedByScoreDesc(InsertByScore(x, rs))
  {
    if rs == [] || rs[0].score <= x.score {
      SortedCons(x, rs);
    } else {
      var rest := rs[1..];
      assert SortedByScoreDesc(rest) by {
        forall i, j | 0 <= i < j < |rest| ensures rest[i].score >= rest[j].score {
          assert rest[i] == rs[i + 1] && rest[j] == rs[j + 1];
        }
      }
      InsertByScoreSorted(x, rest);
      var tail := InsertByScore(x, rest);
      assert rest != [] ==> rest[0] == rs[1];
      SortedCons(rs[0], tail);
    }
  }

  /** Python's `sorted(results, key=lambda x: x['score'], reverse=True)`:
      non-increasing scores, a permutation of the input. */
  function SortByScoreDesc(rs: seq<ScoredPassage>): (sorted: seq<ScoredPassage>)
    ensures multiset(sorted) == multiset(rs)
    ensures |sorted| == |rs|
    ensures SortedByScoreDesc(sorted)
  {
    if rs == [] then []
    else
      assert rs == [rs[0]] + rs[1..];
      var rest := SortByScoreDesc(rs[1..]);
      InsertByScoreSorted(rs[0], rest);
      InsertByScore(rs[0], rest)
  }

  /** The results scored exactly `k`, in the order they occur. */
  function WithScore(rs: seq<ScoredPassage>, k: int): seq<ScoredPassage>
  {
    if rs == [] then []
    else (if rs[0].score == k then [rs[0]] else []) + WithScore(rs[1..], k)
  }

  lemma {:induction false} WithScoreAppend(a: seq<ScoredPassage>, b: seq<ScoredPassage>, k: int)
    ensures WithScore(a + b, k) == WithScore(a, k) + WithScore(b, k)
  {
    if a != [] {
      assert (a + b)[0] == a[0];
      assert (a + b)[1..] == a[1..] + b;
      WithScoreAppend(a[1..], b, k);
    } else {
      assert a + b == b;
    }
  }

  lemma WithScoreSingle(y: ScoredPassage, k: int)
    ensures WithScore([y], k) == if y.score == k then [y] else []
  {
    assert [y][1..] == [];
  }

  /** Insertion moves `x` only past results that outscore it, so it keeps its
      place among the results of its own score. */
  lemma {:induction false} InsertByScoreStable(x: ScoredPassage, rs: seq<ScoredPassage>, k: int)
    ensures WithScore(InsertByScore(x, rs), k) == WithScore([x], k) + WithScore(rs, k)
  {
    if rs == [] || rs[0].score <= x.score {
      WithScoreAppend([x], rs, k);
    } else {
      var tail := InsertByScore(x, rs[1..]);
      var later := WithScore(rs[1..], k);
      assert InsertByScore(x, rs) == [rs[0]] + tail;
      assert WithScore(tail, k) == WithScore([x], k) + later by {
        InsertByScoreStable(x, rs[1..], k);
      }
      WithScoreAppend([rs[0]], tail, k);
      assert WithScore(rs, k) == WithScore([rs[0]], k) + later by {
        assert rs == [rs[0]] + rs[1..];
        WithScoreAppend([rs[0]], rs[1..], k);
      }
      // x scores lower than rs[0], so at most one of the two has score k
      WithScoreSingle(x, k);
      WithScoreSingle(rs[0], k);
      SwapEmpty(WithScore([rs[0]], k), WithScore([x], k), later);
    }
  }

  lemma SwapEmpty<T>(a: seq<T>, b: seq<T>, rest: seq<T>)
    requires a == [] || b == []
    ensures a + (b + rest) == b + (a + rest)
  {
    if a == [] {
      assert a + (b + rest) == b + rest == b + (a + rest);
    } else {
      assert a + (b + rest) == a + rest == b + (a + rest);
    }
  }

  /** The sort is stable: among the results with any one score, the sorted
      order is the order the reranker returned them in. */
  lemma {:induction false} SortByScoreDescStable(rs: seq<ScoredPassage>, k: int)
    ensures WithScore(SortByScoreDesc(rs), k) == WithScore(rs, k)
  {
    if rs != [] {
      var rest := SortByScoreDesc(rs[1..]);
      SortByScoreDescStable(rs[1..], k);
      InsertByScoreStable(rs[0], rest, k);
      assert WithScore([rs[0]], k) == if rs[0].score == k then [rs[0]] else [];
    }
  }

  // ---------------------------------------------------------------------------
  // [:top_n]
  // ---------------------------------------------------------------------------

  function Min(a: int, b: int): int { if a <= b then a else b }
  function Max(a: int, b: int): int { if a >= b then a else b }

  /** Python's slice `s[:n]`: the first `n` elements when `n >= 0`, all but the
      last `-n` elements when `n < 0`, never more than the whole sequence. */
  function SliceTo<T>(s: seq<T>, n: int): (r: seq<T>)
    ensures n >= 0 ==> |r| == Min(n, |s|)
    ensures n < 0 ==> |r| == Max(0, |s| + n)
    ensures |r| <= |s| && r == s[..|r|]
  {
    if n >= 0 then s[..Min(n, |s|)] else s[..Max(0, |s| + n)]
  }

  /** `sorted(results, key=score, reverse=True)[:top_n]`. */
  function Select(results: seq<ScoredPassage>, topN: int): (sel: seq<ScoredPassage>)
    ensures topN >= 0 ==> |sel| == Min(topN, |results|)
    ensures SortedByScoreDesc(sel)
    ensures multiset(sel) <= multiset(results)
  {
    var sorted := SortByScoreDesc(results);
    var sel := SliceTo(sorted, topN);
    assert sorted == sel + sorted[|sel|..];
    sel
  }

  /** Results with equal scores are kept in reranker order: the selected
      results of any one score are the first ones of that score. */
  lemma SelectStable(results: seq<ScoredPassage>, topN: int, k: int)
    ensures WithScore(Select(results, topN), k) <= WithScore(results, k)
  {
    var sorted := SortByScoreDesc(results);
    var sel := Select(results, topN);
    assert sorted == sel + sorted[|sel|..];
    WithScoreAppend(sel, sorted[|sel|..], k);
    SortByScoreDescStable(results, k);
  }

  /** No result left out scores higher than any result kept. */
  lemma SelectKeepsBest(results: seq<ScoredPassage>, topN: int, dropped: ScoredPassage, kept: ScoredPassage)
    requires dropped in multiset(results) - multiset(Select(results, topN))
    requires kept in Select(results, topN)
    ensures dropped.score <= kept.score
  {
    var sorted := SortByScoreDesc(results);
    var sel := Select(results, topN);
    var m := |sel|;
    var j := DroppedComesLater(sorted, m, dropped) by {
      assert sel == sorted[..m];
    }
    var i :| 0 <= i < m && sel[i] == kept;
    assert sorted[i] == kept;
  }

  /** What the prefix `sorted[..m]` misses lies at or after index `m`. */
  lemma DroppedComesLater(sorted: seq<ScoredPassage>, m: nat, dropped: ScoredPassage) returns (j: nat)
    requires m <= |sorted|
    requires dropped in multiset(sorted) - multiset(sorted[..m])
    ensures m <= j < |sorted| && sorted[j] == dropped
  {
    assert sorted == sorted[..m] + sorted[m..];
    assert multiset(sorted) - multiset(sorted[..m]) == multiset(sorted[m..]);
    assert dropped in sorted[m..];
    var k :| 0 <= k < |sorted[m..]| && sorted[m..][k] == dropped;
    j := m + k;
  }

  // ---------------------------------------------------------------------------
  // RAGEngine._rerank_results
  // ---------------------------------------------------------------------------

  /** The documents `_rerank_results` returns, as a function of its inputs. */
  function Rerank(docs: seq<Document>, results: seq<ScoredPassage>, topN: int): (reranked: seq<Document>)
    ensures topN >= 0 ==> |reranked| == Min(topN, |results|)
    ensures multiset(reranked) <= multiset(Map(ResultDocument, results))
  {
    var sel := Select(results, topN);
    MapMultisetSubset(ResultDocument, sel, results);
    Map(ResultDocument, sel)
  }

  /** Nothing is invented or altered: every returned document is one of the
      retrieved documents, and none is returned more often than it was
      retrieved. */
  lemma RerankFromRetrieved(docs: seq<Document>, results: seq<ScoredPassage>, topN: int)
    requires RerankerContract(docs, results)
    ensures multiset(Rerank(docs, results, topN)) <= multiset(docs)
  {
    var sel := Select(results, topN);
    MapMultisetSubset(ResultDocument, sel, results);
    var ps := Map(ResultPassage, results);
    assert Map(ResultDocument, results) == Map(PassageDocument, ps);
    MapMultisetEqual(PassageDocument, ps, Passages(docs));
    assert Map(PassageDocument, Passages(docs)) == docs;
  }

  /** With one result per retrieved document, `min(top_n, len(docs))`
      documents come back. */
  lemma RerankLength(docs: seq<Document>, results: seq<ScoredPassage>, topN: int)
    requires RerankerContract(docs, results)
    requires topN >= 0
    ensures |Rerank(docs, results, topN)| == Min(topN, |docs|)
  {
    assert |multiset(Map(ResultPassage, results))| == |multiset(Passages(docs))|;
  }

  /** `RAGEngine._rerank_results`: sorts the reranker's results, keeps the
      first `top_n`, and builds one document per kept result with an append
      loop. */
  method RerankResults(initialDocs: seq<Document>, results: seq<ScoredPassage>, topN: int)
    returns (finalDocs: seq<Document>)
    ensures finalDocs == Rerank(initialDocs, results, topN)
    ensures RerankerContract(initialDocs, results) ==> multiset(finalDocs) <= multiset(initialDocs)
    ensures RerankerContract(initialDocs, results) && topN >= 0 ==> |finalDocs| == Min(topN, |initialDocs|)
  {
    var sortedResults := Select(results, topN);
    finalDocs := [];
    for i := 0 to |sortedResults|
      invariant finalDocs == Map(ResultDocument, sortedResults[..i])
    {
      var res := sortedResults[i];
      var doc := Document(res.passage.text, res.passage.meta);
      finalDocs := finalDocs + [doc];
    }
    assert sortedResults[..|sortedResults|] == sortedResults;
    if RerankerContract(initialDocs, results) {
      RerankFromRetrieved(initialDocs, results, topN);
      if topN >= 0 {
        RerankLength(initialDocs, results, topN);
      }
    }
  }

  // ---------------------------------------------------------------------------
  // Context assembly in RAGEngine.stream_answer
  // ---------------------------------------------------------------------------

  const ContextSeparator: string := "\n\n"

  /** Python's `str(v)` of a metadata value. */
  function RenderValue(v: MetaValue): string {
    match v
    case IntValue(i) => IntToString(i)
    case TextValue(s) => s
  }

  /** `d.metadata.get('page', '?')`, rendered. */
  function PageLabel(meta: Metadata): (shown: string)
    ensures "page" !in meta ==> shown == "?"
    ensures "page" in meta && meta["page"].IntValue? && meta["page"].i >= 0 ==>
              shown == NatToString(meta["page"].i)
  {
    if "page" in meta then RenderValue(meta["page"]) else "?"
  }

  /** One grounding entry: `f"[Page {page}] {page_content}"`. */
  function ContextEntry(d: Document): (entry: string)
    ensures |entry| >= 8 + |d.pageContent| && entry[..6] == "[Page "
    ensures entry[|entry| - |d.pageContent| - 2..] == "] " + d.pageContent
  {
    "[Page " + PageLabel(d.metadata) + "] " + d.pageContent
  }

  /** The grounding context: the entries of the selected documents, in order,
      separated by a blank line. */
  function ContextText(docs: seq<Document>): (text: string)
    ensures docs == [] ==> text == ""
    ensures |docs| == 1 ==> text == ContextEntry(docs[0])
  {
    Join(ContextSeparator, Map(ContextEntry, docs))
  }

  /** The context of a longer selection is the context of its first part, a
      blank line, and the context of the rest: entries are neither reordered
      nor merged. */
  lemma ContextTextSplit(docs: seq<Document>, i: nat)
    requires 0 < i < |docs|
    ensures ContextText(docs) == ContextText(docs[..i]) + ContextSeparator + ContextText(docs[i..])
  {
    var entries := Map(ContextEntry, docs);
    JoinSplit(ContextSeparator, entries, i);
    assert entries[..i] == Map(ContextEntry, docs[..i]);
    assert entries[i..] == Map(ContextEntry, docs[i..]);
  }

  /** Appending one more selected document appends a blank line and its entry. */
  lemma ContextTextAppend(docs: seq<Document>, d: Document)
    requires docs != []
    ensures ContextText(docs + [d]) == ContextText(docs) + ContextSeparator + ContextEntry(d)
  {
    ContextTextSplit(docs + [d], |docs|);
    assert (docs + [d])[..|docs|] == docs;
    assert (docs + [d])[|docs|..] == [d];
  }

  /** The context is exactly as long as its entries plus one separator between
      each pair of them. */
  lemma ContextTextLength(docs: seq<Document>)
    requires docs != []
    ensures |ContextText(docs)| == TotalLength(Map(ContextEntry, docs)) + 2 * (|docs| - 1)
  {
    JoinLength(ContextSeparator, Map(ContextEntry, docs));
  }

  /** The context `stream_answer` hands to the prompt for the documents the
      retriever returned and the reranker's scores for them. */
  function AnswerContext(initialDocs: seq<Document>, results: seq<ScoredPassage>): string
  {
    ContextText(Rerank(initialDocs, results, FinalTopN))
  }

  /** `stream_answer` grounds the answer on at most three retrieved documents,
      and on exactly as many as were retrieved when there are fewer. */
  lemma AnswerContextEntries(initialDocs: seq<Document>, results: seq<ScoredPassage>)
    requires RerankerContract(initialDocs, results)
    ensures |Rerank(initialDocs, results, FinalTopN)| == Min(3, |initialDocs|)
    ensures initialDocs == [] ==> AnswerContext(initialDocs, results) == ""
  {
    RerankLength(initialDocs, results, FinalTopN);
  }

  /** With a single kept result, the context is that result's entry alone;
      when one result outscores all others, that result is the one kept. */
  lemma SingleBestContext(docs: seq<Document>, results: seq<ScoredPassage>, best: ScoredPassage)
    requires best in results
    requires forall r :: r in results && r != best ==> r.score < best.score
    ensures ContextText(Rerank(docs, results, 1)) == ContextEntry(ResultDocument(best))
  {
    var sorted := SortByScoreDesc(results);
    assert best in multiset(sorted);
    var j :| 0 <= j < |sorted| && sorted[j] == best;
    assert sorted[0].score >= best.score;
    assert sorted[0] in multiset(results);
    assert Select(results, 1) == [best];
  }
}
