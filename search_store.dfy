/**
 * `SearchService` of services/search_service.py: picks local or MongoDB
 * storage once, appends screenshot documents with their embedding, ranks
 * them against a query and counts them.
 *
 * The embedding model and cosine similarity are abstract: the service holds
 * them as functions. MongoDB is modelled as the sequence of documents the
 * collection holds; whether a call to it raises is a parameter of the
 * operation that makes the call.
 */
module SearchStore {

  import opened Wrappers
  import Ranking

  type Embedding = seq<real>

  /** The document `store_screenshot` builds. */
  datatype Doc = Doc(
    filename: string,
    imageData: string,
    ocrText: string,
    visualDescription: string,
    combinedText: string,
    embedding: Embedding)

  /** A search result: a copy of a document without 'embedding' and with 'score'. */
  datatype Hit = Hit(
    filename: string,
    imageData: string,
    ocrText: string,
    visualDescription: string,
    combinedText: string,
    score: real)

  /** `EmbeddingService.encode_text` on one string: the embedding rows, or `None` when it raised. */
  type Encoder = string -> Option<seq<Embedding>>

  /**
   * `EmbeddingService.calculate_similarity(query, documents)`: normally one
   * score per document and `[]` when it failed, but nothing is assumed.
   */
  type Scorer = (Embedding, seq<Embedding>) -> seq<real>

  /** Outcome of `pymongo.MongoClient(uri)` and opening the collection: the documents it holds, or an exception. */
  datatype Connection = Connected(existing: seq<Doc>) | ConnectFailed

  /** `os.getenv('MONGODB_URI')` is falsy: unset or empty. */
  predicate UriMissing(mongoUri: Option<string>) {
    mongoUri.None? || mongoUri.value == ""
  }

  /** `encode_text(text)[0]`: `None` when encoding raised or gave no row (an IndexError). */
  function FirstRow(rows: Option<seq<Embedding>>): (row: Option<Embedding>)
    ensures row.Some? <==> rows.Some? && |rows.value| > 0
    ensures row.Some? ==> row.value == rows.value[0]
  {
    match rows
    case None => None
    case Some(rs) => if |rs| == 0 then None else Some(rs[0])
  }

  /** `[doc['embedding'] for doc in docs]`. */
  function Embeddings(docs: seq<Doc>): (es: seq<Embedding>)
    ensures |es| == |docs|
    ensures forall i :: 0 <= i < |docs| ==> es[i] == docs[i].embedding
  {
    if docs == [] then [] else [docs[0].embedding] + Embeddings(docs[1..])
  }

  /** `doc.copy()`, then `doc['score'] = score` and `doc.pop('embedding')`. */
  function ToHit(d: Doc, score: real): (h: Hit)
    ensures h.score == score
    ensures h.filename == d.filename && h.imageData == d.imageData && h.ocrText == d.ocrText
    ensures h.visualDescription == d.visualDescription && h.combinedText == d.combinedText
  {
    Hit(d.filename, d.imageData, d.ocrText, d.visualDescription, d.combinedText, score)
  }

  /**
   * Two hits are equal exactly when their scores are equal and their
   * documents agree on every field except the embedding: the copy keeps all
   * of a document but its embedding.
   */
  lemma ToHitForgetsEmbedding(d1: Doc, s1: real, d2: Doc, s2: real)
    ensures ToHit(d1, s1) == ToHit(d2, s2) <==> s1 == s2 && d1.(embedding := d2.embedding) == d2
  {
  }

  /**
   * The outcome of ranking a non-empty document list: `top` is a valid
   * `argsort(scores)[::-1][:k]`; when every selected index names a document
   * the hits are those documents with their scores, in that order, and
   * otherwise indexing raised and the search gives `[]`.
   */
  predicate Ranks(docs: seq<Doc>, scores: seq<real>, k: int, top: seq<nat>, hits: seq<Hit>) {
    && Ranking.IsTopSelection(scores, k, top)
    && if Ranking.InRange(top, |docs|) then
         && |hits| == |top|
         && forall i :: 0 <= i < |top| ==> hits[i] == ToHit(docs[top[i]], scores[top[i]])
       else
         hits == []
  }

  /** The result-building loop of `_search_local` and `_search_mongodb`; `None` is the IndexError. */
  method CollectHits(docs: seq<Doc>, scores: seq<real>, top: seq<nat>) returns (hits: Option<seq<Hit>>)
    requires Ranking.InRange(top, |scores|)
    ensures hits.Some? <==> Ranking.InRange(top, |docs|)
    ensures hits.Some? ==> |hits.value| == |top|
    ensures hits.Some? ==> forall i :: 0 <= i < |top| ==> hits.value[i] == ToHit(docs[top[i]], scores[top[i]])
  {
    var results: seq<Hit> := [];
    for n := 0 to |top|
      invariant |results| == n
      invariant forall i :: 0 <= i < n ==> top[i] < |docs| && results[i] == ToHit(docs[top[i]], scores[top[i]])
    {
      var idx := top[n];
      if idx >= |docs| {
        return None;
      }
      results := results + [ToHit(docs[idx], scores[idx])];
    }
    return Some(results);
  }

  /**
   * `_search_local` / `_search_mongodb` once the documents are read: no
   * documents give `[]`; otherwise score them, select the top `k` and build
   * the hits.
   */
  method RankDocuments(docs: seq<Doc>, query: Embedding, k: int, similarity: Scorer)
    returns (hits: seq<Hit>, ghost top: seq<nat>)
    ensures docs == [] ==> hits == []
    ensures docs != [] ==> Ranks(docs, similarity(query, Embeddings(docs)), k, top, hits)
  {
    if docs == [] {
      return [], [];
    }
    var scores := similarity(query, Embeddings(docs));
    var selected := Ranking.TopIndices(scores, k);
    top := selected;
    var collected := CollectHits(docs, scores, selected);
    hits := if collected.Some? then collected.value else [];
  }

  class SearchService {
    /** The embedding service's `encode_text`. */
    const encode: Encoder
    /** The embedding service's `calculate_similarity`. */
    const similarity: Scorer
    /** `use_local_storage`: chosen once by the constructor, never changed afterwards. */
    var useLocal: bool
    /** `local_data`: the in-memory documents (only used in local mode). */
    var localData: seq<Doc>
    /** The documents of the MongoDB collection `visual_memory_search.screenshots` (only used otherwise). */
    var collection: seq<Doc>

    /** The documents searches rank and counts count in the current mode. */
    function Stored(): seq<Doc>
      reads this
    {
      if useLocal then localData else collection
    }

    /**
     * `__init__` and `_connect_to_mongodb`: local mode with an empty list when
     * the URI is missing or connecting raised; MongoDB mode otherwise. The
     * vector-index step swallows its own exceptions, so it cannot change the mode.
     */
    constructor (mongoUri: Option<string>, connection: Connection, encode: Encoder, similarity: Scorer)
      ensures this.encode == encode && this.similarity == similarity
      ensures useLocal <==> UriMissing(mongoUri) || connection.ConnectFailed?
      ensures localData == []
      ensures collection == if useLocal then [] else connection.existing
    {
      this.encode := encode;
      this.similarity := similarity;
      localData := [];
      collection := [];
      if UriMissing(mongoUri) {
        useLocal := true;
      } else {
        match connection
        case ConnectFailed =>
          useLocal := true;
        case Connected(existing) =>
          collection := existing;
          useLocal := false;
      }
    }

    /**
     * `store_screenshot`: embed `combinedText` and append one document to the
     * current store. A failed embedding, or a raising `insert_one`
     * (`remoteFault`), is swallowed and stores nothing.
     */
    method StoreScreenshot(filename: string, imageData: string, ocrText: string,
                           visualDescription: string, combinedText: string, remoteFault: bool)
      modifies this`localData, this`collection
      ensures var e := FirstRow(encode(combinedText));
        if e.None? || (!useLocal && remoteFault) then
          Stored() == old(Stored())
        else
          Stored() == old(Stored()) + [Doc(filename, imageData, ocrText, visualDescription, combinedText, e.value)]
      ensures useLocal ==> collection == old(collection)
      ensures !useLocal ==> localData == old(localData)
    {
      var e := FirstRow(encode(combinedText));
      if e.None? {
        return;
      }
      var document := Doc(filename, imageData, ocrText, visualDescription, combinedText, e.value);
      if useLocal {
        localData := localData + [document];
      } else if !remoteFault {
        collection := collection + [document];
      }
    }

    /**
     * `search`: `[]` when the query cannot be embedded or reading the
     * collection raised (`remoteFault`, MongoDB mode only); otherwise the
     * stored documents ranked against the query embedding. The stored
     * documents are not modified.
     */
    method Search(query: string, topK: int, remoteFault: bool) returns (hits: seq<Hit>)
      ensures var q := FirstRow(encode(query));
        if q.None? || (!useLocal && remoteFault) || Stored() == [] then
          hits == []
        else
          exists top :: Ranks(Stored(), similarity(q.value, Embeddings(Stored())), topK, top, hits)
    {
      var q := FirstRow(encode(query));
      if q.None? {
        return [];
      }
      if !useLocal && remoteFault {
        return [];
      }
      var docs := Stored();
      ghost var top;
      hits, top := RankDocuments(docs, q.value, topK, similarity);
    }

    /** `get_total_screenshots`: the number of stored documents; 0 when counting in MongoDB raised. */
    method GetTotalScreenshots(remoteFault: bool) returns (total: nat)
      ensures total == if !useLocal && remoteFault then 0 else |Stored()|
    {
      if useLocal {
        total := |localData|;
      } else if remoteFault {
        total := 0;
      } else {
        total := |collection|;
      }
    }
  }

  // ---------------------------------------------------------------------------
  // Lemmas about ranking outcomes
  // ---------------------------------------------------------------------------

  /**
   * When the similarity step gives one score per document, the hits are
   * `min(k, n)` documents (Python slice length for negative `k`), from distinct
   * documents, by non-increasing score, each carrying its document's score,
   * and no document left out scores higher than the last hit.
   */
  lemma HitsAreTopK(docs: seq<Doc>, scores: seq<real>, k: int, top: seq<nat>, hits: seq<Hit>)
    requires |scores| == |docs|
    requires Ranks(docs, scores, k, top, hits)
    ensures |hits| == Ranking.SliceLen(k, |docs|)
    ensures forall i, j :: 0 <= i < j < |hits| ==> top[i] != top[j]
    ensures forall i, j :: 0 <= i < j < |hits| ==> hits[i].score >= hits[j].score
    ensures forall i :: 0 <= i < |hits| ==> top[i] < |docs| && hits[i] == ToHit(docs[top[i]], scores[top[i]])
    ensures hits != [] ==> forall j :: 0 <= j < |docs| && j !in top ==> scores[j] <= hits[|hits| - 1].score
  {
    assert Ranking.InRange(top, |docs|);
  }

  /** A similarity step that failed (no scores) leaves nothing to return. */
  lemma NoScoresNoHits(docs: seq<Doc>, k: int, top: seq<nat>, hits: seq<Hit>)
    requires Ranks(docs, [], k, top, hits)
    ensures hits == []
  {
    assert top == [];
  }

  /** More scores than documents: a selected index past the documents makes the whole search `[]`. */
  lemma ScoreBeyondDocsGivesNoHits(docs: seq<Doc>, scores: seq<real>, k: int, top: seq<nat>, hits: seq<Hit>)
    requires Ranks(docs, scores, k, top, hits)
    requires exists i :: 0 <= i < |top| && top[i] >= |docs|
    ensures hits == []
  {
  }

  /** With `k` at least the number of documents, every document is returned, each exactly once. */
  lemma LargeKReturnsAll(docs: seq<Doc>, scores: seq<real>, k: int, top: seq<nat>, hits: seq<Hit>)
    requires |scores| == |docs|
    requires k >= |docs|
    requires Ranks(docs, scores, k, top, hits)
    ensures |hits| == |docs| == |top|
    ensures forall j :: 0 <= j < |docs| ==> j in top
    ensures forall i :: 0 <= i < |hits| ==> hits[i] == ToHit(docs[top[i]], scores[top[i]])
  {
    Ranking.FullSelectionCoversAll(scores, k, top);
    assert Ranking.InRange(top, |docs|);
  }

  /**
   * A session without `MONGODB_URI`: the count starts at 0, a search of the
   * empty store gives `[]`, an item whose embedding fails is skipped while
   * the items around it are stored.
   */
  method LocalSessionScenario()
  {
    var encode: Encoder := t => if t == "" then None else Some([[1.0]]);
    var similarity: Scorer := (q, es) => [];
    var service := new SearchService(None, ConnectFailed, encode, similarity);
    var n := service.GetTotalScreenshots(false);
    assert n == 0;
    var hits := service.Search("login", 5, false);
    assert hits == [];
    service.StoreScreenshot("a.png", "", "login", "banner", "login banner", false);
    service.StoreScreenshot("b.png", "", "", "", "", false);
    service.StoreScreenshot("c.png", "", "checkout", "green", "checkout green", false);
    n := service.GetTotalScreenshots(false);
    assert n == 2;
  }
}
