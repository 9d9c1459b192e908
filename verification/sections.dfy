/**
 * The `document_sections` table and the `match_document_sections` query.
 * Cosine distance over float vectors is replaced by an abstract similarity
 * score `sim(embedding, query)`; the query orders by ascending distance, which
 * is descending similarity since similarity = 1 - distance.
 */
module Sections {
  import opened Wrappers
  import opened Ordering

  /** An embedding vector. */
  type Vector = seq<real>

  /** Dimension of the `embedding vector(3072)` column. */
  const EmbeddingDim: nat := 3072

  /** A row of `document_sections`; `id` stands for the generated uuid key. */
  datatype Section = Section(id: nat, fileHash: string, content: string, embedding: Vector)

  /** A row returned by the query: `(id, content, similarity)`. */
  datatype Match = Match(id: nat, content: string, similarity: real)

  /** Python truthiness of an embedding result: neither `None` nor an empty list. */
  predicate Embedded(v: Option<Vector>) {
    v.Some? && |v.value| > 0
  }

  /** Table shape: primary-key ids, and every embedding of the declared dimension. */
  ghost predicate WellFormed(table: seq<Section>) {
    && (forall i :: 0 <= i < |table| ==> |table[i].embedding| == EmbeddingDim)
    && (forall i, j :: 0 <= i < j < |table| ==> table[i].id != table[j].id)
  }

  /** The rows of document `filter` whose similarity to `query` is strictly above `threshold`. */
  function Qualifying(table: seq<Section>, filter: string, query: Vector, threshold: real,
                      sim: (Vector, Vector) -> real): (r: seq<Section>)
    ensures forall s :: s in r <==> s in table && s.fileHash == filter && sim(s.embedding, query) > threshold
    ensures multiset(r) <= multiset(table)
  {
    if table == [] then []
    else
      var rest := Qualifying(table[1..], filter, query, threshold, sim);
      assert table == [table[0]] + table[1..];
      var s := table[0];
      if s.fileHash == filter && sim(s.embedding, query) > threshold then [s] + rest else rest
  }

  function MatchOf(s: Section, query: Vector, sim: (Vector, Vector) -> real): Match {
    Match(s.id, s.content, sim(s.embedding, query))
  }

  /** The projection applied to every returned row. */
  function MatchFn(query: Vector, sim: (Vector, Vector) -> real): Section -> Match {
    s => MatchOf(s, query, sim)
  }

  /** The qualifying rows kept by `ORDER BY distance LIMIT count`, before projection. */
  function Ranked(table: seq<Section>, query: Vector, threshold: real, count: nat,
                  filter: string, sim: (Vector, Vector) -> real): (r: seq<Section>)
    ensures |r| == Min(count, |Qualifying(table, filter, query, threshold, sim)|)
    ensures forall s :: s in r ==> s in table && s.fileHash == filter && sim(s.embedding, query) > threshold
    ensures forall i, j :: 0 <= i < j < |r| ==> sim(r[i].embedding, query) >= sim(r[j].embedding, query)
    ensures forall s :: s in table && s.fileHash == filter && sim(s.embedding, query) > threshold && s !in r ==>
              forall i :: 0 <= i < |r| ==> sim(s.embedding, query) <= sim(r[i].embedding, query)
    ensures multiset(r) <= multiset(Qualifying(table, filter, query, threshold, sim))
  {
    var key := (s: Section) => sim(s.embedding, query);
    var candidates := Qualifying(table, filter, query, threshold, sim);
    var top := TopK(candidates, key, count);
    assert forall i :: 0 <= i < |top| ==> key(top[i]) == sim(top[i].embedding, query);
    SubMultisetMembers(top, candidates);
    top
  }

  /**
   * `match_document_sections(query_embedding, match_threshold, match_count, filter_file_hash)`:
   * filter to one document, keep rows above the threshold, order by descending
   * similarity and keep at most `count`. A negative LIMIT is an SQL error.
   */
  function MatchDocumentSections(table: seq<Section>, query: Vector, threshold: real, count: int,
                                 filter: string, sim: (Vector, Vector) -> real): (r: Result<seq<Match>>)
    ensures r.Err? <==> count < 0
    ensures r.Ok? ==> |r.value| == Min(count, |Qualifying(table, filter, query, threshold, sim)|)
    ensures r.Ok? ==> forall m :: m in r.value ==>
              && m.similarity > threshold
              && exists s :: s in table && s.fileHash == filter && MatchOf(s, query, sim) == m
    ensures r.Ok? ==> forall i, j :: 0 <= i < j < |r.value| ==> r.value[i].similarity >= r.value[j].similarity
    ensures r.Ok? ==> forall s :: (s in table && s.fileHash == filter && sim(s.embedding, query) > threshold
                                   && MatchOf(s, query, sim) !in r.value) ==>
              forall m :: m in r.value ==> sim(s.embedding, query) <= m.similarity
    ensures r.Ok? ==> multiset(r.value) <= multiset(Project(Qualifying(table, filter, query, threshold, sim), query, sim))
  {
    if count < 0 then Err("LIMIT must not be negative")
    else
      var top := Ranked(table, query, threshold, count, filter, sim);
      var rows := Project(top, query, sim);
      ProjectKeepsRanking(table, query, threshold, count, filter, sim);
      MapKeepsSubMultiset(top, Qualifying(table, filter, query, threshold, sim), MatchFn(query, sim));
      Ok(rows)
  }

  /** The `(id, content, similarity)` columns of each row. */
  function Project(rows: seq<Section>, query: Vector, sim: (Vector, Vector) -> real): seq<Match> {
    MapSeq(rows, MatchFn(query, sim))
  }

  /** Projection keeps membership in the table, the threshold and the order of `Ranked`. */
  lemma ProjectKeepsRanking(table: seq<Section>, query: Vector, threshold: real, count: nat,
                            filter: string, sim: (Vector, Vector) -> real)
    ensures var rows := Project(Ranked(table, query, threshold, count, filter, sim), query, sim);
            && (forall m :: m in rows ==>
                  && m.similarity > threshold
                  && exists s :: s in table && s.fileHash == filter && MatchOf(s, query, sim) == m)
            && (forall i, j :: 0 <= i < j < |rows| ==> rows[i].similarity >= rows[j].similarity)
            && (forall s :: (s in table && s.fileHash == filter && sim(s.embedding, query) > threshold
                             && MatchOf(s, query, sim) !in rows) ==>
                  forall m :: m in rows ==> sim(s.embedding, query) <= m.similarity)
  {
    var top := Ranked(table, query, threshold, count, filter, sim);
    ProjectedRowsQualify(top, table, query, threshold, filter, sim);
    ProjectedRowsComplete(top, table, query, threshold, filter, sim);
  }

  lemma ProjectedRowsQualify(top: seq<Section>, table: seq<Section>, query: Vector, threshold: real,
                             filter: string, sim: (Vector, Vector) -> real)
    requires forall s :: s in top ==> s in table && s.fileHash == filter && sim(s.embedding, query) > threshold
    ensures forall m :: m in Project(top, query, sim) ==>
              && m.similarity > threshold
              && exists s :: s in table && s.fileHash == filter && MatchOf(s, query, sim) == m
  {
    var rows := Project(top, query, sim);
    forall m | m in rows
      ensures m.similarity > threshold
      ensures exists s :: s in table && s.fileHash == filter && MatchOf(s, query, sim) == m
    {
      var i :| 0 <= i < |rows| && rows[i] == m;
      assert top[i] in top;
    }
  }

  lemma ProjectedRowsComplete(top: seq<Section>, table: seq<Section>, query: Vector, threshold: real,
                              filter: string, sim: (Vector, Vector) -> real)
    requires forall s :: s in table && s.fileHash == filter && sim(s.embedding, query) > threshold && s !in top ==>
               forall i :: 0 <= i < |top| ==> sim(s.embedding, query) <= sim(top[i].embedding, query)
    ensures forall s :: (s in table && s.fileHash == filter && sim(s.embedding, query) > threshold
                         && MatchOf(s, query, sim) !in Project(top, query, sim)) ==>
              forall m :: m in Project(top, query, sim) ==> sim(s.embedding, query) <= m.similarity
  {
    var rows := Project(top, query, sim);
    assert forall i :: 0 <= i < |top| ==> rows[i] == MatchOf(top[i], query, sim);
    forall s | s in table && s.fileHash == filter && sim(s.embedding, query) > threshold && MatchOf(s, query, sim) !in rows
      ensures forall m :: m in rows ==> sim(s.embedding, query) <= m.similarity
    {
      assert s !in top;
      forall m | m in rows ensures sim(s.embedding, query) <= m.similarity {
        var i :| 0 <= i < |rows| && rows[i] == m;
      }
    }
  }
}
