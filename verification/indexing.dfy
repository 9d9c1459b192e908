/**
 * Indexing an uploaded paper: extract its text, hash it, store the raw record,
 * store the model's analysis, cut the text into fixed-size chunks, embed each
 * chunk and hand the chunks whose embedding succeeded to the section store.
 */
module Indexing {
  import opened Wrappers
  import opened Sections
  import opened Extraction
  import Records

  /** Characters per chunk. */
  const ChunkSize: nat := 1000

  /** Python's `range(start, stop, step)` for a positive step. */
  function Range(start: nat, stop: nat, step: nat): seq<nat>
    requires step > 0
    decreases stop - start
  {
    if start >= stop then [] else [start] + Range(start + step, stop, step)
  }

  /** Python's `text[i:j]`, which clamps both ends to the text. */
  function Slice(text: string, i: nat, j: nat): string {
    var hi := if j <= |text| then j else |text|;
    var lo := if i <= hi then i else hi;
    text[lo..hi]
  }

  /** `[text[i:i+size] for i in range(0, len(text), size)]`. */
  function Chunks(text: string, size: nat): (r: seq<string>)
    requires size > 0
    ensures r == [] <==> text == []
    ensures forall k :: 0 <= k < |r| ==> 0 < |r[k]| <= size
  {
    var starts := Range(0, |text|, size);
    RangeWithin(0, |text|, size);
    assert forall k :: 0 <= k < |starts| ==> starts[k] in starts;
    seq(|starts|, k requires 0 <= k < |starts| => Slice(text, starts[k], starts[k] + size))
  }

  function Concat(parts: seq<string>): string {
    if parts == [] then "" else parts[0] + Concat(parts[1..])
  }

  /** Every value of `range` lies in [start, stop). */
  lemma {:induction false} RangeWithin(start: nat, stop: nat, step: nat)
    requires step > 0
    ensures forall x :: x in Range(start, stop, step) ==> start <= x < stop
    decreases stop - start
  {
    if start < stop {
      RangeWithin(start + step, stop, step);
    }
  }

  /** `range` yields n values with (n - 1) * step < stop - start <= n * step: the ceiling. */
  lemma {:induction false} RangeLength(start: nat, stop: nat, step: nat)
    requires step > 0
    ensures var n := |Range(start, stop, step)|;
            if start >= stop then n == 0 else (n - 1) * step < stop - start <= n * step
    decreases stop - start
  {
    if start < stop {
      RangeLength(start + step, stop, step);
      var n := |Range(start + step, stop, step)|;
      assert (n + 1 - 1) * step == n * step;
      assert (n + 1) * step == n * step + step;
      if n > 0 {
        assert (n - 1) * step == n * step - step;
      }
    }
  }

  /** The k-th value of `range` is start + k * step. */
  lemma {:induction false} RangeAt(start: nat, stop: nat, step: nat, k: nat)
    requires step > 0 && k < |Range(start, stop, step)|
    ensures Range(start, stop, step)[k] == start + k * step
    decreases k
  {
    if k > 0 {
      RangeAt(start + step, stop, step, k - 1);
      assert (k - 1) * step + step == k * step;
    }
  }

  /** The ceiling of len / size, written as Python's `(len + size - 1) // size`. */
  lemma CeilingDivision(len: nat, size: nat, n: nat)
    requires size > 0
    requires len == 0 ==> n == 0
    requires len > 0 ==> (n - 1) * size < len <= n * size
    ensures (len + size - 1) / size == n
  {
    var q, m := (len + size - 1) / size, (len + size - 1) % size;
    assert q * size + m == len + size - 1;
    if q > n {
      MulMonotone(n + 1, q, size);
      assert false;
    } else if q < n {
      MulMonotone(q, n - 1, size);
      assert false;
    }
  }

  lemma MulMonotone(a: nat, b: nat, c: nat)
    requires a <= b
    ensures a * c <= b * c
  {
    assert b * c == a * c + (b - a) * c;
  }

  /** The k-th chunk is the text from k * size, `size` long or up to the end of the text. */
  lemma ChunkAt(text: string, size: nat, k: nat)
    requires size > 0 && k < |Chunks(text, size)|
    ensures k * size < |text|
    ensures Chunks(text, size)[k] == text[k * size .. if k * size + size <= |text| then k * size + size else |text|]
  {
    var starts := Range(0, |text|, size);
    RangeLength(0, |text|, size);
    RangeAt(0, |text|, size, k);
    MulMonotone(k, |starts| - 1, size);
    assert Chunks(text, size)[k] == Slice(text, starts[k], starts[k] + size);
  }

  /** ceil(|text| / size) chunks; none for an empty text. */
  lemma ChunkCount(text: string, size: nat)
    requires size > 0
    ensures |Chunks(text, size)| == (|text| + size - 1) / size
    ensures text == [] <==> Chunks(text, size) == []
  {
    RangeLength(0, |text|, size);
    CeilingDivision(|text|, size, |Chunks(text, size)|);
  }

  /** The k-th chunk is `size` long unless it reaches the end of the text. */
  lemma ChunkLength(text: string, size: nat, k: nat)
    requires size > 0 && k < |Chunks(text, size)|
    ensures |Chunks(text, size)[k]| == if k * size + size <= |text| then size else |text| - k * size
  {
    ChunkAt(text, size, k);
  }

  /** Every chunk has exactly `size` characters, except the last, which has 1 to `size`. */
  lemma ChunkLengths(text: string, size: nat)
    requires size > 0
    ensures var cs := Chunks(text, size);
            && (forall k :: 0 <= k < |cs| - 1 ==> |cs[k]| == size)
            && (|cs| > 0 ==> 1 <= |cs[|cs| - 1]| <= size)
  {
    var cs := Chunks(text, size);
    forall k | 0 <= k < |cs| - 1 ensures |cs[k]| == size {
      ChunkLength(text, size, k);
      ChunkAt(text, size, k + 1);
      assert (k + 1) * size == k * size + size;
    }
    if |cs| > 0 {
      ChunkLength(text, size, |cs| - 1);
      ChunkAt(text, size, |cs| - 1);
    }
  }

  /** The chunks from the k-th on reassemble the text from k * size on. */
  lemma {:induction false} ConcatFrom(text: string, size: nat, k: nat)
    requires size > 0 && k <= |Chunks(text, size)|
    ensures Concat(Chunks(text, size)[k..]) == text[if k * size <= |text| then k * size else |text|..]
    decreases |Chunks(text, size)| - k
  {
    var cs := Chunks(text, size);
    if k == |cs| {
      RangeLength(0, |text|, size);
      assert cs[k..] == [];
    } else {
      ConcatFrom(text, size, k + 1);
      ChunkAt(text, size, k);
      ConcatAt(cs, k);
      var lo := k * size;
      var hi := if lo + size <= |text| then lo + size else |text|;
      assert (k + 1) * size == lo + size;
      assert text[lo..] == text[lo..hi] + text[hi..];
    }
  }

  /** Joining from position k is the k-th part followed by the join of the rest. */
  lemma ConcatAt(parts: seq<string>, k: nat)
    requires k < |parts|
    ensures Concat(parts[k..]) == parts[k] + Concat(parts[k + 1..])
  {
    assert parts[k..][1..] == parts[k + 1..];
  }

  /** Joining the chunks in order gives back the text. */
  lemma ChunksRoundTrip(text: string, size: nat)
    requires size > 0
    ensures Concat(Chunks(text, size)) == text
  {
    ConcatFrom(text, size, 0);
    assert Chunks(text, size)[0..] == Chunks(text, size);
  }

  /** A 3000-character text is cut into three chunks of exactly 1000 characters. */
  lemma ThreeThousandCharacters(text: string)
    requires |text| == 3000
    ensures |Chunks(text, ChunkSize)| == 3
    ensures forall k :: 0 <= k < 3 ==> Chunks(text, ChunkSize)[k] == text[1000 * k .. 1000 * k + 1000]
  {
    ChunkCount(text, ChunkSize);
    forall k | 0 <= k < 3 ensures Chunks(text, ChunkSize)[k] == text[1000 * k .. 1000 * k + 1000] {
      ChunkAt(text, ChunkSize, k);
    }
  }

  // ---------------------------------------------------------------- embedding filter

  /** `sections_to_save`: each chunk whose embedding succeeded, with its vector, in chunk order. */
  function Surviving(chunks: seq<string>, vectors: seq<Option<Vector>>): (r: seq<(string, Vector)>)
    requires |chunks| == |vectors|
    ensures |r| <= |chunks|
    ensures forall k :: 0 <= k < |r| ==> r[k].0 in chunks && Some(r[k].1) in vectors && |r[k].1| > 0
  {
    if chunks == [] then []
    else
      var n := |chunks| - 1;
      assert forall c :: c in chunks[..n] ==> c in chunks;
      assert forall v :: v in vectors[..n] ==> v in vectors;
      Surviving(chunks[..n], vectors[..n]) + (if Embedded(vectors[n]) then [(chunks[n], vectors[n].value)] else [])
  }

  /** The positions whose embedding succeeded, in increasing order. */
  function KeptIndices(vectors: seq<Option<Vector>>): (r: seq<nat>)
    ensures forall k :: 0 <= k < |r| ==> r[k] < |vectors| && Embedded(vectors[r[k]])
    ensures forall k, l :: 0 <= k < l < |r| ==> r[k] < r[l]
    ensures forall i :: 0 <= i < |vectors| && Embedded(vectors[i]) ==> i in r
  {
    if vectors == [] then []
    else
      var n := |vectors| - 1;
      var front := KeptIndices(vectors[..n]);
      assert forall k :: 0 <= k < |front| ==> vectors[..n][front[k]] == vectors[front[k]];
      front + (if Embedded(vectors[n]) then [n] else [])
  }

  /** The sections kept are exactly the chunks at the successful positions, each with its own vector. */
  lemma {:induction false} SurvivingAreEmbeddedChunks(chunks: seq<string>, vectors: seq<Option<Vector>>)
    requires |chunks| == |vectors|
    ensures |Surviving(chunks, vectors)| == |KeptIndices(vectors)|
    ensures forall k :: 0 <= k < |KeptIndices(vectors)| ==>
              Surviving(chunks, vectors)[k] == (chunks[KeptIndices(vectors)[k]], vectors[KeptIndices(vectors)[k]].value)
    decreases |chunks|
  {
    if chunks != [] {
      var n := |chunks| - 1;
      SurvivingAreEmbeddedChunks(chunks[..n], vectors[..n]);
      var idx := KeptIndices(vectors);
      var front := KeptIndices(vectors[..n]);
      var r := Surviving(chunks, vectors);
      var r' := Surviving(chunks[..n], vectors[..n]);
      forall k | 0 <= k < |idx| ensures r[k] == (chunks[idx[k]], vectors[idx[k]].value) {
        if k < |front| {
          assert idx[k] == front[k] && r[k] == r'[k];
          assert front[k] < n;
          assert chunks[..n][front[k]] == chunks[front[k]];
          assert vectors[..n][front[k]] == vectors[front[k]];
        }
      }
    }
  }

  /** One section survives per successful position. */
  lemma {:induction false} SurvivingCount(chunks: seq<string>, vectors: seq<Option<Vector>>)
    requires |chunks| == |vectors|
    ensures |Surviving(chunks, vectors)| == |KeptIndices(vectors)|
    decreases |chunks|
  {
    if chunks != [] {
      SurvivingCount(chunks[..|chunks| - 1], vectors[..|chunks| - 1]);
    }
  }

  /** `save_document_sections` is called iff at least one chunk's embedding succeeded. */
  lemma SomeSurviveIffSomeEmbedded(chunks: seq<string>, vectors: seq<Option<Vector>>)
    requires |chunks| == |vectors|
    ensures Surviving(chunks, vectors) != [] <==> exists i :: 0 <= i < |vectors| && Embedded(vectors[i])
  {
    SurvivingCount(chunks, vectors);
    var idx := KeptIndices(vectors);
    if |idx| > 0 {
      assert Embedded(vectors[idx[0]]);
    } else {
      assert forall i :: 0 <= i < |vectors| ==> !Embedded(vectors[i]);
    }
  }

  /** The embedding loop: keep each chunk whose embedding is non-empty. */
  method SelectSections(chunks: seq<string>, vectors: seq<Option<Vector>>) returns (sections: seq<(string, Vector)>)
    requires |chunks| == |vectors|
    ensures sections == Surviving(chunks, vectors)
  {
    sections := [];
    var i := 0;
    while i < |chunks|
      invariant 0 <= i <= |chunks|
      invariant sections == Surviving(chunks[..i], vectors[..i])
    {
      assert chunks[..i + 1][..i] == chunks[..i] && vectors[..i + 1][..i] == vectors[..i];
      var vector := vectors[i];
      if Embedded(vector) {
        sections := sections + [(chunks[i], vector.value)];
      }
      i := i + 1;
    }
    assert chunks[..i] == chunks && vectors[..i] == vectors;
  }

  // ---------------------------------------------------------------- the upload flow

  /** How processing one uploaded file ends. */
  datatype UploadOutcome =
    | Crashed  // extraction gave `None` and hashing it raised
    | Indexed(fileHash: string, saved: Option<seq<(string, Vector)>>)  // `saved`: the sections handed to the store, if it was called

  /** The files table after the record is saved and the analysis stored, connection by connection. */
  function FilesAfterUpload(files: seq<Records.FileRecord>, hash: string, name: string, text: string,
                            analysis: string, now: int, saveConnected: bool, updateConnected: bool)
    : (r: seq<Records.FileRecord>)
    ensures |r| == |files| + (if saveConnected && !Records.HasFile(files, hash) then 1 else 0)
    ensures saveConnected ==> Records.HasFile(r, hash)
    ensures forall i :: 0 <= i < |files| && files[i].fileHash != hash ==> r[i] == files[i]
    ensures updateConnected ==> forall i :: 0 <= i < |r| && r[i].fileHash == hash ==>
              r[i].status == Records.Analyzed && r[i].analysis == Some(analysis)
    ensures !saveConnected && !updateConnected ==> r == files
  {
    var saved := if saveConnected then Records.FilesAfterSave(files, hash, name, text, now) else files;
    if updateConnected then Records.FilesAfterAnalysis(saved, hash, analysis) else saved
  }

  /**
   * One iteration of the upload loop: extract the text, save the raw record under
   * `md5(text)`, store the model's analysis (whatever text it returned), chunk the
   * text, embed each chunk and save the surviving sections if there are any.
   * `vectors` are the embedding service's answers, one per chunk.
   */
  method ProcessUpload(store: Records.Store, fileName: string, opens: bool, pages: seq<PageRead>,
                       md5: string -> string, analyst: (string, string) -> string,
                       vectors: seq<Option<Vector>>, now: int, saveConnected: bool, updateConnected: bool)
    returns (outcome: UploadOutcome)
    requires store.Valid()
    requires opens && AllReadable(pages) ==> |vectors| == |Chunks(PagesText(pages), ChunkSize)|
    modifies store`files
    ensures store.Valid()
    ensures !(opens && AllReadable(pages)) ==> outcome == Crashed && store.files == old(store.files)
    ensures opens && AllReadable(pages) ==>
              var text := PagesText(pages);
              var sections := Surviving(Chunks(text, ChunkSize), vectors);
              && store.files == FilesAfterUpload(old(store.files), md5(text), fileName, text,
                                                 analyst(fileName, text), now, saveConnected, updateConnected)
              && outcome == Indexed(md5(text), if sections == [] then None else Some(sections))
  {
    var rawText := ExtractText(opens, pages);
    if rawText.None? {
      return Crashed;
    }
    var text := rawText.value;
    var fileHash := md5(text);
    var _ := store.SaveFile(fileHash, fileName, text, now, saveConnected);
    var aiResponse := analyst(fileName, text);
    var _ := store.UpdateAnalysis(fileHash, aiResponse, updateConnected);
    var chunks := Chunks(text, ChunkSize);
    var sections := SelectSections(chunks, vectors);
    if sections != [] {
      outcome := Indexed(fileHash, Some(sections));
    } else {
      outcome := Indexed(fileHash, None);
    }
  }

  /**
   * Uploading the same text twice, under any names and at any times, leaves one
   * record for it: the second upload adds no row and hashes stay unique.
   */
  lemma SameTextOneRecord(files: seq<Records.FileRecord>, md5: string -> string, text: string,
                          name1: string, name2: string, analysis1: string, analysis2: string, now1: int, now2: int)
    requires Records.UniqueHashes(files)
    ensures var once := FilesAfterUpload(files, md5(text), name1, text, analysis1, now1, true, true);
            var twice := FilesAfterUpload(once, md5(text), name2, text, analysis2, now2, true, true);
            && |twice| == |once| == |files| + (if Records.HasFile(files, md5(text)) then 0 else 1)
            && Records.UniqueHashes(twice)
            && Records.HasFile(twice, md5(text))
  {
    var h := md5(text);
    var saved := Records.FilesAfterSave(files, h, name1, text, now1);
    Records.SaveKeepsOneRowPerHash(files, h, name1, text, now1);
    Records.AnalysisTouchesOnlyItsRow(saved, h, analysis1);
    var once := Records.FilesAfterAnalysis(saved, h, analysis1);
    Records.SaveKeepsOneRowPerHash(once, h, name2, text, now2);
    var saved2 := Records.FilesAfterSave(once, h, name2, text, now2);
    Records.AnalysisTouchesOnlyItsRow(saved2, h, analysis2);
  }
}
