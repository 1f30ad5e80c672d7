/** The document side of AthenaPDF: the sliding-window chunker, the Arabic-script
    test, and the `PDFHandler` object that keeps the chunk texts, their source file
    names and the vector index side by side, loads them at start-up, extends them
    when a PDF is ingested and turns search hits into a provenance-tagged context.

    Foreign code is passed in rather than modelled: the text PyMuPDF extracted,
    Arabic reshaping followed by the bidirectional reordering (`shape`), whether
    sentence embedding and the FAISS `add` went through (`encoded`), and the row
    indices FAISS `search` returned (`hits`). The FAISS index itself is modelled by
    the one number the handler's logic depends on, how many vectors it holds. */
module Pdf {
  import opened PyBuiltins

  /** The chunking parameters `_process_pdf` uses. */
  const ChunkSize: int := 500
  const Overlap: int := 50

  /** The provenance tag used for a hit that has a chunk but no metadata entry. */
  const UnknownPdf: string := "Unknown PDF"

  // ---------------------------------------------------------------------------
  // chunk_text

  /** The chunks `chunk_text`'s loop still appends once its `start` variable has
      reached `start`: a window of up to `size` characters, then the windows from
      `start + (size - overlap)` on, until `start` reaches the end of the text. */
  function ChunksFrom(text: string, start: nat, size: int, overlap: int): seq<string>
    requires 1 <= size && overlap < size
    decreases |text| - start
  {
    if start >= |text| then []
    else [text[start..Min(start + size, |text|)]] + ChunksFrom(text, start + (size - overlap), size, overlap)
  }

  /** What `chunk_text(text, size, overlap)` returns. */
  function Chunks(text: string, size: int, overlap: int): seq<string>
    requires 1 <= size && overlap < size
  {
    ChunksFrom(text, 0, size, overlap)
  }

  /** The number of windows is the number of window starts below the text length. */
  lemma {:induction false} ChunksFromCount(text: string, start: nat, size: int, overlap: int)
    requires 1 <= size && overlap < size
    ensures |ChunksFrom(text, start, size, overlap)| ==
            if start >= |text| then 0 else CeilDiv(|text| - start, size - overlap)
    decreases |text| - start
  {
    var step := size - overlap;
    if start < |text| {
      var next := start + step;
      var m := |text| - start;
      ChunksFromCount(text, next, size, overlap);
      if next >= |text| {
        CeilDivUnique(m, step, 1);
      } else {
        CeilDivStep(m, step);
      }
    }
  }

  /** Window `i` of the chunks from `start` begins `i` steps after `start` and is
      clipped to the end of the text. */
  lemma {:induction false} ChunksFromAt(text: string, start: nat, size: int, overlap: int, i: nat)
    requires 1 <= size && overlap < size
    requires i < |ChunksFrom(text, start, size, overlap)|
    ensures start + i * (size - overlap) < |text|
    ensures ChunksFrom(text, start, size, overlap)[i] ==
            text[start + i * (size - overlap)..Min(start + i * (size - overlap) + size, |text|)]
    decreases i
  {
    if i > 0 {
      var step := size - overlap;
      ChunksFromAt(text, start + step, size, overlap, i - 1);
      assert start + step + (i - 1) * step == start + i * step;
    }
  }

  /** Python's `c[overlap:]` for a non-negative `overlap`. */
  function DropOverlap(c: string, overlap: nat): string
  {
    if overlap >= |c| then [] else c[overlap..]
  }

  /** The chunks with their first `overlap` characters removed, concatenated. */
  function ConcatDropped(cs: seq<string>, overlap: nat): string
  {
    if cs == [] then [] else DropOverlap(cs[0], overlap) + ConcatDropped(cs[1..], overlap)
  }

  /** The first chunk whole, then every later chunk without the overlap it repeats. */
  function Reassemble(cs: seq<string>, overlap: nat): string
  {
    if cs == [] then [] else cs[0] + ConcatDropped(cs[1..], overlap)
  }

  lemma {:induction false} ChunksFromReassemble(text: string, start: nat, size: int, overlap: nat)
    requires overlap < size
    ensures ConcatDropped(ChunksFrom(text, start, size, overlap), overlap) == text[Min(start + overlap, |text|)..]
    decreases |text| - start
  {
    if start < |text| {
      var e := Min(start + size, |text|);
      var next := start + (size - overlap);
      var cs := ChunksFrom(text, start, size, overlap);
      var rest := ChunksFrom(text, next, size, overlap);
      assert cs[0] == text[start..e] && cs[1..] == rest;
      ChunksFromReassemble(text, next, size, overlap);
      DropThenRest(text, start, size, overlap);
    }
  }

  /** One window without its overlap, followed by the text after the window, is the
      text after `start + overlap`. */
  lemma DropThenRest(text: string, start: nat, size: int, overlap: nat)
    requires overlap < size && start < |text|
    ensures DropOverlap(text[start..Min(start + size, |text|)], overlap) + text[Min(start + size, |text|)..] ==
            text[Min(start + overlap, |text|)..]
  {
    var e := Min(start + size, |text|);
    if e > start + overlap {
      assert text[start..e][overlap..] == text[start + overlap..e];
      assert text[start + overlap..e] + text[e..] == text[start + overlap..];
    }
  }

  /** Dropping the overlaps and concatenating gives back the text. */
  lemma ChunksReassemble(text: string, size: int, overlap: nat)
    requires overlap < size
    ensures Reassemble(Chunks(text, size, overlap), overlap) == text
  {
    if text != [] {
      var cs := Chunks(text, size, overlap);
      ChunksFromReassemble(text, size - overlap, size, overlap);
      assert cs[0] == text[..Min(size, |text|)];
      assert text[..Min(size, |text|)] + text[Min(size, |text|)..] == text;
    }
  }

  /** With no overlap the reassembly is plain concatenation. */
  lemma {:induction false} ReassembleNoOverlap(cs: seq<string>)
    ensures Reassemble(cs, 0) == Concat(cs)
  {
    if cs != [] {
      ConcatDroppedNoOverlap(cs[1..]);
    }
  }

  lemma {:induction false} ConcatDroppedNoOverlap(cs: seq<string>)
    ensures ConcatDropped(cs, 0) == Concat(cs)
  {
    if cs != [] {
      assert DropOverlap(cs[0], 0) == cs[0];
      ConcatDroppedNoOverlap(cs[1..]);
    }
  }

  /** Everything `chunk_text` promises, stated of its result: empty exactly for empty
      text; ceil(len(text) / step) windows; window `i` is the text from `i * step` for
      up to `size` characters, never empty; and, for a non-negative overlap, the text
      comes back once the overlaps are dropped. */
  predicate ChunkingOf(chunks: seq<string>, text: string, size: int, overlap: int)
    requires 1 <= size && overlap < size
  {
    (chunks == [] <==> text == []) &&
    |chunks| == CeilDiv(|text|, size - overlap) &&
    WindowsOf(chunks, text, size, overlap) &&
    (0 <= overlap ==> Reassemble(chunks, overlap) == text)
  }

  /** Chunk `i` is `text[i * step : min(i * step + size, len(text))]`, between one and
      `size` characters long. */
  predicate WindowsOf(chunks: seq<string>, text: string, size: int, overlap: int)
  {
    forall i :: 0 <= i < |chunks| ==> WindowAt(chunks[i], text, i * (size - overlap), size)
  }

  /** `chunk` is the text from position `a` for up to `size` characters, and not empty. */
  predicate WindowAt(chunk: string, text: string, a: int, size: int)
  {
    0 <= a < |text| &&
    Min(a + size, |text|) - a == |chunk| &&
    chunk == text[a..Min(a + size, |text|)] &&
    1 <= |chunk| <= size
  }

  /** Empty text gives no chunks; otherwise there are ceil(len(text) / step) of them. */
  lemma ChunkCount(text: string, size: int, overlap: int)
    requires 1 <= size && overlap < size
    ensures Chunks(text, size, overlap) == [] <==> text == []
    ensures |Chunks(text, size, overlap)| == CeilDiv(|text|, size - overlap)
  {
    ChunksFromCount(text, 0, size, overlap);
    CeilDivBounds(|text|, size - overlap);
  }

  lemma ChunkAt(text: string, size: int, overlap: int)
    requires 1 <= size && overlap < size
    ensures WindowsOf(Chunks(text, size, overlap), text, size, overlap)
  {
    var chunks := Chunks(text, size, overlap);
    forall i | 0 <= i < |chunks|
      ensures WindowAt(chunks[i], text, i * (size - overlap), size)
    {
      ChunksFromAt(text, 0, size, overlap, i);
      var a := i * (size - overlap);
      MulNonneg(i, size - overlap);
      WindowStart(text, a, size);
    }
  }

  /** The clipped slice starting inside the text is a window. */
  lemma WindowStart(text: string, a: int, size: int)
    requires 0 <= a < |text| && 1 <= size
    ensures WindowAt(text[a..Min(a + size, |text|)], text, a, size)
  {
  }

  lemma ChunksAreChunking(text: string, size: int, overlap: int)
    requires 1 <= size && overlap < size
    ensures ChunkingOf(Chunks(text, size, overlap), text, size, overlap)
  {
    ChunkCount(text, size, overlap);
    ChunkAt(text, size, overlap);
    if 0 <= overlap {
      ChunksReassemble(text, size, overlap);
    }
  }

  /** backend/pdf_handler.py `chunk_text`: the while loop over `start`. The loop only
      terminates when `chunk_size > overlap`; chunk sizes below one are not modelled. */
  method ChunkText(text: string, chunkSize: int, overlap: int) returns (chunks: seq<string>)
    requires 1 <= chunkSize && overlap < chunkSize
    ensures chunks == Chunks(text, chunkSize, overlap)
    ensures ChunkingOf(chunks, text, chunkSize, overlap)
  {
    chunks := [];
    var start: nat := 0;
    var textLength := |text|;
    while start < textLength
      invariant chunks + ChunksFrom(text, start, chunkSize, overlap) == Chunks(text, chunkSize, overlap)
      decreases textLength - start
    {
      var end := Min(start + chunkSize, textLength);
      chunks := chunks + [text[start..end]];
      start := start + (chunkSize - overlap);
    }
    assert chunks == Chunks(text, chunkSize, overlap);
    ChunksAreChunking(text, chunkSize, overlap);
  }

  // ---------------------------------------------------------------------------
  // _contains_arabic

  /** A code point of the Arabic block, U+0600 to U+06FF inclusive. */
  predicate IsArabic(c: char)
  {
    '\U{0600}' <= c <= '\U{06FF}'
  }

  /** backend/pdf_handler.py `_contains_arabic`: `any(...)` over the characters. */
  function ContainsArabic(text: string): (b: bool)
    ensures b <==> exists i :: 0 <= i < |text| && IsArabic(text[i])
  {
    if text == [] then false
    else IsArabic(text[0]) || ContainsArabic(text[1..])
  }

  /** The text `_process_pdf` chunks: reshaped and reordered only if it has Arabic in it. */
  function Normalize(text: string, shape: string -> string): string
  {
    if ContainsArabic(text) then shape(text) else text
  }

  // ---------------------------------------------------------------------------
  // get_context

  /** One context block, `f"[From {pdf_name}]\n{chunk}\n\n"`. */
  function Block(name: string, chunk: string): string
  {
    "[From " + name + "]\n" + chunk + "\n\n"
  }

  /** What the loop body of `get_context` appends for one hit: nothing when the hit is
      not below `len(chunks)`, otherwise a block whose name is the metadata entry when the
      hit is below `len(metadata)` and "Unknown PDF" otherwise. Both lists are indexed
      with Python's rules, so a negative hit counts from the end or raises IndexError. */
  function HitBlock(chunks: seq<string>, metadata: seq<string>, idx: int): Result<string>
  {
    if idx >= |chunks| then Ok([])
    else
      var name := if idx < |metadata| then PyIndex(metadata, idx) else Ok(UnknownPdf);
      match name
      case Raised(e) => Raised(e)
      case Ok(n) =>
        match PyIndex(chunks, idx)
        case Raised(e) => Raised(e)
        case Ok(c) => Ok(Block(n, c))
  }

  /** Two Python computations run one after the other, their texts concatenated. */
  function AndThen(a: Result<string>, b: Result<string>): Result<string>
  {
    match a
    case Raised(e) => Raised(e)
    case Ok(x) =>
      match b
      case Raised(e) => Raised(e)
      case Ok(y) => Ok(x + y)
  }

  /** The `context` string `get_context` has accumulated after the given hits,
      before the final `strip()`. */
  function RawContext(chunks: seq<string>, metadata: seq<string>, hits: seq<int>): Result<string>
    decreases |hits|
  {
    if hits == [] then Ok([])
    else AndThen(RawContext(chunks, metadata, hits[..|hits| - 1]), HitBlock(chunks, metadata, hits[|hits| - 1]))
  }

  lemma AndThenAssociative(a: Result<string>, b: Result<string>, c: Result<string>)
    ensures AndThen(AndThen(a, b), c) == AndThen(a, AndThen(b, c))
  {
    if a.Ok? && b.Ok? && c.Ok? {
      assert (a.value + b.value) + c.value == a.value + (b.value + c.value);
    }
  }

  /** Hits are processed in order: the context of `a + b` is that of `a` followed by that of `b`. */
  lemma {:induction false} RawContextAppend(chunks: seq<string>, metadata: seq<string>, a: seq<int>, b: seq<int>)
    ensures RawContext(chunks, metadata, a + b) ==
            AndThen(RawContext(chunks, metadata, a), RawContext(chunks, metadata, b))
    decreases |b|
  {
    if b == [] {
      assert a + b == a;
      if RawContext(chunks, metadata, a).Ok? {
        assert RawContext(chunks, metadata, a).value + [] == RawContext(chunks, metadata, a).value;
      }
    } else {
      var b' := b[..|b| - 1];
      assert (a + b)[..|a + b| - 1] == a + b';
      assert (a + b)[|a + b| - 1] == b[|b| - 1];
      RawContextAppend(chunks, metadata, a, b');
      AndThenAssociative(RawContext(chunks, metadata, a), RawContext(chunks, metadata, b'), HitBlock(chunks, metadata, b[|b| - 1]));
    }
  }

  /** The provenance tag of a non-negative hit below `len(chunks)`. */
  function NameAt(metadata: seq<string>, idx: nat): string
  {
    if idx < |metadata| then metadata[idx] else UnknownPdf
  }

  /** The blocks `get_context` is meant to produce: one per hit below `len(chunks)`,
      in the order the search returned them. */
  function ExpectedBlocks(chunks: seq<string>, metadata: seq<string>, hits: seq<int>): seq<string>
    requires forall i :: 0 <= i < |hits| ==> hits[i] >= 0
  {
    if hits == [] then []
    else
      (if hits[0] < |chunks| then [Block(NameAt(metadata, hits[0]), chunks[hits[0]])] else []) +
      ExpectedBlocks(chunks, metadata, hits[1..])
  }

  /** For hits FAISS did not pad, the raw context never raises and is exactly one block
      per hit below `len(chunks)`, in hit order, tagged with its metadata entry or with
      "Unknown PDF" past the end of the metadata. */
  lemma {:induction false} RawContextOfHits(chunks: seq<string>, metadata: seq<string>, hits: seq<int>)
    requires forall i :: 0 <= i < |hits| ==> hits[i] >= 0
    ensures RawContext(chunks, metadata, hits) == Ok(Concat(ExpectedBlocks(chunks, metadata, hits)))
    decreases |hits|
  {
    if hits != [] {
      var h, rest := hits[0], hits[1..];
      assert hits == [h] + rest;
      RawContextAppend(chunks, metadata, [h], rest);
      assert RawContext(chunks, metadata, [h]) == HitBlock(chunks, metadata, h) by {
        assert [h][..0] == [];
        if HitBlock(chunks, metadata, h).Ok? {
          assert [] + HitBlock(chunks, metadata, h).value == HitBlock(chunks, metadata, h).value;
        }
      }
      RawContextOfHits(chunks, metadata, rest);
      var first := if h < |chunks| then [Block(NameAt(metadata, h), chunks[h])] else [];
      assert HitBlock(chunks, metadata, h) == Ok(Concat(first)) by {
        if h < |chunks| {
          assert first[1..] == [];
          assert Concat(first) == first[0] + Concat([]);
          assert first[0] + [] == first[0];
        }
      }
      ConcatAppend(first, ExpectedBlocks(chunks, metadata, rest));
      assert ExpectedBlocks(chunks, metadata, hits) == first + ExpectedBlocks(chunks, metadata, rest);
    }
  }

  /** FAISS pads missing results with -1, and the guard only checks the upper bound:
      such a hit repeats the last chunk under the last metadata entry, or raises
      IndexError when there is no metadata at all. */
  lemma PaddingHit(chunks: seq<string>, metadata: seq<string>)
    requires chunks != []
    ensures metadata != [] ==>
              HitBlock(chunks, metadata, -1) == Ok(Block(metadata[|metadata| - 1], chunks[|chunks| - 1]))
    ensures metadata == [] ==> HitBlock(chunks, metadata, -1) == Raised(IndexError)
  {
  }

  function StripContext(r: Result<string>): Result<string>
  {
    match r
    case Raised(e) => Raised(e)
    case Ok(s) => Ok(Strip(s))
  }

  // ---------------------------------------------------------------------------
  // the PDFHandler object

  /** A FAISS `IndexFlatL2`, reduced to the number of vectors it holds (`ntotal`). */
  datatype FaissIndex = FlatL2(ntotal: nat)

  function NTotal(index: Option<FaissIndex>): nat
  {
    if index.Some? then index.value.ntotal else 0
  }

  /** What reading the three persisted files gives: the index, the chunk list and,
      if `metadata.pkl` exists, the metadata list. */
  datatype Snapshot = Snapshot(index: FaissIndex, chunks: seq<string>, metadata: Option<seq<string>>)

  /** The state of the vector store directory as `_load_index` finds it. */
  datatype StoredIndex =
    | Missing              // faiss.index or chunks.pkl does not exist
    | Unreadable           // both exist, but reading one of the files raises
    | Readable(snapshot: Snapshot)

  class PdfHandler {
    var chunks: seq<string>
    var metadata: seq<string>
    var index: Option<FaissIndex>

    /** The alignment the handler relies on: one metadata entry and one indexed vector per chunk. */
    ghost predicate Aligned()
      reads this
    {
      |metadata| == |chunks| && NTotal(index) == |chunks|
    }

    /** `__init__`: empty lists and no index, then `_load_index`. */
    constructor (stored: StoredIndex)
      ensures stored.Missing? ==> index == None && chunks == [] && metadata == []
      ensures stored.Unreadable? ==> index == None && chunks == [] && metadata == []
      ensures stored.Readable? ==>
                index == Some(stored.snapshot.index) && chunks == stored.snapshot.chunks &&
                metadata == (if stored.snapshot.metadata.Some? then stored.snapshot.metadata.value else [])
      ensures !stored.Readable? ==> Aligned()
    {
      chunks := [];
      metadata := [];
      index := None;
      new;
      LoadIndex(stored);
    }

    /** `_load_index`: a complete read replaces the index and the chunks, and the metadata
        when its file exists; a failed read resets everything to empty; a missing index
        or chunk file only clears the index. */
    method LoadIndex(stored: StoredIndex)
      modifies this
      ensures stored.Missing? ==> index == None && chunks == old(chunks) && metadata == old(metadata)
      ensures stored.Unreadable? ==> index == None && chunks == [] && metadata == [] && Aligned()
      ensures stored.Readable? ==>
                index == Some(stored.snapshot.index) && chunks == stored.snapshot.chunks &&
                metadata == (if stored.snapshot.metadata.Some? then stored.snapshot.metadata.value else old(metadata))
    {
      match stored
      case Missing =>
        index := None;
      case Unreadable =>
        index := None;
        chunks := [];
        metadata := [];
      case Readable(snap) =>
        index := Some(snap.index);
        chunks := snap.chunks;
        if snap.metadata.Some? {
          metadata := snap.metadata.value;
        }
    }

    /** `_process_pdf` for a file at `pdfPath` whose extracted text is `extracted`.
        If embedding or the index update raises (`encoded` false) nothing changes;
        otherwise the new chunks, one metadata entry per chunk holding the file's base
        name, and one vector per chunk are appended, whatever was there before (a
        re-uploaded file is appended again). Writing the three files afterwards is not
        modelled. */
    method ProcessPdf(pdfPath: string, extracted: string, shape: string -> string, encoded: bool)
      returns (ok: bool)
      modifies this
      ensures ok == encoded
      ensures var added := Chunks(Normalize(extracted, shape), ChunkSize, Overlap);
              if ok then
                chunks == old(chunks) + added &&
                metadata == old(metadata) + Repeat(Basename(pdfPath), |added|) &&
                index == Some(FlatL2(NTotal(old(index)) + |added|))
              else
                chunks == old(chunks) && metadata == old(metadata) && index == old(index)
      ensures ok ==> forall i :: |old(metadata)| <= i < |metadata| ==> metadata[i] == Basename(pdfPath)
      ensures old(Aligned()) ==> Aligned()
    {
      var text := extracted;
      if ContainsArabic(text) {
        text := shape(text);
      }
      assert text == Normalize(extracted, shape);
      var newChunks := ChunkText(text, ChunkSize, Overlap);
      var newMetadata := Repeat(Basename(pdfPath), |newChunks|);
      ghost var oldTotal := NTotal(index);
      if !encoded {
        return false;
      }
      if index.None? {
        index := Some(FlatL2(0));
      }
      index := Some(FlatL2(index.value.ntotal + |newChunks|));
      assert NTotal(index) == oldTotal + |newChunks|;
      chunks := chunks + newChunks;
      metadata := metadata + newMetadata;
      ok := true;
    }

    /** `get_context` for the row indices `hits` that FAISS `search` returned for the
        query: the empty string without an index or without chunks, otherwise the
        accumulated blocks, stripped, or the IndexError a hit raised. */
    method GetContext(hits: seq<int>) returns (r: Result<string>)
      ensures index.None? || chunks == [] ==> r == Ok([])
      ensures index.Some? && chunks != [] ==> r == StripContext(RawContext(chunks, metadata, hits))
    {
      if index.None? || |chunks| == 0 {
        return Ok([]);
      }
      var context: string := [];
      var i := 0;
      while i < |hits|
        invariant 0 <= i <= |hits|
        invariant RawContext(chunks, metadata, hits[..i]) == Ok(context)
      {
        var idx := hits[i];
        assert hits[..i + 1][..i] == hits[..i] && hits[..i + 1][i] == idx;
        assert RawContext(chunks, metadata, hits[..i + 1]) ==
               AndThen(Ok(context), HitBlock(chunks, metadata, idx));
        if idx < |chunks| {
          var name := if idx < |metadata| then PyIndex(metadata, idx) else Ok(UnknownPdf);
          var chunk := PyIndex(chunks, idx);
          if name.Raised? || chunk.Raised? {
            var e := if name.Raised? then name.error else chunk.error;
            assert RawContext(chunks, metadata, hits[..i + 1]) == Raised(e);
            RawContextAppend(chunks, metadata, hits[..i + 1], hits[i + 1..]);
            assert hits[..i + 1] + hits[i + 1..] == hits;
            return Raised(e);
          }
          assert HitBlock(chunks, metadata, idx) == Ok(Block(name.value, chunk.value));
          context := context + Block(name.value, chunk.value);
        } else {
          assert context + [] == context;
        }
        i := i + 1;
      }
      assert hits[..i] == hits;
      r := Ok(Strip(context));
    }
  }

  /** Uploading the same file twice, starting from an empty store, appends its chunks
      twice (there is no deduplication), and the store stays aligned. */
  method ReuploadDuplicates(pdfPath: string, extracted: string, shape: string -> string)
    returns (handler: PdfHandler)
    ensures var added := Chunks(Normalize(extracted, shape), ChunkSize, Overlap);
            handler.chunks == added + added &&
            handler.metadata == Repeat(Basename(pdfPath), |added|) + Repeat(Basename(pdfPath), |added|) &&
            handler.index == Some(FlatL2(2 * |added|))
    ensures handler.Aligned()
  {
    handler := new PdfHandler(Missing);
    var ok1 := handler.ProcessPdf(pdfPath, extracted, shape, true);
    var ok2 := handler.ProcessPdf(pdfPath, extracted, shape, true);
  }
}
