# AthenaPDF core, modelled in Dafny

AthenaPDF is a study assistant. A student uploads PDFs, and `PDFHandler`
(backend/pdf_handler.py) turns each one into searchable pieces:

- it extracts the text;
- it reshapes the text when it contains Arabic;
- it cuts the text into overlapping 500-character chunks, with an overlap of 50;
- it appends the chunks, one metadata entry per chunk (the file's base name) and
  one FAISS vector per chunk to its in-memory store.

`get_context` turns the rows that a FAISS search returns into a text of
`[From <file>]` blocks. `ChatBot` (backend/chatbot.py) sends prompts to a local
language model:

- `ask` keeps the last 3500 characters of the context;
- `summarize` and `generate_quiz` cut long texts into 1500-character pieces, make
  one model call per piece, and join the answers;
- `_call_model` strips the model's output and turns any failure into a fixed
  error reply.

The project has three modules.

- `PyBuiltins` (py_builtins.dfy) holds the Python behaviour the code relies on:
  - clipped slicing and negative indexing, with `IndexError` as a `Result`;
  - `str.strip` over Python's whitespace set;
  - `''.join` and `sep.join`;
  - `[x] * n`;
  - `os.path.basename`;
  - `f"{n}"` of an int.
- `Pdf` (pdf_handler.dfy) holds the chunker and the Arabic test, plus the class
  `PdfHandler`. Its fields `chunks`, `metadata` and `index` are updated in place by
  `LoadIndex`, `ProcessPdf` and the constructor, and read by `GetContext`. The
  chunker is a `while` loop, as in the source, proved against the recursive
  window function `Chunks`.
- `Chat` (chatbot.dfy) holds the chatbot's operations as pure functions of the
  model. Each returns a `Run`: the value the Python method returns, together
  with the model calls it made, in order.

Calls into code that cannot be seen here become parameters:

- the language model is `llm: Call -> Reply`;
- reshaping and bidi reordering is `shape: string -> string`;
- whether embedding and `index.add` succeed is `encoded: bool`;
- the rows a FAISS search returns are `hits: seq<int>`;
- what `_load_index` finds on disk is a `StoredIndex`.

Every property is proved for all values of these parameters.

The code has no source filtering and no character budget on the context. It
neither writes the store atomically nor rolls it back, and it does not reject a
partially saved store. Nothing here claims that normalisation is idempotent. The
model follows the code, so:

- `GetContext` has no length bound;
- re-uploading a file appends its chunks again;
- a store whose metadata file is missing loads with whatever metadata was there
  before.

## Model

| member | source | states |
|---|---|---|
| Pdf.ChunkText | backend/pdf_handler.py:103-114 | The loop returns exactly the windows `text[k*step : k*step+size]` for `k*step < len(text)`, where `step = size - overlap`, and these form a chunking of the text. |
| Pdf.ChunkCount | backend/pdf_handler.py:107-113 | The chunk count is ceil(len(text) / (size - overlap)). It is zero exactly when the text is empty. |
| Pdf.ChunkAt | backend/pdf_handler.py:110-112 | Chunk k starts at k*step and ends at min(k*step + size, len(text)). It equals that slice of the text, and its length is between 1 and size. |
| Pdf.ChunksReassemble | backend/pdf_handler.py:110-113 | When 0 <= overlap < size, the first chunk followed by every later chunk minus its first `overlap` characters gives back the text. |
| Pdf.ChunksFromCount | backend/pdf_handler.py:110-113 | From any start position, the number of remaining windows is ceil((len(text) - start) / step). |
| Pdf.ChunksFromAt | backend/pdf_handler.py:111-112 | From any start position, window i is the clipped slice at start + i*step. |
| Pdf.ChunksFromReassemble | backend/pdf_handler.py:110-113 | From any start position, the remaining windows minus their overlaps concatenate to the text after start + overlap. |
| Pdf.ChunksAreChunking | backend/pdf_handler.py:103-114 | The windows meet every part of the chunking predicate: emptiness, count, each window's bounds and length, and reassembly. |
| Pdf.ContainsArabic | backend/pdf_handler.py:116-120 | The result is true if and only if some character of the text lies in U+0600..U+06FF. |
| Pdf.PdfHandler.constructor | backend/pdf_handler.py:27-31 | The handler starts with empty chunks, empty metadata and no index, then loads. A missing or unreadable store leaves everything empty and aligned. A readable store gives the stored index and chunks, plus the stored metadata or an empty list. |
| Pdf.PdfHandler.LoadIndex | backend/pdf_handler.py:33-49 | A missing store clears only the index. A failed read resets the index, chunks and metadata. A readable store replaces the index and chunks, and the metadata only when its file exists. |
| Pdf.PdfHandler.ProcessPdf | backend/pdf_handler.py:60-78 | On success, the chunks of the normalised text are appended, with one new vector per chunk and one metadata entry per chunk, and an absent index is created. Every new metadata entry is the file's base name. If embedding fails, nothing changes. The alignment of chunks, metadata and vectors is preserved. |
| Pdf.ReuploadDuplicates | backend/pdf_handler.py:60-78 | Processing the same file twice from an empty store holds its chunks twice, with the base name twice as many times and twice as many vectors (there is no deduplication), and the store stays aligned. |
| Pdf.PdfHandler.GetContext | backend/pdf_handler.py:122-137 | With no index or no chunks, the result is the empty string. Otherwise it is the stripped concatenation of the blocks for the hits, in hit order, or the IndexError a hit raises. |
| Pdf.RawContextAppend | backend/pdf_handler.py:132-136 | The context of hits xs + ys is the context of xs followed by the context of ys, and an error from xs propagates. |
| Pdf.RawContextOfHits | backend/pdf_handler.py:133-136 | For non-negative hits, the context is `[From name]\nchunk\n\n` for each hit below len(chunks), in order. The name is the metadata entry, or "Unknown PDF" past the end of the metadata. |
| Pdf.PaddingHit | backend/pdf_handler.py:134-136 | A -1 hit (FAISS padding) passes the guard and repeats the last chunk under the last metadata entry. With empty metadata it raises IndexError. |
| PyBuiltins.Strip | backend/pdf_handler.py:137 | The result has no leading or trailing whitespace. It is the input with only whitespace removed at both ends. |
| PyBuiltins.StripUnique | backend/chatbot.py:18 | Any whitespace-free-ended core of s that is surrounded by whitespace only is `s.strip()`. |
| PyBuiltins.BasenameIsLastComponent | backend/pdf_handler.py:69 | The base name has no '/'. It is a suffix of the path, and it is the whole path or preceded by '/'. |
| PyBuiltins.ConcatAppend | backend/pdf_handler.py:136 | Joining xs + ys with '' is joining xs followed by joining ys. |
| Chat.CallModel | backend/chatbot.py:15-21 | The reply is always stripped. A failed call gives the warning-sign error reply. A successful call gives its output with only surrounding whitespace removed. |
| Chat.AskContext | backend/chatbot.py:24-25 | The kept context is the suffix of length min(len(context), 3500). |
| Chat.Ask | backend/chatbot.py:23-32 | `ask` makes exactly one model call, and its answer is that call's reply. |
| Chat.AskSendsContextTail | backend/chatbot.py:24-32 | The single call carries the ask prompt with the context's last min(len, 3500) characters, 512 tokens and the stop word "Question:". |
| Chat.PiecesAreChunks | backend/chatbot.py:37 | The piece list comprehension equals the chunker with size 1500 and overlap 0. |
| Chat.PiecesConcat | backend/chatbot.py:37 | The pieces concatenate back to the text. |
| Chat.PiecesShape | backend/chatbot.py:37 | There are ceil(len/size) pieces, none exactly for the empty text. All pieces but the last have length size, and the last has length 1..size. |
| Chat.Summarize | backend/chatbot.py:34-42 | `summarize` makes at least one call, and its answer is the reply to its last call. |
| Chat.SummarizeCalls | backend/chatbot.py:36-42 | A short text makes one call, with the student instruction. A long text makes one call per piece, and call i sends the student instruction followed by piece i with `max_tokens`, so the prompts carry the whole text in order. A final condense call's prompt joins the piece answers with " ". |
| Chat.GenerateQuiz | backend/chatbot.py:44-57 | For a text of at most 1500 characters, the quiz makes one call with the 4-option prompt and 500 tokens, and returns its reply. |
| Chat.QuizCalls | backend/chatbot.py:46-54 | For a longer text, the quiz makes ceil(len/1500) calls. Call i sends the quiz instruction followed by piece i with 500 tokens, so together they carry the whole text in order. The replies are returned joined with "\n". |

## Left out

- Text extraction with PyMuPDF (`extract_text`, lines 89-101) is file I/O. `ProcessPdf` takes the extracted text as an input, and an unreadable PDF shows up as an empty text.
- Arabic reshaping and bidi reordering are a library call. They are the uninterpreted parameter `shape`, so nothing is claimed about their output, and in particular not idempotence.
- Embedding with SentenceTransformer and the FAISS vectors and distances are not modelled. The index is only the number of vectors it holds. A search is only the rows it returns (`hits`), so `top_k` and nearest-neighbour order are not modelled.
- Pdf.PdfHandler.ProcessPdf: the model does not capture an index that gets created and then fails on `add`. Any embedding or add failure is modelled as leaving the state unchanged.
- Writing the index, chunk and metadata files (lines 80-85) and `save_pdf` (lines 51-58) are file I/O, and they are not modelled. A failure while writing after the in-memory update is not modelled either.
- `_load_index` trusts the pickled files. The model assumes they hold lists of strings. Any exception while reading is the single case `Unreadable`.
- Pdf.PdfHandler.constructor: a readable store does not guarantee alignment. The source does not check that the stored index, chunks and metadata have matching lengths. The constructor sets only `chunks`, `metadata` and `index`, because directories, paths and the embedder are I/O.
- Pdf.PdfHandler.GetContext: `not self.index` is modelled as "no index". The model assumes a loaded FAISS index is always truthy.
- Pdf.ChunkText: requires `chunk_size >= 1` and `overlap < chunk_size`, and this excludes two kinds of call the source accepts:
  - `chunk_text` on the empty text with `chunk_size <= overlap`, which returns `[]` at once because the loop at line 110 never runs. On non-empty text the source loops forever with these parameters.
  - A chunk size below 1 with `overlap < chunk_size`, which gives Python's empty or negative-end slices.
  - The handler's own call (500, 50) meets the requirement, so neither of these cases arises there.
- The language model is treated as a deterministic function of the prompt, the token limit and the stop words. Properties hold for every such function. What `max_new_tokens` and `stop` do inside ctransformers is not modelled.
- Logging, the model loading in `ChatBot.__init__`, the translator and the Streamlit front end are not part of this model.
