/** The prompt side of AthenaPDF, `ChatBot` in backend/chatbot.py: answering with a
    bounded context, summarising and quiz generation over 1500-character pieces, and
    the model call that never raises.

    The language model (`self.llm`, a ctransformers model) is a parameter: any function
    from a call to a reply, where a reply is either generated text or an exception. The
    functions here return a `Run`: the string the Python method returns, together with
    the calls it made to the model, in order. */
module Chat {
  import opened PyBuiltins
  import Pdf

  /** The piece length of `summarize` and `generate_quiz` (`chunk_size = 1500`). */
  const PieceSize: int := 1500

  /** `max_context_len` in `ask`. */
  const MaxContextLen: int := 3500

  /** What `_call_model` returns when the model raises: "⚠️ Error generating response." */
  const ErrorReply: string := "\U{26A0}\U{FE0F} Error generating response."

  /** One invocation `self.llm(prompt, max_new_tokens=..., stop=...)`. */
  datatype Call = Call(prompt: string, maxTokens: int, stop: Option<seq<string>>)

  /** What the model does with a call: return text, or raise. */
  datatype Reply = Generated(output: string) | Failed

  /** The value a `ChatBot` method returns, and the model calls it made, in order. */
  datatype Run = Run(answer: string, calls: seq<Call>)

  // ---------------------------------------------------------------------------
  // _call_model

  /** `_call_model`: never raises. A failed call gives the fixed warning, a successful
      one the model's output stripped of surrounding whitespace; either way the result
      has no whitespace at its ends. */
  function CallModel(llm: Call -> Reply, call: Call): (r: string)
    ensures IsStripped(r)
    ensures llm(call).Failed? ==> r == ErrorReply
    ensures llm(call).Generated? ==> IsStripOf(r, llm(call).output)
  {
    match llm(call)
    case Generated(out) => Strip(out)
    case Failed =>
      assert !IsSpace(ErrorReply[0]) && !IsSpace(ErrorReply[|ErrorReply| - 1]);
      ErrorReply
  }

  /** One `_call_model` per call, in order (the list comprehensions at lines 38 and 48-53 of backend/chatbot.py). */
  function Answers(llm: Call -> Reply, calls: seq<Call>): seq<string>
  {
    seq(|calls|, i requires 0 <= i < |calls| => CallModel(llm, calls[i]))
  }

  // ---------------------------------------------------------------------------
  // ask

  /** `context[-max_context_len:]`: the last 3500 characters, or all of a shorter context. */
  function AskContext(context: string): (c: string)
    ensures |c| == Min(|context|, MaxContextLen)
    ensures c == context[|context| - |c|..]
  {
    if |context| <= MaxContextLen then context else context[|context| - MaxContextLen..]
  }

  function AskPrompt(query: string, context: string): string
  {
    "\nYou are AthenaPDF, a helpful AI assistant for students.\nContext: " + context +
    "\nQuestion: " + query + "\nAnswer clearly and concisely:\n"
  }

  /** `ask`: one model call, with at most 512 new tokens and "Question:" as stop word. */
  function Ask(llm: Call -> Reply, query: string, context: string): (run: Run)
    ensures |run.calls| == 1
    ensures run.answer == CallModel(llm, run.calls[0])
  {
    var call := Call(AskPrompt(query, AskContext(context)), 512, Some(["Question:"]));
    Run(CallModel(llm, call), [call])
  }

  /** The prompt `ask` sends holds the whole query and the context's last
      min(len(context), 3500) characters, and nothing more of the context. */
  lemma AskSendsContextTail(llm: Call -> Reply, query: string, context: string)
    ensures var call := Ask(llm, query, context).calls[0];
            exists tail :: |tail| == Min(|context|, MaxContextLen) && context == context[..|context| - |tail|] + tail &&
                           call == Call(AskPrompt(query, tail), 512, Some(["Question:"]))
  {
    var tail := AskContext(context);
    assert context == context[..|context| - |tail|] + tail;
  }

  // ---------------------------------------------------------------------------
  // splitting into pieces

  /** `[text[i:i+size] for i in range(0, len(text), size)]` */
  function Pieces(text: string, size: int): seq<string>
    requires size >= 1
  {
    seq(CeilDiv(|text|, size), i requires 0 <= i < CeilDiv(|text|, size) => PySlice(text, i * size, i * size + size))
  }

  /** The comprehension is the chunker of backend/pdf_handler.py with no overlap. */
  lemma PiecesAreChunks(text: string, size: int)
    requires size >= 1
    ensures Pieces(text, size) == Pdf.Chunks(text, size, 0)
  {
    var ps, cs := Pieces(text, size), Pdf.Chunks(text, size, 0);
    Pdf.ChunkCount(text, size, 0);
    Pdf.ChunkAt(text, size, 0);
    assert |ps| == |cs|;
    forall i | 0 <= i < |ps|
      ensures ps[i] == cs[i]
    {
      PieceIsWindow(text, size, i);
    }
  }

  lemma PieceIsWindow(text: string, size: int, i: nat)
    requires size >= 1 && i < |Pdf.Chunks(text, size, 0)|
    ensures PySlice(text, i * size, i * size + size) == Pdf.Chunks(text, size, 0)[i]
  {
    var cs := Pdf.Chunks(text, size, 0);
    Pdf.ChunksFromAt(text, 0, size, 0, i);
    assert i * (size - 0) == i * size;
    var a := i * size;
    assert PySlice(text, a, a + size) == text[a..Min(a + size, |text|)];
  }

  /** The pieces concatenate back to the text exactly. */
  lemma PiecesConcat(text: string, size: int)
    requires size >= 1
    ensures Concat(Pieces(text, size)) == text
  {
    PiecesAreChunks(text, size);
    Pdf.ChunksReassemble(text, size, 0);
    Pdf.ReassembleNoOverlap(Pdf.Chunks(text, size, 0));
  }

  /** There are ceil(len(text) / size) pieces; every piece but the last has exactly
      `size` characters and the last has between one and `size`. */
  lemma PiecesShape(text: string, size: int)
    requires size >= 1
    ensures |Pieces(text, size)| == CeilDiv(|text|, size)
    ensures Pieces(text, size) == [] <==> text == []
    ensures forall i :: 0 <= i < |Pieces(text, size)| - 1 ==> |Pieces(text, size)[i]| == size
    ensures text != [] ==> 1 <= |Pieces(text, size)[|Pieces(text, size)| - 1]| <= size
  {
    var ps := Pieces(text, size);
    var c := |ps|;
    PiecesAreChunks(text, size);
    Pdf.ChunkCount(text, size, 0);
    Pdf.ChunkAt(text, size, 0);
    CeilDivBounds(|text|, size);
    forall i | 0 <= i < c - 1
      ensures |ps[i]| == size
    {
      assert i * (size - 0) == i * size;
      MulMono(i + 1, c - 1, size);
      assert (i + 1) * size == i * size + size;
    }
  }

  lemma MulMono(a: int, b: int, d: int)
    requires 0 <= a <= b && d >= 0
    ensures a * d <= b * d
  {
    MulNonneg(b - a, d);
    assert b * d - a * d == (b - a) * d;
  }

  /** The prompt sent for each piece of a long text: the fixed instruction, then the piece. */
  function PieceCalls(pieces: seq<string>, instruction: string, maxTokens: int): seq<Call>
  {
    seq(|pieces|, i requires 0 <= i < |pieces| => Call(instruction + pieces[i], maxTokens, None))
  }

  // ---------------------------------------------------------------------------
  // summarize

  const SummaryInstruction: string := "Summarize clearly for a student:\n\n"
  const CondenseInstruction: string := "Summarize the following concisely:\n\n"

  /** `summarize`: a text of at most 1500 characters is summarised in one call; a longer
      one piece by piece, and the piece summaries, joined with " ", are summarised
      again in a last call whose result is returned. */
  function Summarize(llm: Call -> Reply, text: string, maxTokens: int): (run: Run)
    ensures run.calls != []
    ensures run.answer == CallModel(llm, run.calls[|run.calls| - 1])
  {
    if |text| > PieceSize then
      var calls := PieceCalls(Pieces(text, PieceSize), SummaryInstruction, maxTokens);
      var summaries := Answers(llm, calls);
      var last := Call(CondenseInstruction + JoinWith(" ", summaries), maxTokens, None);
      Run(CallModel(llm, last), calls + [last])
    else
      var call := Call(SummaryInstruction + text, maxTokens, None);
      Run(CallModel(llm, call), [call])
  }

  /** `summarize` calls the model once for a short text, and once per piece plus once
      more for a long one; call i sends the instruction followed by piece i, the piece
      calls together carry the whole text, and the last call carries their results
      joined with " ". */
  lemma SummarizeCalls(llm: Call -> Reply, text: string, maxTokens: int)
    ensures var run := Summarize(llm, text, maxTokens);
            |run.calls| == if |text| <= PieceSize then 1 else CeilDiv(|text|, PieceSize) + 1
    ensures var run := Summarize(llm, text, maxTokens);
            |text| <= PieceSize ==> run.calls[0] == Call(SummaryInstruction + text, maxTokens, None)
    ensures var run := Summarize(llm, text, maxTokens);
            var pieceCalls := run.calls[..|run.calls| - 1];
            |text| > PieceSize ==>
              |pieceCalls| == |Pieces(text, PieceSize)| &&
              (forall i :: 0 <= i < |pieceCalls| ==>
                 pieceCalls[i] == Call(SummaryInstruction + Pieces(text, PieceSize)[i], maxTokens, None)) &&
              Concat(Pieces(text, PieceSize)) == text &&
              run.calls[|run.calls| - 1] ==
                Call(CondenseInstruction + JoinWith(" ", Answers(llm, pieceCalls)), maxTokens, None)
  {
    if |text| > PieceSize {
      var run := Summarize(llm, text, maxTokens);
      var ps := Pieces(text, PieceSize);
      var calls := PieceCalls(ps, SummaryInstruction, maxTokens);
      PiecesShape(text, PieceSize);
      assert run.calls[..|run.calls| - 1] == calls;
      PiecesConcat(text, PieceSize);
    }
  }

  // ---------------------------------------------------------------------------
  // generate_quiz

  function QuizPieceInstruction(numQuestions: int): string
  {
    "Generate " + IntToDecimal(numQuestions) + " multiple-choice questions with answers from this text:\n\n"
  }

  function QuizPrompt(numQuestions: int, text: string): string
  {
    "Generate " + IntToDecimal(numQuestions) +
    " multiple-choice questions (with 4 options each) from the following text:\n\n" + text +
    "\nProvide correct answers."
  }

  /** `generate_quiz`: one call for a text of at most 1500 characters; otherwise one
      call per piece, and the results joined with "\n". */
  function GenerateQuiz(llm: Call -> Reply, text: string, numQuestions: int): (run: Run)
    ensures |text| <= PieceSize ==> run.calls == [Call(QuizPrompt(numQuestions, text), 500, None)]
    ensures |text| <= PieceSize ==> run.answer == CallModel(llm, run.calls[0])
  {
    if |text| > PieceSize then
      var calls := PieceCalls(Pieces(text, PieceSize), QuizPieceInstruction(numQuestions), 500);
      Run(JoinWith("\n", Answers(llm, calls)), calls)
    else
      var call := Call(QuizPrompt(numQuestions, text), 500, None);
      Run(CallModel(llm, call), [call])
  }

  /** For a long text `generate_quiz` makes ceil(len(text) / 1500) calls, call i sending
      the quiz instruction followed by piece i, so that together they carry the whole
      text; it returns their results joined with "\n" in the same order. */
  lemma QuizCalls(llm: Call -> Reply, text: string, numQuestions: int)
    requires |text| > PieceSize
    ensures var run := GenerateQuiz(llm, text, numQuestions);
            |run.calls| == CeilDiv(|text|, PieceSize) &&
            |run.calls| == |Pieces(text, PieceSize)| &&
            (forall i :: 0 <= i < |run.calls| ==>
               run.calls[i] == Call(QuizPieceInstruction(numQuestions) + Pieces(text, PieceSize)[i], 500, None)) &&
            Concat(Pieces(text, PieceSize)) == text &&
            run.answer == JoinWith("\n", Answers(llm, run.calls))
  {
    var ps := Pieces(text, PieceSize);
    PiecesShape(text, PieceSize);
    PiecesConcat(text, PieceSize);
  }
}
