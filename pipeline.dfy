/** The document flow of `main` (main.py:255-305): chunk the extracted
    text, analyse every chunk, keep the successful results in chunk order,
    combine them into one final analysis and wrap it into the study guide.

    The two calls to the hosted model (`analyze_chunk_with_gemini` and
    `combine_and_analyze_topics`) are parameters: each returns an optional
    string, `None` standing for a failed call. */
module Pipeline {
  import opened Wrappers
  import Chunker
  import StudyGuide

  /** `analyze_chunk_with_gemini(chunk, chunk_num, total_chunks, pdf_name)`. */
  type Analyzer = (string, nat, nat, string) -> Option<string>

  /** `combine_and_analyze_topics(all_chunk_results, pdf_name)`. */
  type Combiner = (seq<string>, string) -> Option<string>

  /** The response of the analyser for every chunk, numbered from 1 as the
      loop in `main` numbers them. */
  function Responses(chunks: seq<string>, pdfName: string, analyze: Analyzer): (rs: seq<Option<string>>)
    ensures |rs| == |chunks|
  {
    seq(|chunks|, i requires 0 <= i < |chunks| => analyze(chunks[i], i + 1, |chunks|, pdfName))
  }

  /** The responses that pass `if result:`, in order. */
  function Successful(responses: seq<Option<string>>): (kept: seq<string>)
    ensures |kept| <= |responses|
    ensures forall x :: x in kept ==> x != "" && Some(x) in responses
    ensures kept == [] <==> forall i :: 0 <= i < |responses| ==> !Present(responses[i])
  {
    if responses == [] then []
    else
      var last := responses[|responses| - 1];
      var front := responses[..|responses| - 1];
      assert forall i :: 0 <= i < |front| ==> front[i] == responses[i];
      Successful(front) + (if Present(last) then [last.value] else [])
  }

  /** Keeping the successful responses commutes with concatenation, so the
      kept results stay in chunk order. */
  lemma {:induction false} SuccessfulAppend(a: seq<Option<string>>, b: seq<Option<string>>)
    ensures Successful(a + b) == Successful(a) + Successful(b)
    decreases |b|
  {
    if b == [] {
      assert a + b == a;
    } else {
      assert (a + b)[..|a + b| - 1] == a + b[..|b| - 1];
      SuccessfulAppend(a, b[..|b| - 1]);
    }
  }

  /** When every call succeeds, every result is kept, in order. */
  lemma {:induction false} AllSuccessful(responses: seq<Option<string>>)
    requires forall i :: 0 <= i < |responses| ==> Present(responses[i])
    ensures |Successful(responses)| == |responses|
    ensures forall i :: 0 <= i < |responses| ==> Successful(responses)[i] == responses[i].value
    decreases |responses|
  {
    if responses != [] {
      var front := responses[..|responses| - 1];
      var last := responses[|responses| - 1];
      assert forall i :: 0 <= i < |front| ==> Present(front[i]);
      AllSuccessful(front);
      var kept := Successful(responses);
      assert kept == Successful(front) + [last.value];
      forall i | 0 <= i < |responses|
        ensures kept[i] == responses[i].value
      {
        if i < |front| {
          assert front[i] == responses[i];
        }
      }
    }
  }

  /** The loop of `main` that analyses every chunk and appends each result
      that passes `if result:` (main.py:265-275). */
  method CollectResults(chunks: seq<string>, pdfName: string, analyze: Analyzer)
    returns (results: seq<string>)
    ensures results == Successful(Responses(chunks, pdfName, analyze))
  {
    ghost var responses := Responses(chunks, pdfName, analyze);
    results := [];
    for i := 0 to |chunks|
      invariant results == Successful(responses[..i])
    {
      var result := analyze(chunks[i], i + 1, |chunks|, pdfName);
      if result.Some? && result.value != "" {
        results := results + [result.value];
      }
      assert responses[..i + 1][..i] == responses[..i];
    }
    assert responses[..|chunks|] == responses;
  }

  /** How one run of `main` on an uploaded document ends. */
  datatype Outcome =
    | NoText                                    // extraction gave nothing: nothing more happens
    | NoChunkResults                            // "No chunks were successfully analyzed"
    | FinalAnalysisFailed                       // "Failed to create final analysis"
    | Guide(markdown: string, fileName: string) // the study guide offered for download

  /** The steps of `main` after extraction (main.py:257-305), with the
      default chunk size and overlap. */
  method Process(pdfText: Option<string>, pdfName: string, analyze: Analyzer, combine: Combiner)
    returns (outcome: Outcome)
    ensures !Present(pdfText) <==> outcome == NoText
    ensures Present(pdfText) ==>
      var results := Successful(Responses(
        Chunker.Chunks(pdfText.value, Chunker.DefaultChunkSize, Chunker.DefaultOverlap), pdfName, analyze));
      (outcome == NoChunkResults <==> results == []) &&
      (outcome == FinalAnalysisFailed <==> results != [] && !Present(combine(results, pdfName))) &&
      (outcome.Guide? ==>
        outcome.markdown == StudyGuide.CreateMarkdown(combine(results, pdfName), pdfName) &&
        StudyGuide.AnalysisOf(outcome.markdown, pdfName) == combine(results, pdfName) &&
        outcome.fileName == StudyGuide.DownloadName(pdfName))
  {
    if !(pdfText.Some? && pdfText.value != "") {
      return NoText;
    }
    var chunks := Chunker.ChunkText(pdfText.value, Chunker.DefaultChunkSize, Chunker.DefaultOverlap);
    var results := CollectResults(chunks, pdfName, analyze);
    if results == [] {
      return NoChunkResults;
    }
    var finalAnalysis := combine(results, pdfName);
    if !(finalAnalysis.Some? && finalAnalysis.value != "") {
      return FinalAnalysisFailed;
    }
    var markdown := StudyGuide.CreateMarkdown(finalAnalysis, pdfName);
    StudyGuide.AnalysisRoundTrip(finalAnalysis, pdfName);
    outcome := Guide(markdown, StudyGuide.DownloadName(pdfName));
  }
}
