/** The pure string pieces of main.py: the Markdown document built around
    the final analysis (`create_markdown_from_ai_analysis`, main.py:174-210)
    and the name of the downloaded file (main.py:299). */
module StudyGuide {
  import opened Wrappers

  /** Returned when there is no analysis to wrap. */
  const NoAnalysisMessage: string := "Error: No analysis result available"

  /** First line of every study guide. */
  function Title(pdfName: string): string
  {
    "# " + pdfName + " - Study Guide"
  }

  /** The fixed lines between the title and the analysis text. */
  const Introduction: string :=
    "\n\n## \U{1F4DA} AI-Generated Study Guide\n\n"
    + "This document has been comprehensively analyzed using Gemini AI to create a detailed "
    + "study guide with topic frequency analysis and prioritized study recommendations.\n\n---\n\n"

  /** Everything the document holds before the analysis text. */
  function Header(pdfName: string): string
  {
    Title(pdfName) + Introduction
  }

  /** Everything the document holds after the analysis text. */
  const Footer: string :=
    "\n\n---\n\n## \U{1F4CB} Study Progress Tracker\n\n"
    + "### Overall Progress\n"
    + "- [ ] Review high-frequency topics first\n"
    + "- [ ] Complete medium-frequency topics\n"
    + "- [ ] Review low-frequency topics\n"
    + "- [ ] Create summary notes\n"
    + "- [ ] Practice with focus on repeated concepts\n\n"
    + "### Daily Study Plan\n"
    + "- [ ] Morning: Focus on high-priority topics\n"
    + "- [ ] Afternoon: Review medium-priority topics\n"
    + "- [ ] Evening: Quick review of low-priority topics\n\n"
    + "---\n\n"
    + "*Generated by PDF Study Guide Generator with Gemini AI*\n"

  /** A text put between a prefix and a suffix can be cut back out. */
  lemma Enclosed(prefix: string, body: string, suffix: string)
    ensures var d := prefix + body + suffix;
      |d| == |prefix| + |body| + |suffix| &&
      d[..|prefix|] == prefix && d[|d| - |suffix|..] == suffix &&
      d[|prefix| .. |d| - |suffix|] == body
  {
    var d := prefix + body + suffix;
    assert d[..|prefix|] == prefix;
    assert d[|d| - |suffix|..] == suffix;
    assert d[|prefix| .. |d| - |suffix|] == body;
  }

  /** `create_markdown_from_ai_analysis(analysis_result, pdf_name)`. */
  function CreateMarkdown(analysis: Option<string>, pdfName: string): (md: string)
    ensures !Present(analysis) <==> md == NoAnalysisMessage
    ensures Present(analysis) ==>
      Title(pdfName) <= md &&
      |md| == |Header(pdfName)| + |analysis.value| + |Footer| &&
      md[|Header(pdfName)| .. |md| - |Footer|] == analysis.value
  {
    if !Present(analysis) then NoAnalysisMessage
    else
      var h := Header(pdfName);
      var md := h + analysis.value + Footer;
      Enclosed(h, analysis.value, Footer);
      assert md[0] == '#' && NoAnalysisMessage[0] == 'E';
      md
  }

  /** Reads the analysis back out of a study guide for `pdfName`, if the
      document has the header and footer around it. */
  function AnalysisOf(md: string, pdfName: string): Option<string>
  {
    var h := Header(pdfName);
    if |h| + |Footer| <= |md| && md[..|h|] == h && md[|md| - |Footer|..] == Footer
    then Some(md[|h| .. |md| - |Footer|])
    else None
  }

  /** The analysis text is embedded verbatim: it can be read back out of the
      document. */
  lemma AnalysisRoundTrip(analysis: Option<string>, pdfName: string)
    requires Present(analysis)
    ensures AnalysisOf(CreateMarkdown(analysis, pdfName), pdfName) == analysis
  {
    Enclosed(Header(pdfName), analysis.value, Footer);
  }

  /** The error message is not a study guide for any document name. */
  lemma ErrorMessageIsNoGuide(pdfName: string)
    ensures AnalysisOf(NoAnalysisMessage, pdfName) == None
  {
    assert |NoAnalysisMessage| < |Footer|;
  }

  /** Different analyses give different documents. */
  lemma CreateMarkdownInjective(a: Option<string>, b: Option<string>, pdfName: string)
    requires Present(a) && Present(b)
    requires CreateMarkdown(a, pdfName) == CreateMarkdown(b, pdfName)
    ensures a == b
  {
    AnalysisRoundTrip(a, pdfName);
    AnalysisRoundTrip(b, pdfName);
  }

  const PdfExtension: string := ".pdf"
  const GuideSuffix: string := "_study_guide.md"

  /** `.pdf` occurs in `s` at offset `i`. */
  predicate PdfAt(s: string, i: nat)
  {
    i + 4 <= |s| && s[i .. i + 4] == PdfExtension
  }

  ghost predicate ContainsPdf(s: string)
  {
    exists i: nat :: PdfAt(s, i)
  }

  /** Python's `s.replace('.pdf', '')`: every occurrence of `.pdf` found
      scanning left to right, without overlaps, is deleted. */
  function RemovePdf(s: string): (r: string)
    ensures |r| <= |s| && (|s| - |r|) % 4 == 0
    decreases |s|
  {
    if |s| >= 4 && s[..4] == PdfExtension then RemovePdf(s[4..])
    else if s == [] then []
    else [s[0]] + RemovePdf(s[1..])
  }

  /** The download file name, `f"{name.replace('.pdf', '')}_study_guide.md"`.
      A name without `.pdf` is kept whole; otherwise every occurrence goes,
      wherever it stands, and the name before the suffix gets shorter. */
  function DownloadName(name: string): (r: string)
    ensures |r| >= |GuideSuffix| && r[|r| - |GuideSuffix|..] == GuideSuffix
    ensures r[..|r| - |GuideSuffix|] == RemovePdf(name)
    ensures !ContainsPdf(name) <==> r == name + GuideSuffix
    ensures ContainsPdf(name) ==> |r| < |name| + |GuideSuffix|
    ensures forall i: nat :: PdfAt(name, i) ==>
      r == RemovePdf(name[..i]) + RemovePdf(name[i + 4..]) + GuideSuffix
  {
    var r := RemovePdf(name) + GuideSuffix;
    assert r[..|r| - |GuideSuffix|] == RemovePdf(name);
    RemovePdfChanges(name);
    assert r == name + GuideSuffix ==> RemovePdf(name) == name by {
      if r == name + GuideSuffix {
        assert (name + GuideSuffix)[..|name|] == name;
      }
    }
    forall i: nat | PdfAt(name, i)
      ensures r == RemovePdf(name[..i]) + RemovePdf(name[i + 4..]) + GuideSuffix
    {
      assert name == name[..i] + PdfExtension + name[i + 4..];
      RemovePdfSplit(name[..i], name[i + 4..]);
    }
    r
  }

  /** Past its first character, a name holds `.pdf` exactly where its tail
      does. */
  lemma ContainsPdfTail(s: string)
    requires s != [] && !PdfAt(s, 0)
    ensures ContainsPdf(s) <==> ContainsPdf(s[1..])
  {
    if ContainsPdf(s) {
      var i: nat :| PdfAt(s, i);
      assert PdfAt(s[1..], i - 1) by {
        assert s[1..][i - 1 .. i + 3] == s[i .. i + 4];
      }
    }
    if ContainsPdf(s[1..]) {
      var i: nat :| PdfAt(s[1..], i);
      assert PdfAt(s, i + 1) by {
        assert s[1..][i .. i + 4] == s[i + 1 .. i + 5];
      }
    }
  }

  /** The replacement changes a name exactly when `.pdf` occurs in it; when
      it does, the name gets shorter. */
  lemma {:induction false} RemovePdfChanges(s: string)
    ensures !ContainsPdf(s) <==> RemovePdf(s) == s
    ensures ContainsPdf(s) ==> |RemovePdf(s)| < |s|
    decreases |s|
  {
    if |s| >= 4 && s[..4] == PdfExtension {
      assert PdfAt(s, 0);
      assert |RemovePdf(s)| <= |s[4..]|;
    } else if s != [] {
      var tail := s[1..];
      RemovePdfChanges(tail);
      ContainsPdfTail(s);
      assert RemovePdf(s) == [s[0]] + RemovePdf(tail);
      assert s == [s[0]] + tail;
    }
  }

  /** Removing `.pdf` from `a + ".pdf" + b` when `a` does not start with
      `.pdf`: the first character of `a` is kept and the scan goes on from
      the second, since `.pdf` has no proper prefix that is also a suffix. */
  lemma RemovePdfKeepsFirst(a: string, b: string)
    requires a != [] && !(|a| >= 4 && a[..4] == PdfExtension)
    ensures RemovePdf(a + PdfExtension + b) == [a[0]] + RemovePdf(a[1..] + PdfExtension + b)
    ensures RemovePdf(a) == [a[0]] + RemovePdf(a[1..])
  {
    var s := a + PdfExtension + b;
    if |a| >= 4 {
      assert s[..4] == a[..4];
    } else {
      assert s[..4][|a|] == s[|a|] == '.' != PdfExtension[|a|];
    }
    assert s[0] == a[0] && s[1..] == a[1..] + PdfExtension + b;
  }

  /** An occurrence of `.pdf` splits the replacement in two: `.pdf` has no
      proper prefix that is also a suffix, so no occurrence found while
      scanning the left part can straddle it. */
  lemma {:induction false} RemovePdfSplit(a: string, b: string)
    ensures RemovePdf(a + PdfExtension + b) == RemovePdf(a) + RemovePdf(b)
    decreases |a|
  {
    var s := a + PdfExtension + b;
    if a == [] {
      assert RemovePdf(s) == RemovePdf(b) by {
        assert s[..4] == PdfExtension && s[4..] == b;
      }
    } else if |a| >= 4 && a[..4] == PdfExtension {
      var rest := a[4..];
      assert RemovePdf(s) == RemovePdf(rest + PdfExtension + b) by {
        assert s[..4] == PdfExtension && s[4..] == rest + PdfExtension + b;
      }
      RemovePdfSplit(rest, b);
    } else {
      var rest := a[1..];
      RemovePdfKeepsFirst(a, b);
      RemovePdfSplit(rest, b);
      assert [a[0]] + (RemovePdf(rest) + RemovePdf(b)) == ([a[0]] + RemovePdf(rest)) + RemovePdf(b);
    }
  }

  /** Removing `.pdf` from a base without `.pdf` followed by `.pdf` gives
      the base. */
  lemma RemoveTrailingPdf(base: string)
    requires !ContainsPdf(base)
    ensures RemovePdf(base + PdfExtension) == base
  {
    RemovePdfSplit(base, []);
    assert base + PdfExtension + [] == base + PdfExtension;
    RemovePdfChanges(base);
  }

  /** A name that is a base without `.pdf` followed by `.pdf` gives the base
      followed by `_study_guide.md`. */
  lemma DownloadNameOfPdf(base: string)
    requires !ContainsPdf(base)
    ensures DownloadName(base + PdfExtension) == base + GuideSuffix
  {
    RemoveTrailingPdf(base);
  }

  /** Every occurrence is removed, not only the suffix: a name such as
      `notes.pdf.v2.pdf` becomes `notes.v2_study_guide.md`. */
  lemma EveryOccurrenceRemoved(a: string, b: string)
    requires !ContainsPdf(a) && !ContainsPdf(b)
    ensures DownloadName(a + PdfExtension + b + PdfExtension) == a + b + GuideSuffix
  {
    var name := a + PdfExtension + b + PdfExtension;
    assert name == a + PdfExtension + (b + PdfExtension);
    RemovePdfSplit(a, b + PdfExtension);
    RemovePdfChanges(a);
    RemoveTrailingPdf(b);
    assert RemovePdf(name) == a + b;
  }

  /** A single left-to-right pass can leave a `.pdf` behind. */
  lemma ReplacementCanLeavePdf()
    ensures RemovePdf("..pdfpdf") == PdfExtension
  {
    RemovePdfSplit(".", "pdf");
    assert "." + PdfExtension + "pdf" == "..pdfpdf";
    assert RemovePdf("pdf") == "pdf";
    assert RemovePdf(".") == ".";
  }

  const UpperCasePdfExtension: string := ".PDF"

  /** The match is case-sensitive: an upper-case extension stays, as in
      `Scan.PDF`, which gives `Scan.PDF_study_guide.md`. */
  lemma UpperCaseExtensionKept(base: string)
    requires !ContainsPdf(base)
    ensures DownloadName(base + UpperCasePdfExtension) == base + UpperCasePdfExtension + GuideSuffix
  {
    var name := base + UpperCasePdfExtension;
    forall i: nat
      ensures !PdfAt(name, i)
    {
      if i + 4 <= |name| {
        if i + 4 <= |base| {
          assert name[i .. i + 4] == base[i .. i + 4] && !PdfAt(base, i);
        } else {
          var k := i + 3 - |base|;
          assert name[i .. i + 4][3] == name[i + 3] == UpperCasePdfExtension[k];
          assert UpperCasePdfExtension[k] != 'f' == PdfExtension[3];
        }
      }
    }
    assert !ContainsPdf(name);
  }
}
