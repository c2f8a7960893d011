/** Text extraction from an uploaded note: the choice of extractor by file
    name, and the joining and stripping of the page or paragraph texts the
    document libraries report. */
module TextExtraction {
  import opened Wrappers

  // ---------------------------------------------------------------------
  // Characters and case.

  /** Python's `str.isspace`: the characters `str.strip()` removes when
      called without arguments. */
  predicate IsSpace(c: char) {
    var n := c as int;
    || 0x09 <= n <= 0x0D || 0x1C <= n <= 0x20
    || n == 0x85 || n == 0xA0 || n == 0x1680
    || 0x2000 <= n <= 0x200A
    || n == 0x2028 || n == 0x2029 || n == 0x202F || n == 0x205F || n == 0x3000
  }

  predicate AllSpace(s: string) {
    forall i :: 0 <= i < |s| ==> IsSpace(s[i])
  }

  /** Neither end of `s` is whitespace. */
  predicate Stripped(s: string) {
    s == [] || (!IsSpace(s[0]) && !IsSpace(s[|s| - 1]))
  }

  function LowerChar(c: char): char {
    if 'A' <= c <= 'Z' then (c as int + 32) as char else c
  }

  function UpperChar(c: char): char {
    if 'a' <= c <= 'z' then (c as int - 32) as char else c
  }

  /** `str.lower()` on the ASCII letters, character by character. */
  function Lower(s: string): (r: string)
    ensures |r| == |s| && forall i :: 0 <= i < |s| ==> r[i] == LowerChar(s[i])
  {
    seq(|s|, i requires 0 <= i < |s| => LowerChar(s[i]))
  }

  /** `str.upper()` on the ASCII letters, character by character. */
  function Upper(s: string): (r: string)
    ensures |r| == |s| && forall i :: 0 <= i < |s| ==> r[i] == UpperChar(s[i])
  {
    seq(|s|, i requires 0 <= i < |s| => UpperChar(s[i]))
  }

  predicate EndsWith(s: string, suffix: string) {
    |suffix| <= |s| && s[|s| - |suffix|..] == suffix
  }

  // ---------------------------------------------------------------------
  // Choosing the extractor.

  datatype FileKind = Pdf | Docx

  const UnsupportedFileType: string := "Unsupported file type"

  /** The extractor a file name selects, by the suffix of its lower-cased
      form: `.pdf` before `.docx`; any other name is refused with a
      `ValueError`. */
  function Route(name: string): (r: Result<FileKind, string>)
    ensures r == Success(Pdf) <==> EndsWith(Lower(name), ".pdf")
    ensures r == Success(Docx) <==> EndsWith(Lower(name), ".docx")
    ensures r.Failure? <==> !EndsWith(Lower(name), ".pdf") && !EndsWith(Lower(name), ".docx")
    ensures r.Failure? ==> r.error == UnsupportedFileType
  {
    var lower := Lower(name);
    if EndsWith(lower, ".pdf") then
      assert lower[|lower| - 1] == 'f';
      Success(Pdf)
    else if EndsWith(lower, ".docx") then
      assert lower[|lower| - 1] == 'x';
      Success(Docx)
    else Failure(UnsupportedFileType)
  }

  /** Upper-casing a name does not change where it is routed. */
  lemma RouteIgnoresCase(name: string)
    ensures Route(Upper(name)) == Route(name)
  {
    assert Lower(Upper(name)) == Lower(name);
  }

  /** A name whose last character, lower-cased, is neither 'f' nor 'x'
      ends in neither suffix and is refused. */
  lemma RefusedByLastChar(name: string)
    requires |name| > 0
    requires LowerChar(name[|name| - 1]) != 'f' && LowerChar(name[|name| - 1]) != 'x'
    ensures Route(name) == Failure(UnsupportedFileType)
  {
    var lower := Lower(name);
    assert lower[|lower| - 1] != 'f' && lower[|lower| - 1] != 'x';
  }

  /** Names the dispatch refuses: an older Word format, plain text, no
      extension at all. */
  lemma UnsupportedExamples()
    ensures Route("notes.DOC") == Failure(UnsupportedFileType)
    ensures Route("notes.txt") == Failure(UnsupportedFileType)
    ensures Route("README") == Failure(UnsupportedFileType)
  {
    RefusedByLastChar("notes.DOC");
    RefusedByLastChar("notes.txt");
    RefusedByLastChar("README");
  }

  /** Any name ending in ".pdf" or ".docx" written in any mix of cases
      reaches that extractor, whatever comes before the suffix. */
  lemma RouteBySuffix(stem: string, ext: string)
    ensures Lower(ext) == ".pdf" ==> Route(stem + ext) == Success(Pdf)
    ensures Lower(ext) == ".docx" ==> Route(stem + ext) == Success(Docx)
  {
    var lower := Lower(stem + ext);
    assert lower[|stem|..] == Lower(ext) by {
      forall i | 0 <= i < |ext|
        ensures lower[|stem| + i] == Lower(ext)[i]
      {
        assert (stem + ext)[|stem| + i] == ext[i];
      }
    }
  }

  // ---------------------------------------------------------------------
  // `str.strip()`.

  /** How many characters at the front of `s` are whitespace. */
  function LeadingSpaces(s: string): (n: nat)
    ensures n <= |s|
    ensures forall i :: 0 <= i < n ==> IsSpace(s[i])
    ensures n < |s| ==> !IsSpace(s[n])
    decreases |s|
  {
    if s == [] || !IsSpace(s[0]) then 0 else 1 + LeadingSpaces(s[1..])
  }

  /** How many characters at the back of `s` are whitespace. */
  function TrailingSpaces(s: string): (n: nat)
    ensures n <= |s|
    ensures forall i :: |s| - n <= i < |s| ==> IsSpace(s[i])
    ensures n < |s| ==> !IsSpace(s[|s| - n - 1])
    decreases |s|
  {
    if s == [] || !IsSpace(s[|s| - 1]) then 0 else 1 + TrailingSpaces(s[..|s| - 1])
  }

  /** Python's `str.strip()`: `s` with the whitespace removed from both
      ends. The result has no whitespace at either end and is empty exactly
      when `s` is all whitespace; `StripSplit` shows it is a piece of `s`
      and `StripUnique` that it is the only such piece. */
  function Strip(s: string): (r: string)
    ensures Stripped(r)
    ensures |r| <= |s|
    ensures r == [] <==> AllSpace(s)
  {
    var lead := LeadingSpaces(s);
    if lead == |s| then ""
    else
      var trail := TrailingSpaces(s);
      assert !IsSpace(s[lead]);
      s[lead..|s| - trail]
  }

  /** What `Strip` removes is all whitespace: `s` is the stripped text
      between an all-whitespace head and an all-whitespace tail. */
  lemma StripSplit(s: string) returns (head: string, tail: string)
    ensures s == head + Strip(s) + tail
    ensures AllSpace(head) && AllSpace(tail)
  {
    var lead := LeadingSpaces(s);
    if lead == |s| {
      head, tail := s, [];
      assert Strip(s) == [];
      assert s == head + [] + tail;
    } else {
      var j := |s| - TrailingSpaces(s);
      assert lead < j by { assert !IsSpace(s[lead]); }
      head, tail := s[..lead], s[j..];
      assert AllSpace(head) by {
        forall i | 0 <= i < |head| ensures IsSpace(head[i]) { assert head[i] == s[i]; }
      }
      assert AllSpace(tail) by {
        forall i | 0 <= i < |tail| ensures IsSpace(tail[i]) { assert tail[i] == s[j + i]; }
      }
      assert Strip(s) == s[lead..j];
      ThreeWaySplit(s, lead, j);
    }
  }

  lemma ThreeWaySplit(s: string, i: nat, j: nat)
    requires i <= j <= |s|
    ensures s == s[..i] + s[i..j] + s[j..]
  {
    assert s[..j] == s[..i] + s[i..j];
    assert s == s[..j] + s[j..];
  }

  /** The whitespace count at the front is pinned down by the first
      non-whitespace character. */
  lemma LeadingSpacesAt(s: string, k: nat)
    requires k < |s| && !IsSpace(s[k])
    requires forall i :: 0 <= i < k ==> IsSpace(s[i])
    ensures LeadingSpaces(s) == k
  {
  }

  /** The whitespace count at the back is pinned down by the last
      non-whitespace character. */
  lemma TrailingSpacesAt(s: string, k: nat)
    requires k < |s| && !IsSpace(s[|s| - k - 1])
    requires forall i :: |s| - k <= i < |s| ==> IsSpace(s[i])
    ensures TrailingSpaces(s) == k
  {
  }

  /** `Strip` is determined by what it keeps: any split of `s` into an
      all-whitespace head, a non-empty piece with no whitespace at its ends,
      and an all-whitespace tail yields that piece. */
  lemma StripUnique(head: string, middle: string, tail: string)
    requires AllSpace(head) && AllSpace(tail)
    requires middle != [] && Stripped(middle)
    ensures Strip(head + middle + tail) == middle
  {
    var s := head + middle + tail;
    assert forall i :: 0 <= i < |head| ==> s[i] == head[i];
    assert s[|head|] == middle[0];
    LeadingSpacesAt(s, |head|);
    assert forall i :: |s| - |tail| <= i < |s| ==> s[i] == tail[i - |head| - |middle|];
    assert s[|s| - |tail| - 1] == middle[|middle| - 1];
    TrailingSpacesAt(s, |tail|);
    assert s[|head|..|s| - |tail|] == middle;
  }

  /** Stripping twice strips no more than stripping once. */
  lemma StripIdempotent(s: string)
    ensures Strip(Strip(s)) == Strip(s)
  {
    var r := Strip(s);
    if r != [] {
      assert [] + r + [] == r;
      StripUnique([], r, []);
    }
  }

  lemma AllSpaceConcat(a: string, b: string)
    requires AllSpace(a) && AllSpace(b)
    ensures AllSpace(a + b)
  {
    assert forall i :: |a| <= i < |a + b| ==> (a + b)[i] == b[i - |a|];
  }

  /** Whitespace appended to a string does not survive stripping. */
  lemma StripIgnoresTrailingSpace(s: string, extra: string)
    requires AllSpace(extra)
    ensures Strip(s + extra) == Strip(s)
  {
    if Strip(s) == [] {
      AllSpaceConcat(s, extra);
    } else {
      var head, tail := StripSplit(s);
      StripAfterSplit(head, Strip(s), tail, extra);
    }
  }

  lemma StripAfterSplit(head: string, middle: string, tail: string, extra: string)
    requires AllSpace(head) && AllSpace(tail) && AllSpace(extra)
    requires middle != [] && Stripped(middle)
    ensures Strip(head + middle + tail + extra) == middle
  {
    AllSpaceConcat(tail, extra);
    assert head + middle + tail + extra == head + middle + (tail + extra);
    StripUnique(head, middle, tail + extra);
  }

  // ---------------------------------------------------------------------
  // The two extractors.

  /** The line break both extractors put between texts. */
  const LineBreak: string := "\n"

  /** The PDF text before stripping: every page's text followed by a line
      break, pages in order. */
  function PageConcat(pages: seq<string>): string
  {
    if pages == [] then "" else pages[0] + LineBreak + PageConcat(pages[1..])
  }

  /** The accumulation runs in page order: each further page extends the
      text of the pages before it by that page's text and one line break. */
  lemma {:induction false} PageConcatAppends(pages: seq<string>)
    requires pages != []
    ensures PageConcat(pages) == PageConcat(pages[..|pages| - 1]) + pages[|pages| - 1] + LineBreak
    decreases |pages|
  {
    var n := |pages|;
    if n == 1 {
      assert pages[..0] == [];
    } else {
      var init := pages[..n - 1];
      PageConcatAppends(pages[1..]);
      assert pages[1..][..n - 2] == init[1..];
      assert pages[1..][n - 2] == pages[n - 1];
      assert PageConcat(init) == init[0] + LineBreak + PageConcat(init[1..]);
    }
  }

  /** Python's `"\n".join(parts)`. */
  function JoinLines(parts: seq<string>): string
  {
    if parts == [] then ""
    else if |parts| == 1 then parts[0]
    else parts[0] + LineBreak + JoinLines(parts[1..])
  }

  /** Accumulating each page followed by a line break is joining the pages
      with line breaks and adding one more at the end. */
  lemma {:induction false} PageConcatIsJoinPlusBreak(pages: seq<string>)
    requires pages != []
    ensures PageConcat(pages) == JoinLines(pages) + LineBreak
    decreases |pages|
  {
    if |pages| == 1 {
      assert pages[1..] == [];
    } else {
      PageConcatIsJoinPlusBreak(pages[1..]);
    }
  }

  /** The text of a PDF, from the text of each of its pages: the pages each
      followed by a line break, the whole then stripped. */
  function ExtractPdf(pages: seq<string>): (r: string)
    ensures Stripped(r)
    ensures pages == [] ==> r == ""
    ensures r == Strip(JoinLines(pages))
  {
    if pages != [] then
      PageConcatIsJoinPlusBreak(pages);
      StripIgnoresTrailingSpace(JoinLines(pages), LineBreak);
      Strip(PageConcat(pages))
    else
      Strip(PageConcat(pages))
  }

  /** The text of a DOCX file, from the text of each of its paragraphs: the
      paragraphs joined by line breaks, the whole then stripped. */
  function ExtractDocx(paragraphs: seq<string>): (r: string)
    ensures Stripped(r)
    ensures paragraphs == [] ==> r == ""
    ensures |paragraphs| == 1 ==> r == Strip(paragraphs[0])
  {
    Strip(JoinLines(paragraphs))
  }

  /** The two extractors agree: the trailing line break the PDF loop adds
      after its last page is removed by the strip. */
  lemma PdfAndDocxAgree(texts: seq<string>)
    ensures ExtractPdf(texts) == ExtractDocx(texts)
  {
  }

  /** An upload as the extractors see it: its name, the text the PDF
      library reports for each page, and the text the DOCX library reports
      for each paragraph, when the contents are of that format. */
  datatype Upload = Upload(name: string, pageTexts: seq<string>, paragraphTexts: seq<string>)

  /** `extract_text_from_file`: dispatch on the name, then extract. */
  function ExtractTextFromFile(f: Upload): (r: Result<string, string>)
    ensures r.Failure? <==> Route(f.name).Failure?
    ensures r.Failure? ==> r.error == UnsupportedFileType
    ensures Route(f.name) == Success(Pdf) ==> r == Success(ExtractPdf(f.pageTexts))
    ensures Route(f.name) == Success(Docx) ==> r == Success(ExtractDocx(f.paragraphTexts))
    ensures r.Success? ==> Stripped(r.value)
  {
    match Route(f.name)
    case Success(Pdf) => Success(ExtractPdf(f.pageTexts))
    case Success(Docx) => Success(ExtractDocx(f.paragraphTexts))
    case Failure(e) => Failure(e)
  }
}
