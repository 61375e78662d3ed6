/**
 * File names derived from a circular: the sanitised circular number, the
 * names of the synthesized and checklist artifacts, and the name a
 * downloaded PDF is stored under. The clock reading is a parameter,
 * already formatted as `%Y%m%d_%H%M%S`.
 */
module Naming {
  import opened Text

  /** `\w` restricted to ASCII: letters, digits and `_`. */
  predicate IsWordChar(c: char)
  {
    'a' <= c <= 'z' || 'A' <= c <= 'Z' || '0' <= c <= '9' || c == '_'
  }

  /** The characters the class `[\w\-_.]` matches, which sanitising leaves alone. */
  predicate IsSafeChar(c: char)
  {
    IsWordChar(c) || c == '-' || c == '_' || c == '.'
  }

  predicate AllSafe(s: string)
  {
    forall i :: 0 <= i < |s| ==> IsSafeChar(s[i])
  }

  /** `re.sub(r'[^\w\-_.]', '_', s)`: every character outside the class becomes `_`. */
  function SafeName(s: string): string
  {
    if s == [] then [] else [if IsSafeChar(s[0]) then s[0] else '_'] + SafeName(s[1..])
  }

  /**
   * Sanitising keeps the length, keeps every allowed character where it is
   * and puts `_` in place of every other one.
   */
  lemma {:induction false} SafeNameShape(s: string)
    ensures |SafeName(s)| == |s|
    ensures forall i :: 0 <= i < |s| && IsSafeChar(s[i]) ==> SafeName(s)[i] == s[i]
    ensures forall i :: 0 <= i < |s| && !IsSafeChar(s[i]) ==> SafeName(s)[i] == '_'
  {
    if s != [] {
      SafeNameShape(s[1..]);
      assert forall i :: 1 <= i < |s| ==> SafeName(s)[i] == SafeName(s[1..])[i - 1];
    }
  }

  /** A sanitised name holds allowed characters only. */
  lemma SafeNameIsSafe(s: string)
    ensures AllSafe(SafeName(s))
  {
    SafeNameShape(s);
  }

  /** Sanitising changes a name exactly when it holds a character outside the class. */
  lemma SafeNameFixedPoints(s: string)
    ensures SafeName(s) == s <==> AllSafe(s)
  {
    SafeNameShape(s);
    if SafeName(s) == s {
      forall i | 0 <= i < |s| ensures IsSafeChar(s[i]) {
        assert SafeName(s)[i] == s[i];
      }
    }
  }

  /** Sanitising twice is sanitising once. */
  lemma SafeNameIdempotent(s: string)
    ensures SafeName(SafeName(s)) == SafeName(s)
  {
    SafeNameIsSafe(s);
    SafeNameFixedPoints(SafeName(s));
  }

  // ----- artifact names -----

  /** `strftime('%Y%m%d_%H%M%S')`: eight digits, `_`, six digits. */
  predicate IsTimestamp(stamp: string)
  {
    && |stamp| == 15
    && stamp[8] == '_'
    && forall i :: 0 <= i < 15 && i != 8 ==> '0' <= stamp[i] <= '9'
  }

  /** `<prefix>_<sanitised circular number>_<timestamp>.<extension>`. */
  function ArtifactName(prefix: string, circularNumber: string, stamp: string, extension: string): string
  {
    prefix + "_" + SafeName(circularNumber) + "_" + stamp + "." + extension
  }

  /** The PDF synthesized from an HTML-only circular. */
  function HtmlPdfName(circularNumber: string, stamp: string): string
  {
    ArtifactName("RBI_Circular", circularNumber, stamp, "pdf")
  }

  /** The HTML file saved when PDF synthesis is unavailable. */
  function HtmlFileName(circularNumber: string, stamp: string): string
  {
    ArtifactName("RBI_Circular", circularNumber, stamp, "html")
  }

  /** The checklist text file. */
  function ChecklistFileName(circularNumber: string, stamp: string): string
  {
    ArtifactName("RBI_Checklist", circularNumber, stamp, "txt")
  }

  /** A timestamp holds allowed characters only. */
  lemma TimestampIsSafe(stamp: string)
    requires IsTimestamp(stamp)
    ensures AllSafe(stamp)
  {
    forall i | 0 <= i < |stamp| ensures IsSafeChar(stamp[i]) {
      if i != 8 {
        assert '0' <= stamp[i] <= '9';
      }
    }
  }

  /** An artifact name is file-system safe whenever its prefix, timestamp and extension are. */
  lemma ArtifactNameIsSafe(prefix: string, circularNumber: string, stamp: string, extension: string)
    requires AllSafe(prefix) && AllSafe(stamp) && AllSafe(extension)
    ensures AllSafe(ArtifactName(prefix, circularNumber, stamp, extension))
  {
    SafeNameIsSafe(circularNumber);
    var name := ArtifactName(prefix, circularNumber, stamp, extension);
    var safe := SafeName(circularNumber);
    var a := prefix + "_";
    var b := a + safe + "_";
    var c := b + stamp + ".";
    assert name == c + extension;
    forall i | 0 <= i < |name| ensures IsSafeChar(name[i]) {
      if i < |prefix| {
        assert name[i] == prefix[i];
      } else if i < |a| {
        assert name[i] == '_';
      } else if i < |a| + |safe| {
        assert name[i] == safe[i - |a|];
      } else if i < |b| {
        assert name[i] == '_';
      } else if i < |b| + |stamp| {
        assert name[i] == stamp[i - |b|];
      } else if i < |c| {
        assert name[i] == '.';
      } else {
        assert name[i] == extension[i - |c|];
      }
    }
  }

  /** Both names a document synthesized from an HTML-only circular may get contain allowed characters only. */
  lemma CircularArtifactNamesAreSafe(circularNumber: string, stamp: string)
    requires IsTimestamp(stamp)
    ensures AllSafe(HtmlPdfName(circularNumber, stamp))
    ensures AllSafe(HtmlFileName(circularNumber, stamp))
  {
    TimestampIsSafe(stamp);
    assert AllSafe("RBI_Circular");
    assert AllSafe("pdf") && AllSafe("html");
    ArtifactNameIsSafe("RBI_Circular", circularNumber, stamp, "pdf");
    ArtifactNameIsSafe("RBI_Circular", circularNumber, stamp, "html");
  }

  /** The checklist file name contains allowed characters only. */
  lemma ChecklistFileNameIsSafe(circularNumber: string, stamp: string)
    requires IsTimestamp(stamp)
    ensures AllSafe(ChecklistFileName(circularNumber, stamp))
  {
    TimestampIsSafe(stamp);
    assert AllSafe("RBI_Checklist") && AllSafe("txt");
    ArtifactNameIsSafe("RBI_Checklist", circularNumber, stamp, "txt");
  }

  /**
   * With the prefix, the extension and the timestamp width fixed, a name
   * determines both the sanitised circular number and the timestamp.
   */
  lemma ArtifactNameDetermines(prefix: string, extension: string,
                               number1: string, stamp1: string, number2: string, stamp2: string)
    requires |stamp1| == |stamp2|
    requires ArtifactName(prefix, number1, stamp1, extension) == ArtifactName(prefix, number2, stamp2, extension)
    ensures SafeName(number1) == SafeName(number2) && stamp1 == stamp2
  {
    SafeNameShape(number1);
    SafeNameShape(number2);
    var s1, s2 := SafeName(number1), SafeName(number2);
    var head1, head2 := prefix + "_" + s1 + "_", prefix + "_" + s2 + "_";
    assert ArtifactName(prefix, number1, stamp1, extension) == (head1 + stamp1) + ("." + extension);
    assert ArtifactName(prefix, number2, stamp2, extension) == (head2 + stamp2) + ("." + extension);
    SplitEqual(head1 + stamp1, "." + extension, head2 + stamp2, "." + extension);
    SplitEqual(head1, stamp1, head2, stamp2);
    SplitEqual(prefix + "_" + s1, "_", prefix + "_" + s2, "_");
    SplitEqual(prefix + "_", s1, prefix + "_", s2);
  }

  /** Two concatenations that agree, with first parts of equal length, agree part by part. */
  lemma SplitEqual(a1: string, b1: string, a2: string, b2: string)
    requires |a1| == |a2| && a1 + b1 == a2 + b2
    ensures a1 == a2 && b1 == b2
  {
    assert a1 == (a1 + b1)[..|a1|];
    assert a2 == (a2 + b2)[..|a2|];
    assert b1 == (a1 + b1)[|a1|..];
    assert b2 == (a2 + b2)[|a2|..];
  }

  // ----- the name of a downloaded PDF -----

  /** The extension `download_pdf` forces on and strips again. */
  const PdfExtension := ".pdf"

  /** The extension in upper case, as some circular links spell it. */
  const UpperPdfExtension := ".PDF"

  /** `url_path.split('/')[-1].split('?')[0]`: the last path segment, cut at any `?`. */
  function LastSegment(urlPath: string): string
  {
    Before(AfterLast(urlPath, "/"), "?")
  }

  /** The segment, or the fallback name when it is empty, with `.pdf` appended unless it already ends so in any case. */
  function WithPdfExtension(segment: string, stamp: string): string
  {
    var fname := if segment == "" then "rbi_circular_" + stamp + ".pdf" else segment;
    if EndsWith(Lower(fname), PdfExtension) then fname else fname + PdfExtension
  }

  /** `f"{stem}_{timestamp}.pdf"`. */
  function Stamped(stem: string, stamp: string): string
  {
    stem + "_" + stamp + PdfExtension
  }

  /**
   * The name stored for a last segment, as the code derives it: the text
   * before the last `.pdf` (compared case-sensitively), then `_`, the
   * timestamp and `.pdf`.
   */
  function StoredName(segment: string, stamp: string): string
  {
    Stamped(BeforeLast(WithPdfExtension(segment, stamp), PdfExtension), stamp)
  }

  /** The name as evidently intended: the extension just tested for, in whatever case, is replaced. */
  function StoredNameCorrected(segment: string, stamp: string): string
  {
    var fname := WithPdfExtension(segment, stamp);
    if |fname| < 4 then Stamped(fname, stamp) else Stamped(fname[..|fname| - 4], stamp)
  }

  /** The name `download_pdf` stores the PDF at `urlPath` under. */
  function DownloadFileName(urlPath: string, stamp: string): string
  {
    StoredName(LastSegment(urlPath), stamp)
  }

  /** The same, with the extension stripped in any case. */
  function DownloadFileNameCorrected(urlPath: string, stamp: string): string
  {
    StoredNameCorrected(LastSegment(urlPath), stamp)
  }

  lemma LowerOfExtension()
    ensures Lower(PdfExtension) == PdfExtension
  {
    LowerFixes(PdfExtension);
  }

  /** Lower-casing `.PDF` gives the extension. */
  lemma LowerOfUpperExtension()
    ensures Lower(UpperPdfExtension) == PdfExtension
  {
  }

  /** A name ending in lower-case `.pdf` passes the case-insensitive ending test. */
  lemma EndsWithPdfLower(s: string)
    requires EndsWith(s, PdfExtension)
    ensures EndsWith(Lower(s), PdfExtension)
  {
    LowerSlice(s, |s| - 4, |s|);
    LowerOfExtension();
  }

  /** The forced name always ends with the extension, in some letter case. */
  lemma WithPdfExtensionEnds(segment: string, stamp: string)
    ensures |WithPdfExtension(segment, stamp)| >= 4
    ensures EndsWith(Lower(WithPdfExtension(segment, stamp)), PdfExtension)
  {
    var fname := if segment == "" then "rbi_circular_" + stamp + ".pdf" else segment;
    if !EndsWith(Lower(fname), PdfExtension) {
      EndsWithPdfLower(fname + PdfExtension);
    }
  }

  /** A stamped name ends with `_<timestamp>.pdf`, whatever its stem. */
  lemma StampedEnding(stem: string, stamp: string)
    ensures EndsWith(Stamped(stem, stamp), "_" + stamp + PdfExtension)
  {
    assert Stamped(stem, stamp) == stem + ("_" + stamp + PdfExtension);
  }

  /** Whatever the segment, the stored name ends with `_<timestamp>.pdf`. */
  lemma StoredNameEnding(segment: string, stamp: string)
    ensures EndsWith(StoredName(segment, stamp), "_" + stamp + PdfExtension)
    ensures EndsWith(StoredNameCorrected(segment, stamp), "_" + stamp + PdfExtension)
  {
    var fname := WithPdfExtension(segment, stamp);
    WithPdfExtensionEnds(segment, stamp);
    StampedEnding(BeforeLast(fname, PdfExtension), stamp);
    StampedEnding(fname[..|fname| - 4], stamp);
  }

  /** However the URL path looks, the stored name ends with `_<timestamp>.pdf`. */
  lemma DownloadFileNameEnding(urlPath: string, stamp: string)
    ensures EndsWith(DownloadFileName(urlPath, stamp), "_" + stamp + PdfExtension)
    ensures EndsWith(DownloadFileNameCorrected(urlPath, stamp), "_" + stamp + PdfExtension)
  {
    StoredNameEnding(LastSegment(urlPath), stamp);
  }

  /** The last occurrence of `.pdf` in `s + ".pdf"` is the one appended. */
  lemma LastPdfIsAppended(s: string)
    ensures BeforeLast(s + PdfExtension, PdfExtension) == s
  {
    var t := s + PdfExtension;
    assert OccursAt(t, PdfExtension, |s|);
    var r := BeforeLast(t, PdfExtension);
    assert OccursAt(t, PdfExtension, |r|);
  }

  /**
   * A non-empty segment that does not end in `.pdf` (in any case) is kept
   * whole and gets `_<timestamp>.pdf` after it.
   */
  lemma StoredNameOfOtherSegment(segment: string, stamp: string)
    requires segment != ""
    requires !EndsWith(Lower(segment), PdfExtension)
    ensures StoredName(segment, stamp) == Stamped(segment, stamp)
    ensures StoredNameCorrected(segment, stamp) == Stamped(segment, stamp)
  {
    assert WithPdfExtension(segment, stamp) == segment + PdfExtension;
    LastPdfIsAppended(segment);
    assert (segment + PdfExtension)[..|segment|] == segment;
  }

  /** A segment ending in lower-case `.pdf` loses that extension before the timestamp goes in. */
  lemma StoredNameOfPdfSegment(segment: string, stamp: string)
    requires EndsWith(segment, PdfExtension)
    ensures StoredName(segment, stamp) == Stamped(segment[..|segment| - 4], stamp)
    ensures StoredName(segment, stamp) == StoredNameCorrected(segment, stamp)
  {
    EndsWithPdfLower(segment);
    assert WithPdfExtension(segment, stamp) == segment;
    var stem := segment[..|segment| - 4];
    assert segment == stem + PdfExtension;
    LastPdfIsAppended(stem);
  }

  /** An empty segment falls back to `rbi_circular_<timestamp>`, then gets the timestamp again. */
  lemma StoredNameOfEmptySegment(stamp: string)
    ensures StoredName("", stamp) == Stamped("rbi_circular_" + stamp, stamp)
  {
    var stem := "rbi_circular_" + stamp;
    var fname := "rbi_circular_" + stamp + ".pdf";
    assert fname == stem + PdfExtension;
    EndsWithPdfLower(fname);
    assert WithPdfExtension("", stamp) == fname;
    LastPdfIsAppended(stem);
  }

  /**
   * The corrected name strips the extension in any letter case: a
   * non-empty segment ending so loses its last four characters.
   */
  lemma StoredNameCorrectedStripsAnyCase(segment: string, stamp: string)
    requires segment != ""
    requires EndsWith(Lower(segment), PdfExtension)
    ensures StoredNameCorrected(segment, stamp) == Stamped(segment[..|segment| - 4], stamp)
  {
    assert WithPdfExtension(segment, stamp) == segment;
  }

  /** Appending `.PDF` creates no lower-case `.pdf`: its last letter is never `f`. */
  lemma UpperExtensionAddsNoMatch(stem: string)
    requires !Contains(stem, PdfExtension)
    ensures !Contains(stem + UpperPdfExtension, PdfExtension)
  {
    var t := stem + UpperPdfExtension;
    forall j ensures !OccursAt(t, PdfExtension, j) {
      if 0 <= j && j + 4 <= |t| {
        if j + 4 <= |stem| {
          OccursAtPrefix(t, PdfExtension, |stem|, j);
          assert t[..|stem|] == stem;
        } else {
          assert t[j..j + 4][3] == t[j + 3];
          assert t[j + 3] == UpperPdfExtension[j + 3 - |stem|];
        }
      }
    }
  }

  /**
   * As written, a segment ending in `.PDF` keeps that extension inside the
   * stored name, because `rsplit('.pdf', 1)` matches case-sensitively
   * although the ending test lower-cases first; the corrected name drops it.
   */
  lemma StoredNameKeepsUpperCaseExtension(stem: string, stamp: string)
    requires !Contains(stem, PdfExtension)
    ensures StoredName(stem + UpperPdfExtension, stamp) == Stamped(stem + UpperPdfExtension, stamp)
    ensures StoredNameCorrected(stem + UpperPdfExtension, stamp) == Stamped(stem, stamp)
  {
    var segment := stem + UpperPdfExtension;
    LowerSlice(segment, |stem|, |segment|);
    assert segment[|stem|..] == UpperPdfExtension;
    LowerOfUpperExtension();
    assert WithPdfExtension(segment, stamp) == segment;
    UpperExtensionAddsNoMatch(stem);
    assert segment[..|segment| - 4] == stem;
  }

  /** The text after the last one-character separator of `a + sep + b` is `b` when `b` holds none. */
  lemma AfterLastOfJoin(a: string, sep: string, b: string)
    requires |sep| == 1 && !Contains(b, sep)
    ensures AfterLast(a + sep + b, sep) == b
  {
    var s := a + sep + b;
    assert OccursAt(s, sep, |a|);
    var r := AfterLast(s, sep);
    var p := |s| - |r| - 1;
    assert |a| <= p;
    assert s[|a| + 1..] == b;
    forall j | 0 <= j ensures OccursAt(b, sep, j) <==> OccursAt(s, sep, |a| + 1 + j) {
      OccursAtSuffix(s, sep, |a| + 1, j);
    }
    assert p > |a| ==> OccursAt(b, sep, p - |a| - 1);
  }

  /** The example's last segment holds neither `/` nor `?`. */
  lemma ExampleSegmentHasNoSlashOrQuery()
    ensures !Contains("NT12.PDF", "/") && !Contains("NT12.PDF", "?")
  {
    var segment := "NT12.PDF";
    forall j ensures !OccursAt(segment, "/", j) && !OccursAt(segment, "?", j) {
      if 0 <= j < |segment| {
        assert segment[j..j + 1][0] == segment[j];
      }
    }
  }

  /**
   * A concrete path whose PDF is stored as `NT12.PDF_<timestamp>.pdf`: its
   * last segment is `NT12` followed by `.PDF`, and `NT12` holds no `.pdf`.
   */
  lemma UpperCaseExtensionExample()
    ensures LastSegment("/rdocs/notification/PDFs/NT12.PDF") == "NT12" + UpperPdfExtension
    ensures !Contains("NT12", PdfExtension)
  {
    var segment := "NT12.PDF";
    assert segment == "NT12" + UpperPdfExtension;
    assert "NT12"[0] != PdfExtension[0];
    assert !OccursAt("NT12", PdfExtension, 0);
    assert "/rdocs/notification/PDFs/NT12.PDF" == "/rdocs/notification/PDFs" + "/" + segment;
    ExampleSegmentHasNoSlashOrQuery();
    AfterLastOfJoin("/rdocs/notification/PDFs", "/", segment);
  }
}
