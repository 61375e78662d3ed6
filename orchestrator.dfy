/**
 * One run of the checker: skip a circular already handled, obtain a local
 * document for a new one, upload it, build and upload a checklist, notify,
 * and only then record the circular as handled. Every external call is an
 * oracle whose outcome is an input; the stored last circular number, the
 * contents of the state file, is `Option<string>` (`None` when the file does
 * not exist).
 */
module Orchestrator {
  import opened Base
  import opened IndexParser
  import opened Resolver
  import Text
  import PdfCheck

  /**
   * With the PDF check as its validation, every URL the resolver collects got
   * a 200 answer to its HEAD request whose content type names `pdf` in some
   * letter case.
   */
  lemma CollectedUrlsPassTheHeadCheck(base: string, page: RenderedPage, head: string -> PdfCheck.HeadResult,
                                      join: (string, string) -> string, u: string)
    requires u in Collected(base, page, url => PdfCheck.CheckPdfUrlExists(head, url), join)
    ensures head(u).Response? && head(u).status == 200
    ensures exists i :: Text.OccursAtIgnoringCase(PdfCheck.ContentTypeOf(head(u)), "pdf", i)
  {
    CollectedProvenance(base, page, url => PdfCheck.CheckPdfUrlExists(head, url), join, u);
    PdfCheck.PdfResponseIff(head(u));
  }

  /** The outcomes of the external calls one run makes. */
  datatype RunInputs = RunInputs(
    latest: Option<LatestInfo>,          // the latest circular, absent when the index yields none
    resolution: Resolution,              // what the circular's own page resolved to
    downloadedPath: Option<string>,      // where the PDF was saved, absent when the download failed
    extractedText: Option<string>,       // text of the saved PDF, absent when extraction raised
    synthesizedPath: Option<string>,     // the document made from an HTML-only page, if made
    hasCredentialsFile: bool,            // whether `credentials.json` exists
    authenticated: bool,                 // whether authentication produced credentials
    circularLink: Option<string>,        // the shareable link of the uploaded circular
    checklistPath: Option<string>,       // the checklist file written from the content, if any
    checklistLink: Option<string>)       // the shareable link of the uploaded checklist

  /** How a run ends: the early exits of the main routine, in order, then success. */
  datatype Status =
    | NoLatestCircular
    | AlreadyProcessed
    | NoDocument
    | NoLocalFile
    | NoCredentials
    | AuthenticationFailed
    | UploadFailed
    | Completed

  /** The externally visible actions of a run, in the order they happen. */
  datatype Step =
    | Download(url: string)
    | ExtractText(path: string)
    | Synthesize
    | Upload(path: string)
    | GenerateChecklist
    | Notify(circularLink: string, checklistLink: Option<string>)
    | SaveState(circularId: string)

  datatype RunResult = RunResult(state: Option<string>, steps: seq<Step>, status: Status)

  /** The branch the main routine takes on the first element of the resolver's pair. */
  datatype Route = DownloadRoute(url: string) | HtmlRoute | Abort

  /** The `(pdf_url, html_content)` pair the resolver returns. */
  function AsPair(r: Resolution): (Option<string>, Option<string>)
  {
    match r
    case PdfUrl(url) => (Some(url), None)
    case HtmlOnly(body) => (Some(HtmlOnlyMarker), Some(body))
    case NotResolved => (None, None)
  }

  /** A truthy URL other than the marker is downloaded; the marker means HTML; anything else aborts. */
  function RouteOf(pdfUrl: Option<string>): Route
  {
    if Truthy(pdfUrl) && pdfUrl.value != HtmlOnlyMarker then DownloadRoute(pdfUrl.value)
    else if pdfUrl == Some(HtmlOnlyMarker) then HtmlRoute
    else Abort
  }

  /**
   * Passing the resolution through the pair loses nothing: a PDF URL that
   * is neither empty nor the marker is downloaded, an HTML-only page is
   * converted, and a page that could not be rendered ends the run.
   */
  lemma RouteMatchesResolution(r: Resolution)
    ensures r.PdfUrl? && r.url != "" && r.url != HtmlOnlyMarker ==> RouteOf(AsPair(r).0) == DownloadRoute(r.url)
    ensures r.HtmlOnly? ==> RouteOf(AsPair(r).0) == HtmlRoute && AsPair(r).1 == Some(r.body)
    ensures r.NotResolved? ==> RouteOf(AsPair(r).0) == Abort
    ensures RouteOf(AsPair(r).0) == HtmlRoute ==> r.HtmlOnly? || r == PdfUrl(HtmlOnlyMarker)
  {
  }

  /** The local document, the text for the checklist and the steps taken to get them. */
  datatype Prepared = Prepared(steps: seq<Step>, localPath: Option<string>, content: Option<string>)

  /** Step 3 of a run: download the PDF and read its text, or convert the HTML body. */
  function Prepare(route: Route, html: Option<string>, io: RunInputs): Prepared
    requires !route.Abort?
  {
    match route
    case DownloadRoute(url) =>
      if Truthy(io.downloadedPath) then
        Prepared([Download(url), ExtractText(io.downloadedPath.value)], io.downloadedPath, io.extractedText)
      else
        Prepared([Download(url)], io.downloadedPath, None)
    case HtmlRoute => Prepared([Synthesize], io.synthesizedPath, html)
  }

  /** The checklist steps, taken only when there is content to build it from. */
  function ChecklistSteps(content: Option<string>, io: RunInputs): seq<Step>
  {
    if !Truthy(content) then []
    else if Truthy(io.checklistPath) then [GenerateChecklist, Upload(io.checklistPath.value)]
    else [GenerateChecklist]
  }

  /** The checklist link the notification carries. */
  function ChecklistLinkOf(content: Option<string>, io: RunInputs): Option<string>
  {
    if Truthy(content) && Truthy(io.checklistPath) then io.checklistLink else None
  }

  /** Steps 4 to 8 of a run, once a document has been sought. */
  function Deliver(last: Option<string>, id: string, p: Prepared, io: RunInputs): RunResult
  {
    if !Truthy(p.localPath) then RunResult(last, p.steps, NoLocalFile)
    else if !io.hasCredentialsFile then RunResult(last, p.steps, NoCredentials)
    else if !io.authenticated then RunResult(last, p.steps, AuthenticationFailed)
    else
      var uploaded := p.steps + [Upload(p.localPath.value)];
      if !Truthy(io.circularLink) then RunResult(last, uploaded, UploadFailed)
      else
        var notify := Notify(io.circularLink.value, ChecklistLinkOf(p.content, io));
        RunResult(Some(id), uploaded + ChecklistSteps(p.content, io) + [notify, SaveState(id)], Completed)
  }

  /** One run, from the stored last circular number to the new one, the steps taken and the outcome. */
  function Run(last: Option<string>, io: RunInputs): RunResult
  {
    if io.latest.None? then RunResult(last, [], NoLatestCircular)
    else
      var id := io.latest.value.summary.circularNumber;
      if Some(id) == last then RunResult(last, [], AlreadyProcessed)
      else
        var pair := AsPair(io.resolution);
        var route := RouteOf(pair.0);
        if route.Abort? then RunResult(last, [], NoDocument)
        else Deliver(last, id, Prepare(route, pair.1, io), io)
  }

  /** The circular number a run works on, when there is one. */
  function CurrentId(io: RunInputs): string
    requires io.latest.Some?
  {
    io.latest.value.summary.circularNumber
  }

  /**
   * The stored number changes only when a run completes, and then becomes
   * the number of the circular just handled; saving it is the last step,
   * taken exactly once, and no other outcome saves anything.
   */
  lemma StateWrittenOnlyAtTheEnd(last: Option<string>, io: RunInputs)
    ensures var r := Run(last, io);
      r.state == (if r.status == Completed then Some(CurrentId(io)) else last)
    ensures var r := Run(last, io);
      r.status == Completed ==> |r.steps| > 0 && r.steps[|r.steps| - 1] == SaveState(CurrentId(io))
    ensures var r := Run(last, io);
      forall i :: 0 <= i < |r.steps| && r.steps[i].SaveState? ==> r.status == Completed && i == |r.steps| - 1
  {
    var r := Run(last, io);
    if io.latest.Some? && Some(CurrentId(io)) != last && !RouteOf(AsPair(io.resolution).0).Abort? {
      var p := Prepare(RouteOf(AsPair(io.resolution).0), AsPair(io.resolution).1, io);
      assert forall i :: 0 <= i < |p.steps| ==> !p.steps[i].SaveState?;
      assert forall i :: 0 <= i < |ChecklistSteps(p.content, io)| ==> !ChecklistSteps(p.content, io)[i].SaveState?;
    }
  }

  /**
   * A run completes exactly when there is a new circular, it resolves to
   * something, a local document exists, credentials exist and authenticate,
   * and the upload yields a link; whether the notification is delivered
   * plays no part.
   */
  lemma CompletionCondition(last: Option<string>, io: RunInputs)
    ensures Run(last, io).status == Completed <==>
      && io.latest.Some?
      && Some(CurrentId(io)) != last
      && !RouteOf(AsPair(io.resolution).0).Abort?
      && Truthy(Prepare(RouteOf(AsPair(io.resolution).0), AsPair(io.resolution).1, io).localPath)
      && io.hasCredentialsFile && io.authenticated
      && Truthy(io.circularLink)
  {
  }

  /** A circular whose number is already stored is skipped with no step at all and no change. */
  lemma AlreadyProcessedIsSkipped(last: Option<string>, io: RunInputs)
    requires io.latest.Some? && last == Some(CurrentId(io))
    ensures Run(last, io) == RunResult(last, [], AlreadyProcessed)
  {
  }

  /** A run reports the circular as already processed only when its number is the stored one. */
  lemma AlreadyProcessedOnlyWhenStored(last: Option<string>, io: RunInputs)
    requires Run(last, io).status == AlreadyProcessed
    ensures io.latest.Some? && last == Some(CurrentId(io))
  {
  }

  /**
   * After a completed run, a second run that sees the same latest
   * circular does nothing, whatever its other calls would return.
   */
  lemma SecondRunIsNoOp(last: Option<string>, io: RunInputs, next: RunInputs)
    requires Run(last, io).status == Completed
    requires next.latest.Some? && io.latest.Some? && CurrentId(next) == CurrentId(io)
    ensures Run(Run(last, io).state, next) == RunResult(Run(last, io).state, [], AlreadyProcessed)
  {
    StateWrittenOnlyAtTheEnd(last, io);
  }

  /**
   * Nothing is uploaded without credentials that authenticate, and a PDF
   * is downloaded only on the download route, an HTML body converted only
   * on the HTML route.
   */
  lemma StepsFollowRoute(last: Option<string>, io: RunInputs)
    ensures forall i :: 0 <= i < |Run(last, io).steps| && Run(last, io).steps[i].Upload? ==>
      io.hasCredentialsFile && io.authenticated
    ensures forall i :: 0 <= i < |Run(last, io).steps| && Run(last, io).steps[i].Download? ==>
      RouteOf(AsPair(io.resolution).0) == DownloadRoute(Run(last, io).steps[i].url)
    ensures forall i :: 0 <= i < |Run(last, io).steps| && Run(last, io).steps[i].Synthesize? ==>
      io.resolution.HtmlOnly? || io.resolution == PdfUrl(HtmlOnlyMarker)
  {
    var r := Run(last, io);
    if io.latest.Some? && Some(CurrentId(io)) != last && !RouteOf(AsPair(io.resolution).0).Abort? {
      var route := RouteOf(AsPair(io.resolution).0);
      var p := Prepare(route, AsPair(io.resolution).1, io);
      RouteMatchesResolution(io.resolution);
      assert forall i :: 0 <= i < |p.steps| && p.steps[i].Download? ==> route == DownloadRoute(p.steps[i].url);
      assert forall i :: 0 <= i < |p.steps| && p.steps[i].Synthesize? ==> route == HtmlRoute;
      assert forall i :: 0 <= i < |p.steps| ==> !p.steps[i].Upload?;
      var c := ChecklistSteps(p.content, io);
      assert forall i :: 0 <= i < |c| ==> !c[i].Download? && !c[i].Synthesize?;
    }
  }

  /** The checker and its state file. */
  class CircularChecker {
    /** The contents of the state file: the number of the last circular handled. */
    var lastCircularId: Option<string>

    constructor(stored: Option<string>)
      ensures lastCircularId == stored
    {
      lastCircularId := stored;
    }

    /** One run of the main routine; the state is written once, as its last action. */
    method RunOnce(io: RunInputs) returns (status: Status, steps: seq<Step>)
      modifies this
      ensures lastCircularId == Run(old(lastCircularId), io).state
      ensures steps == Run(old(lastCircularId), io).steps
      ensures status == Run(old(lastCircularId), io).status
    {
      steps := [];
      var last := lastCircularId;
      if io.latest.None? {
        return NoLatestCircular, steps;
      }
      var current := io.latest.value.summary.circularNumber;
      if Some(current) == last {
        return AlreadyProcessed, steps;
      }
      var pair := AsPair(io.resolution);
      var pdfUrl, html := pair.0, pair.1;
      var localPath: Option<string> := None;
      var content: Option<string> := None;
      if Truthy(pdfUrl) && pdfUrl.value != HtmlOnlyMarker {
        steps := steps + [Download(pdfUrl.value)];
        localPath := io.downloadedPath;
        if Truthy(localPath) {
          steps := steps + [ExtractText(localPath.value)];
          content := io.extractedText;
        }
      } else if pdfUrl == Some(HtmlOnlyMarker) {
        steps := steps + [Synthesize];
        localPath := io.synthesizedPath;
        content := html;
      } else {
        return NoDocument, steps;
      }
      if !Truthy(localPath) {
        return NoLocalFile, steps;
      }
      if !io.hasCredentialsFile {
        return NoCredentials, steps;
      }
      if !io.authenticated {
        return AuthenticationFailed, steps;
      }
      steps := steps + [Upload(localPath.value)];
      if !Truthy(io.circularLink) {
        return UploadFailed, steps;
      }
      var checklistLink: Option<string> := None;
      if Truthy(content) {
        steps := steps + [GenerateChecklist];
        if Truthy(io.checklistPath) {
          steps := steps + [Upload(io.checklistPath.value)];
          checklistLink := io.checklistLink;
        }
      }
      steps := steps + [Notify(io.circularLink.value, checklistLink), SaveState(current)];
      lastCircularId := Some(current);
      status := Completed;
    }
  }
}
