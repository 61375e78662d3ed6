/**
 * Artifact resolution for one circular's detail page: the PDF links the
 * rendered page exposes, the URLs guessed from the circular's identifier
 * when the page exposes none, and the HTML-only fallback.
 *
 * The rendered page, validation and `urljoin` are inputs: `valid` is the
 * answer of `check_pdf_url_exists` for a URL, whose decision rule is
 * `PdfCheck.CheckPdfUrlExists` over the HEAD outcome. The priority order,
 * the filters and the outcome are modelled.
 */
module Resolver {
  import opened Base
  import opened Text

  /** An `object`, `iframe` or `embed` element: its `src` and `data` attributes. */
  datatype EmbedTag = EmbedTag(src: Option<string>, data: Option<string>)

  /** A detail page after rendering. */
  datatype RenderedPage = RenderedPage(
    anchorHrefs: seq<string>,  // `href` of every anchor that has one, in document order
    embeds: seq<EmbedTag>,     // every object/iframe/embed element, in document order
    body: string)              // inner HTML of the page's body

  /** What resolution yields. */
  datatype Resolution =
    | PdfUrl(url: string)   // a validated PDF to download
    | HtmlOnly(body: string) // no PDF found: the page body is the document
    | NotResolved           // the browser could not be started or the page not loaded

  /** The marker the resolver returns in place of a URL for an HTML-only circular. */
  const HtmlOnlyMarker := "HTML_ONLY"

  /** Query marker that precedes a circular's identifier in a detail-page URL. */
  const IdMarker := "?Id="

  // ----- the circular identifier -----

  /**
   * `url.split('?Id=')[1].split('&')[0]` when the URL holds `?Id=`: the text
   * after the first marker, up to the next `&` or the next marker.
   */
  function CircularId(url: string): (r: Option<string>)
    ensures r.None? <==> !Contains(url, IdMarker)
  {
    if Contains(url, IdMarker) then Some(Before(Before(After(url, IdMarker), IdMarker), "&"))
    else None
  }

  /** Where the identifier starts: just after the first `?Id=`. */
  function IdStart(url: string): nat
    requires Contains(url, IdMarker)
  {
    IndexOf(url, IdMarker).value + |IdMarker|
  }

  /**
   * The identifier is the run of text right after the first `?Id=` of the URL;
   * it holds no `&` and no further `?Id=`, and it ends where the URL ends or
   * where an `&` or another `?Id=` begins.
   */
  lemma CircularIdShape(url: string, id: string)
    requires CircularId(url) == Some(id)
    ensures Contains(url, IdMarker)
    ensures IdStart(url) + |id| <= |url|
    ensures url[IdStart(url)..IdStart(url) + |id|] == id
    ensures IdStart(url) + |id| == |url| || url[IdStart(url) + |id|] == '&' || OccursAt(url, IdMarker, IdStart(url) + |id|)
    ensures !Contains(id, "&") && !Contains(id, IdMarker)
  {
    var start := IdStart(url);
    var rest := After(url, IdMarker);
    var t := Before(rest, IdMarker);
    IdWithinRest(rest, t, id);
    assert rest == url[start..];
    SliceOfSuffix(url, start, |id|);
    assert url[start..start + |id|] == rest[..|id|];
    if id != t {
      assert url[start + |id|] == rest[|id|];
    } else if t != rest {
      assert OccursAt(rest, IdMarker, |t|);
      OccursAtSuffix(url, IdMarker, start, |t|);
      assert OccursAt(url, IdMarker, start + |id|);
    } else {
      assert start + |id| == |url|;
    }
  }

  /** Indexing into a suffix of `s` is indexing into `s`, shifted. */
  lemma SliceOfSuffix(s: string, start: nat, n: nat)
    requires start + n <= |s|
    ensures s[start..][..n] == s[start..start + n]
    ensures start + n < |s| ==> s[start..][n] == s[start + n]
  {
  }

  /** The two cuts that produce the identifier, as facts about the text after the marker. */
  lemma IdWithinRest(rest: string, t: string, id: string)
    requires t == Before(rest, IdMarker) && id == Before(t, "&")
    ensures |id| <= |rest| && rest[..|id|] == id
    ensures !Contains(id, "&") && !Contains(id, IdMarker)
    ensures id == t || rest[|id|] == '&'
    ensures id == t ==> t == rest || OccursAt(rest, IdMarker, |t|)
  {
    assert id <= t <= rest;
    forall j ensures !OccursAt(id, IdMarker, j) {
      OccursAtPrefix(t, IdMarker, |id|, j);
      assert t[..|id|] == id;
    }
    if id != t {
      assert OccursAt(t, "&", |id|);
      assert t[|id|..|id| + 1] == "&";
      assert rest[|id|] == t[|id|];
    }
  }

  // ----- URLs guessed from the identifier -----

  const ContentPdfPrefix := "https://rbidocs.rbi.org.in/rdocs/content/pdfs/"
  const PressReleasePrefix := "https://www.rbi.org.in/Scripts/BS_PressReleaseDisplay.aspx?prid="
  const CircularPdfPrefix := "https://rbidocs.rbi.org.in/rdocs/circulars/"

  /** The three likely download locations of a circular, in the order they are tried. */
  function GeneratePdfUrls(id: string): (urls: seq<string>)
    ensures |urls| == 3
  {
    [ContentPdfPrefix + id + ".pdf", PressReleasePrefix + id, CircularPdfPrefix + id + ".pdf"]
  }

  /**
   * Each guess embeds the identifier; the three are pairwise different
   * whatever the identifier; different identifiers give different guesses.
   */
  lemma GeneratedUrlsProperties(id: string, other: string)
    ensures forall k :: 0 <= k < 3 ==> Contains(GeneratePdfUrls(id)[k], id)
    ensures var urls := GeneratePdfUrls(id);
      urls[0] != urls[1] && urls[1] != urls[2] && urls[0] != urls[2]
    ensures GeneratePdfUrls(id) == GeneratePdfUrls(other) ==> id == other
  {
    var urls := GeneratePdfUrls(id);
    assert OccursAt(urls[0], id, |ContentPdfPrefix|);
    assert OccursAt(urls[1], id, |PressReleasePrefix|);
    assert OccursAt(urls[2], id, |CircularPdfPrefix|);
    assert |urls[0]| == |id| + 50 && |urls[1]| == |id| + 64 && |urls[2]| == |id| + 47;
    if GeneratePdfUrls(id) == GeneratePdfUrls(other) {
      assert id == urls[1][|PressReleasePrefix|..];
      assert other == GeneratePdfUrls(other)[1][|PressReleasePrefix|..];
    }
  }

  /** The first URL of `urls` that validates, if any. */
  function FirstAccepted(urls: seq<string>, valid: string -> bool): (r: Option<string>)
    ensures r.None? <==> forall k :: 0 <= k < |urls| ==> !valid(urls[k])
    ensures r.Some? ==>
      exists k :: 0 <= k < |urls| && urls[k] == r.value && valid(urls[k])
        && forall j :: 0 <= j < k ==> !valid(urls[j])
  {
    if urls == [] then None
    else if valid(urls[0]) then Some(urls[0])
    else
      var r := FirstAccepted(urls[1..], valid);
      assert forall k :: 1 <= k < |urls| ==> urls[k] == urls[1..][k - 1];
      if r.Some? then
        var k :| 0 <= k < |urls[1..]| && urls[1..][k] == r.value && valid(urls[1..][k])
          && forall j :: 0 <= j < k ==> !valid(urls[1..][j]);
        assert urls[k + 1] == r.value;
        r
      else r
  }

  // ----- candidates found on the page -----

  /** Anchor filter: the link ends in `.pdf` and does not mention `utkarsh`, both in any case. */
  predicate AnchorAccepted(href: string)
  {
    EndsWith(Lower(href), ".pdf") && !Contains(Lower(href), "utkarsh")
  }

  /** `tag.get('src') or tag.get('data')`, with an absent value read as the empty string. */
  function EmbedSource(tag: EmbedTag): string
  {
    if tag.src.Some? && tag.src.value != "" then tag.src.value
    else if tag.data.Some? then tag.data.value
    else ""
  }

  function EmbedSources(tags: seq<EmbedTag>): seq<string>
  {
    seq(|tags|, i requires 0 <= i < |tags| => EmbedSource(tags[i]))
  }

  /** Embedded-object filter: a non-empty source mentioning `.pdf` and not `utkarsh`, in any case. */
  predicate EmbedAccepted(src: string)
  {
    src != "" && Contains(Lower(src), ".pdf") && !Contains(Lower(src), "utkarsh")
  }

  /**
   * The URLs collected from `sources`, in order: each source that passes
   * `accepts`, resolved against `base`, kept when it validates.
   */
  function Validated(base: string, sources: seq<string>, accepts: string -> bool,
                     valid: string -> bool, join: (string, string) -> string): seq<string>
  {
    if sources == [] then []
    else
      var src := sources[|sources| - 1];
      var url := join(base, src);
      Validated(base, sources[..|sources| - 1], accepts, valid, join)
        + (if accepts(src) && valid(url) then [url] else [])
  }

  /** Extending the scanned prefix by one source adds that source's URL exactly when it passes and validates. */
  lemma ValidatedStep(base: string, sources: seq<string>, i: nat, accepts: string -> bool,
                      valid: string -> bool, join: (string, string) -> string)
    requires i < |sources|
    ensures Validated(base, sources[..i + 1], accepts, valid, join)
         == Validated(base, sources[..i], accepts, valid, join)
          + (if accepts(sources[i]) && valid(join(base, sources[i])) then [join(base, sources[i])] else [])
  {
    assert sources[..i + 1][..i] == sources[..i];
  }

  /** `u` is what source `i` of `sources` resolves to, and that source passes `accepts`. */
  predicate ResolvedFrom(base: string, sources: seq<string>, accepts: string -> bool,
                         join: (string, string) -> string, u: string, i: int)
  {
    0 <= i < |sources| && accepts(sources[i]) && u == join(base, sources[i])
  }

  /** Every URL collected from `sources` validates and is the resolved form of a source that passes the filter. */
  lemma {:induction false} ValidatedHasSource(base: string, sources: seq<string>, accepts: string -> bool,
                                            valid: string -> bool, join: (string, string) -> string, u: string)
    requires u in Validated(base, sources, accepts, valid, join)
    ensures valid(u) && exists i :: ResolvedFrom(base, sources, accepts, join, u, i)
  {
    var n := |sources| - 1;
    var init := sources[..n];
    if u in Validated(base, init, accepts, valid, join) {
      ValidatedHasSource(base, init, accepts, valid, join, u);
      var i :| ResolvedFrom(base, init, accepts, join, u, i);
      assert init[i] == sources[i];
      assert ResolvedFrom(base, sources, accepts, join, u, i);
    } else {
      assert ResolvedFrom(base, sources, accepts, join, u, n);
    }
  }

  /** Every source that passes the filter and whose resolved URL validates is collected. */
  lemma {:induction false} SourceIsValidated(base: string, sources: seq<string>, accepts: string -> bool,
                                           valid: string -> bool, join: (string, string) -> string, u: string, i: int)
    requires valid(u) && ResolvedFrom(base, sources, accepts, join, u, i)
    ensures u in Validated(base, sources, accepts, valid, join)
  {
    var n := |sources| - 1;
    var init := sources[..n];
    if i < n {
      assert init[i] == sources[i];
      SourceIsValidated(base, init, accepts, valid, join, u, i);
    }
  }

  /**
   * A URL is collected from `sources` exactly when it is the resolved form of
   * a source that passes the filter, and it validates.
   */
  lemma ValidatedMembership(base: string, sources: seq<string>, accepts: string -> bool,
                            valid: string -> bool, join: (string, string) -> string, u: string)
    ensures u in Validated(base, sources, accepts, valid, join) <==>
      valid(u) && exists i :: ResolvedFrom(base, sources, accepts, join, u, i)
  {
    if u in Validated(base, sources, accepts, valid, join) {
      ValidatedHasSource(base, sources, accepts, valid, join, u);
    }
    if valid(u) && exists i :: ResolvedFrom(base, sources, accepts, join, u, i) {
      var i :| ResolvedFrom(base, sources, accepts, join, u, i);
      SourceIsValidated(base, sources, accepts, valid, join, u, i);
    }
  }

  /** What the page itself yields: validated anchor links first, then validated embedded sources. */
  function PageCandidates(base: string, page: RenderedPage,
                          valid: string -> bool, join: (string, string) -> string): seq<string>
  {
    Validated(base, page.anchorHrefs, AnchorAccepted, valid, join)
      + Validated(base, EmbedSources(page.embeds), EmbedAccepted, valid, join)
  }

  /** The identifier-derived URL that is added when the page yields nothing: the first that validates. */
  function FallbackCandidates(base: string, valid: string -> bool): seq<string>
  {
    var id := CircularId(base);
    if id.Some? && id.value != "" then
      match FirstAccepted(GeneratePdfUrls(id.value), valid)
      case Some(u) => [u]
      case None => []
    else []
  }

  /** Every URL resolution collects for the page at `base`, in the order it collects them. */
  function Collected(base: string, page: RenderedPage,
                     valid: string -> bool, join: (string, string) -> string): seq<string>
  {
    var fromPage := PageCandidates(base, page, valid, join);
    if fromPage == [] then FallbackCandidates(base, valid) else fromPage
  }

  /** Collecting from two runs of sources is collecting from each, in order. */
  lemma {:induction false} ValidatedAppend(base: string, a: seq<string>, b: seq<string>, accepts: string -> bool,
                                         valid: string -> bool, join: (string, string) -> string)
    ensures Validated(base, a + b, accepts, valid, join)
         == Validated(base, a, accepts, valid, join) + Validated(base, b, accepts, valid, join)
    decreases |b|
  {
    if b == [] {
      assert a + b == a;
    } else {
      assert (a + b)[..|a + b| - 1] == a + b[..|b| - 1];
      ValidatedAppend(base, a, b[..|b| - 1], accepts, valid, join);
    }
  }

  /**
   * Every collected URL validated, and each comes from an anchor or an
   * embedded object that passed its filter, or, only when the page yielded
   * nothing, from the URLs guessed from a non-empty identifier.
   */
  lemma CollectedProvenance(base: string, page: RenderedPage, valid: string -> bool,
                            join: (string, string) -> string, u: string)
    requires u in Collected(base, page, valid, join)
    ensures valid(u)
    ensures
      || (exists i :: ResolvedFrom(base, page.anchorHrefs, AnchorAccepted, join, u, i))
      || (exists i :: ResolvedFrom(base, EmbedSources(page.embeds), EmbedAccepted, join, u, i))
      || (&& PageCandidates(base, page, valid, join) == []
          && CircularId(base).Some? && CircularId(base).value != ""
          && u in GeneratePdfUrls(CircularId(base).value))
  {
    ValidatedMembership(base, page.anchorHrefs, AnchorAccepted, valid, join, u);
    ValidatedMembership(base, EmbedSources(page.embeds), EmbedAccepted, valid, join, u);
    if PageCandidates(base, page, valid, join) == [] {
      var id := CircularId(base).value;
      var k :| 0 <= k < 3 && GeneratePdfUrls(id)[k] == u && valid(GeneratePdfUrls(id)[k]);
    }
  }

  /**
   * Conversely, an anchor or embedded source that passes its filter and whose
   * resolved URL validates is always collected.
   */
  lemma CollectedComplete(base: string, page: RenderedPage, valid: string -> bool,
                          join: (string, string) -> string, u: string)
    requires valid(u)
    requires || (exists i :: ResolvedFrom(base, page.anchorHrefs, AnchorAccepted, join, u, i))
             || (exists i :: ResolvedFrom(base, EmbedSources(page.embeds), EmbedAccepted, join, u, i))
    ensures u in Collected(base, page, valid, join)
  {
    ValidatedMembership(base, page.anchorHrefs, AnchorAccepted, valid, join, u);
    ValidatedMembership(base, EmbedSources(page.embeds), EmbedAccepted, valid, join, u);
  }

  /**
   * Nothing is collected, so the circular is HTML-only, exactly when no
   * filtered anchor or embedded source validates and either there is no
   * non-empty identifier or none of the URLs guessed from it validates.
   */
  lemma HtmlOnlyIff(base: string, page: RenderedPage, valid: string -> bool, join: (string, string) -> string)
    ensures Collected(base, page, valid, join) == [] <==>
      && (forall i :: 0 <= i < |page.anchorHrefs| && AnchorAccepted(page.anchorHrefs[i])
            ==> !valid(join(base, page.anchorHrefs[i])))
      && (forall i :: 0 <= i < |page.embeds| && EmbedAccepted(EmbedSource(page.embeds[i]))
            ==> !valid(join(base, EmbedSource(page.embeds[i]))))
      && (CircularId(base).Some? && CircularId(base).value != "" ==>
            forall k :: 0 <= k < 3 ==> !valid(GeneratePdfUrls(CircularId(base).value)[k]))
  {
    var hrefs := page.anchorHrefs;
    var srcs := EmbedSources(page.embeds);
    if Collected(base, page, valid, join) == [] {
      forall i | 0 <= i < |hrefs| && AnchorAccepted(hrefs[i])
        ensures !valid(join(base, hrefs[i]))
      {
        var u := join(base, hrefs[i]);
        ValidatedMembership(base, hrefs, AnchorAccepted, valid, join, u);
        assert ResolvedFrom(base, hrefs, AnchorAccepted, join, u, i);
      }
      forall i | 0 <= i < |page.embeds| && EmbedAccepted(EmbedSource(page.embeds[i]))
        ensures !valid(join(base, EmbedSource(page.embeds[i])))
      {
        var u := join(base, srcs[i]);
        ValidatedMembership(base, srcs, EmbedAccepted, valid, join, u);
        assert ResolvedFrom(base, srcs, EmbedAccepted, join, u, i);
      }
    } else {
      var u := Collected(base, page, valid, join)[0];
      CollectedProvenance(base, page, valid, join, u);
      if exists i :: ResolvedFrom(base, hrefs, AnchorAccepted, join, u, i) {
        var i :| ResolvedFrom(base, hrefs, AnchorAccepted, join, u, i);
      } else if exists i :: ResolvedFrom(base, srcs, EmbedAccepted, join, u, i) {
        var i :| ResolvedFrom(base, srcs, EmbedAccepted, join, u, i);
      } else {
        var k :| 0 <= k < 3 && GeneratePdfUrls(CircularId(base).value)[k] == u;
      }
    }
  }

  /**
   * The identifier-derived fallback adds at most one URL, the first of the
   * three guesses that validates, and only when the page yielded nothing.
   */
  lemma FallbackAddsFirstAccepted(base: string, page: RenderedPage, valid: string -> bool,
                                  join: (string, string) -> string)
    requires PageCandidates(base, page, valid, join) == []
    ensures |Collected(base, page, valid, join)| <= 1
    ensures forall u :: u in Collected(base, page, valid, join) ==>
      exists k :: 0 <= k < 3 && u == GeneratePdfUrls(CircularId(base).value)[k]
        && valid(u)
        && forall j :: 0 <= j < k ==> !valid(GeneratePdfUrls(CircularId(base).value)[j])
  {
  }

  /** When the page yields a candidate, collection stops there and no identifier guess is tried. */
  lemma PageCandidatesTakePriority(base: string, page: RenderedPage, valid: string -> bool,
                                   join: (string, string) -> string)
    requires PageCandidates(base, page, valid, join) != []
    ensures Collected(base, page, valid, join)
         == Validated(base, page.anchorHrefs, AnchorAccepted, valid, join)
          + Validated(base, EmbedSources(page.embeds), EmbedAccepted, valid, join)
  {
  }

  /** A source the filter rejects contributes nothing, wherever it stands. */
  lemma ValidatedSkipsRejected(base: string, a: seq<string>, x: string, b: seq<string>, accepts: string -> bool,
                               valid: string -> bool, join: (string, string) -> string)
    requires !accepts(x)
    ensures Validated(base, a + [x] + b, accepts, valid, join) == Validated(base, a + b, accepts, valid, join)
  {
    ValidatedAppend(base, a + [x], b, accepts, valid, join);
    ValidatedAppend(base, a, [x], accepts, valid, join);
    ValidatedAppend(base, a, b, accepts, valid, join);
    assert [x][..0] == [];
  }

  /** Neither filter lets through a source that mentions `utkarsh` in any case. */
  lemma WatermarkedRejected(watermarked: string)
    requires Contains(Lower(watermarked), "utkarsh")
    ensures !AnchorAccepted(watermarked)
    ensures !EmbedAccepted(watermarked)
  {
  }

  /** Inserting an embedded element inserts its source at the same place. */
  lemma EmbedSourcesInsert(embeds: seq<EmbedTag>, j: nat, tag: EmbedTag)
    requires j <= |embeds|
    ensures EmbedSources(embeds[..j] + [tag] + embeds[j..])
         == EmbedSources(embeds)[..j] + [EmbedSource(tag)] + EmbedSources(embeds)[j..]
  {
    var more := embeds[..j] + [tag] + embeds[j..];
    var srcs := EmbedSources(embeds);
    var expected := srcs[..j] + [EmbedSource(tag)] + srcs[j..];
    assert |EmbedSources(more)| == |expected|;
    forall k | 0 <= k < |more| ensures EmbedSources(more)[k] == expected[k] {
      if k < j {
        assert more[k] == embeds[k];
      } else if k > j {
        assert more[k] == embeds[k - 1];
      }
    }
  }

  /**
   * A link and an embedded element whose source (`src`, else `data`)
   * mentions `utkarsh`, in any case, change nothing that is collected,
   * wherever they stand and whatever their validation would say.
   */
  lemma WatermarkedSourcesIgnored(base: string, page: RenderedPage, valid: string -> bool,
                                  join: (string, string) -> string, i: nat, j: nat,
                                  watermarked: string, tag: EmbedTag)
    requires i <= |page.anchorHrefs| && j <= |page.embeds|
    requires Contains(Lower(watermarked), "utkarsh")
    requires Contains(Lower(EmbedSource(tag)), "utkarsh")
    ensures
      var more := RenderedPage(
        page.anchorHrefs[..i] + [watermarked] + page.anchorHrefs[i..],
        page.embeds[..j] + [tag] + page.embeds[j..],
        page.body);
      Collected(base, more, valid, join) == Collected(base, page, valid, join)
  {
    var more := RenderedPage(
      page.anchorHrefs[..i] + [watermarked] + page.anchorHrefs[i..],
      page.embeds[..j] + [tag] + page.embeds[j..],
      page.body);
    WatermarkedRejected(watermarked);
    WatermarkedRejected(EmbedSource(tag));
    WatermarkedAnchorIgnored(base, page.anchorHrefs, valid, join, i, watermarked);
    WatermarkedEmbedIgnored(base, page.embeds, valid, join, j, tag);
    assert PageCandidates(base, more, valid, join) == PageCandidates(base, page, valid, join);
  }

  /** The anchor half of the lemma above. */
  lemma WatermarkedAnchorIgnored(base: string, hrefs: seq<string>, valid: string -> bool,
                                 join: (string, string) -> string, i: nat, watermarked: string)
    requires i <= |hrefs| && !AnchorAccepted(watermarked)
    ensures Validated(base, hrefs[..i] + [watermarked] + hrefs[i..], AnchorAccepted, valid, join)
         == Validated(base, hrefs, AnchorAccepted, valid, join)
  {
    ValidatedSkipsRejected(base, hrefs[..i], watermarked, hrefs[i..], AnchorAccepted, valid, join);
    assert hrefs[..i] + hrefs[i..] == hrefs;
  }

  /** The embedded-object half of the lemma above: any element whose source the filter rejects. */
  lemma WatermarkedEmbedIgnored(base: string, embeds: seq<EmbedTag>, valid: string -> bool,
                                join: (string, string) -> string, j: nat, tag: EmbedTag)
    requires j <= |embeds| && !EmbedAccepted(EmbedSource(tag))
    ensures Validated(base, EmbedSources(embeds[..j] + [tag] + embeds[j..]), EmbedAccepted, valid, join)
         == Validated(base, EmbedSources(embeds), EmbedAccepted, valid, join)
  {
    var srcs := EmbedSources(embeds);
    EmbedSourcesInsert(embeds, j, tag);
    ValidatedSkipsRejected(base, srcs[..j], EmbedSource(tag), srcs[j..], EmbedAccepted, valid, join);
    assert srcs[..j] + srcs[j..] == srcs;
  }

  /**
   * A page with a single PDF link that validates, and nothing else, yields
   * exactly that link's absolute URL.
   */
  lemma SingleLinkedPdfResolves(base: string, href: string, body: string,
                                valid: string -> bool, join: (string, string) -> string)
    requires AnchorAccepted(href) && valid(join(base, href))
    ensures Collected(base, RenderedPage([href], [], body), valid, join) == [join(base, href)]
  {
    assert [href][..0] == [];
    assert EmbedSources([]) == [];
    assert Validated(base, [href], AnchorAccepted, valid, join) == [join(base, href)];
  }

  /** The anchor scan: each filtered link, resolved against `base`, kept when it validates. */
  method CollectAnchorLinks(base: string, hrefs: seq<string>,
                            valid: string -> bool, join: (string, string) -> string)
    returns (links: seq<string>)
    ensures links == Validated(base, hrefs, AnchorAccepted, valid, join)
  {
    links := [];
    for i := 0 to |hrefs|
      invariant links == Validated(base, hrefs[..i], AnchorAccepted, valid, join)
    {
      var href := hrefs[i];
      ValidatedStep(base, hrefs, i, AnchorAccepted, valid, join);
      if AnchorAccepted(href) {
        var fullUrl := join(base, href);
        if valid(fullUrl) {
          links := links + [fullUrl];
        }
      }
    }
    assert hrefs[..|hrefs|] == hrefs;
  }

  /** The embedded-object scan: each filtered `src`/`data`, resolved against `base`, kept when it validates. */
  method CollectEmbedLinks(base: string, embeds: seq<EmbedTag>,
                           valid: string -> bool, join: (string, string) -> string)
    returns (links: seq<string>)
    ensures links == Validated(base, EmbedSources(embeds), EmbedAccepted, valid, join)
  {
    links := [];
    ghost var srcs := EmbedSources(embeds);
    for i := 0 to |embeds|
      invariant links == Validated(base, srcs[..i], EmbedAccepted, valid, join)
    {
      var src := EmbedSource(embeds[i]);
      assert srcs[i] == src;
      ValidatedStep(base, srcs, i, EmbedAccepted, valid, join);
      if EmbedAccepted(src) {
        var fullUrl := join(base, src);
        if valid(fullUrl) {
          links := links + [fullUrl];
        }
      }
    }
    assert srcs[..|srcs|] == srcs;
  }

  /** The identifier fallback: tries the three guesses in order and keeps the first that validates. */
  method TryGeneratedUrls(id: string, valid: string -> bool) returns (links: seq<string>)
    ensures links == (match FirstAccepted(GeneratePdfUrls(id), valid) case Some(u) => [u] case None => [])
  {
    links := [];
    var potentialUrls := GeneratePdfUrls(id);
    var j := 0;
    while j < |potentialUrls|
      invariant 0 <= j <= |potentialUrls|
      invariant links == []
      invariant FirstAccepted(potentialUrls[j..], valid) == FirstAccepted(potentialUrls, valid)
    {
      if valid(potentialUrls[j]) {
        links := links + [potentialUrls[j]];
        break;
      }
      assert potentialUrls[j..][1..] == potentialUrls[j + 1..];
      j := j + 1;
    }
  }

  /**
   * Resolves one detail page. `rendered` is the page after rendering, or
   * `None` when the browser could not be started or the page failed to load.
   */
  method GetPdfFromCircularPage(circularUrl: string, rendered: Option<RenderedPage>,
                                valid: string -> bool, join: (string, string) -> string)
    returns (r: Resolution)
    ensures rendered.None? <==> r.NotResolved?
    ensures r.HtmlOnly? ==>
      rendered.Some? && r.body == rendered.value.body && Collected(circularUrl, rendered.value, valid, join) == []
    ensures r.PdfUrl? ==>
      rendered.Some? && r.url in Collected(circularUrl, rendered.value, valid, join)
  {
    if rendered.None? {
      return NotResolved;
    }
    var page := rendered.value;
    var circularId := CircularId(circularUrl);

    var pdfLinks := CollectAnchorLinks(circularUrl, page.anchorHrefs, valid, join);
    var embedLinks := CollectEmbedLinks(circularUrl, page.embeds, valid, join);
    pdfLinks := pdfLinks + embedLinks;

    if circularId.Some? && circularId.value != "" && pdfLinks == [] {
      pdfLinks := TryGeneratedUrls(circularId.value, valid);
    }
    assert pdfLinks == Collected(circularUrl, page, valid, join);

    if pdfLinks == [] {
      return HtmlOnly(page.body);
    }
    // Python's `list(set(pdf_links))[0]`: some collected URL, in no order the code fixes.
    var distinct := set u | u in pdfLinks;
    assert pdfLinks[0] in distinct;
    var chosen :| chosen in distinct;
    r := PdfUrl(chosen);
  }
}
