/**
 * The `hcourt` spider: the High Court's list of cases heard -> one case
 * page -> one PDF document. The case-page callback walks the paragraphs of
 * the page's full-text region and yields one document request per dated,
 * linked paragraph, annotated with the case and the party the paragraph
 * names; the document callback turns a PDF into an item.
 */
module HCourt {
  import opened Wrappers
  import opened Strings
  import opened Crawl
  import opened Entities

  const CaseNameKey := "caseName"
  const CaseNumberKey := "caseNumber"
  const EntityNameKey := "entityName"
  const EntityClassKey := "entityClass"
  const DocumentNameKey := "documentName"
  const DateKey := "date"
  const TextKey := "text"
  const UrlKey := "url"

  /** The six fields a document request carries, in the order the item copies them. */
  const DocumentKeys := [CaseNameKey, CaseNumberKey, EntityNameKey, EntityClassKey, DocumentNameKey, DateKey]

  /** The callback a yielded request names. */
  datatype Stage = CaseStage | DocumentStage

  type Act = Action<Stage>

  /** An `<a>` child of a paragraph: its first `@href`, if any, and its text. */
  datatype Anchor = Anchor(href: Option<string>, text: string)

  /** A `<p>` of the full-text region: its string value and its `<a>` children in order. */
  datatype Paragraph = Paragraph(text: string, anchors: seq<Anchor>)

  /** The first `div.itemFullText`: the first text of its `h2`, if any, and its paragraphs. */
  datatype FullText = FullText(heading: Option<string>, paragraphs: seq<Paragraph>)

  /** What `parse_case` reads of a case page: the full-text region and the first text of `h1.itemTitle`. */
  datatype CasePage = CasePage(fullText: Option<FullText>, title: Option<string>)

  /**
   * A document response: markup, or a binary body whose decoding gives its
   * pages (`None` when the PDF decoder rejects it).
   */
  datatype Body = Markup | Pdf(pages: Option<seq<string>>)

  // ---------------------------------------------------------------- root stage

  /**
   * `HCourt.parse` on the list of cases heard, whose case-table links are
   * `hrefs`: one request per link, in table order, with no metadata.
   */
  function Parse(pageUrl: string, hrefs: seq<string>, resolve: Resolver): (out: Yielded<Act>)
    ensures out.error.None? && |out.items| == |hrefs|
    ensures forall i :: 0 <= i < |hrefs| ==>
      out.items[i] == Recurse(resolve(pageUrl, hrefs[i]), map[], CaseStage)
  {
    var steps := seq(|hrefs|, i requires 0 <= i < |hrefs| =>
      Yield(Recurse(resolve(pageUrl, hrefs[i]), map[], CaseStage)));
    RunAllYield(steps);
    Run(steps)
  }

  // ---------------------------------------------------------------- case stage

  /** `link[-1]`: the paragraph's last `<a>` child. */
  function LastAnchor(p: Paragraph): Anchor
    requires p.anchors != []
  {
    p.anchors[|p.anchors| - 1]
  }

  /** The paragraph yields a request: it has a link with an href, and its first token passes the date test. */
  predicate Qualifies(isDate: string -> bool, p: Paragraph) {
    && p.anchors != [] && LastAnchor(p).href.Some?
    && FirstToken(p.text).Some? && isDate(FirstToken(p.text).value)
  }

  /** The paragraph ends the callback: it has a link, but the last one has no href or the text has no token. */
  predicate Raises(p: Paragraph) {
    p.anchors != [] && (LastAnchor(p).href.None? || FirstToken(p.text).None?)
  }

  /** The metadata of a document request: the case, the party, the document's name and its date. */
  function DocumentMeta(caseName: string, caseNumber: string, entity: Entity, documentName: string, date: string): (m: Context)
    ensures m.Keys == {CaseNameKey, CaseNumberKey, EntityNameKey, EntityClassKey, DocumentNameKey, DateKey}
    ensures m[CaseNameKey] == caseName && m[CaseNumberKey] == caseNumber
    ensures m[EntityNameKey] == entity.entityName && m[EntityClassKey] == entity.entityClass
    ensures m[DocumentNameKey] == documentName && m[DateKey] == date
  {
    map[CaseNameKey := caseName, CaseNumberKey := caseNumber,
        EntityNameKey := entity.entityName, EntityClassKey := entity.entityClass,
        DocumentNameKey := documentName, DateKey := date]
  }

  /**
   * The request for a linked, dated paragraph: to the last anchor's target,
   * named by that anchor's text, dated by the first token as written, and
   * annotated with the party the paragraph's first group names.
   */
  function RequestFor(caseName: string, caseNumber: string, pageUrl: string, resolve: Resolver, p: Paragraph): (a: Act)
    requires p.anchors != [] && LastAnchor(p).href.Some? && FirstToken(p.text).Some?
    ensures a.Recurse? && a.callback == DocumentStage
    ensures a.url == resolve(pageUrl, LastAnchor(p).href.value)
    ensures a.meta.Keys == {CaseNameKey, CaseNumberKey, EntityNameKey, EntityClassKey, DocumentNameKey, DateKey}
    ensures a.meta[CaseNameKey] == caseName && a.meta[CaseNumberKey] == caseNumber
    ensures a.meta[DocumentNameKey] == LastAnchor(p).text
    ensures NoSpace(a.meta[DateKey]) && a.meta[DateKey] != [] && exists k :: IsFirstToken(p.text, k, a.meta[DateKey])
    ensures Entity(a.meta[EntityNameKey], a.meta[EntityClassKey]) == ExtractEntity(p.text)
  {
    Recurse(resolve(pageUrl, LastAnchor(p).href.value),
            DocumentMeta(caseName, caseNumber, ExtractEntity(p.text), LastAnchor(p).text, FirstToken(p.text).value),
            DocumentStage)
  }

  /**
   * One iteration of the paragraph loop of `parse_case`, in the code's
   * order: no link skips; a last link without an href raises; a text
   * without a token raises; a token the date parser rejects skips.
   */
  function ParagraphStep(caseName: string, caseNumber: string, pageUrl: string, resolve: Resolver,
                         isDate: string -> bool, p: Paragraph): (st: Step<Act>)
    ensures st.Yield? <==> Qualifies(isDate, p)
    ensures st.Yield? ==> st.item == RequestFor(caseName, caseNumber, pageUrl, resolve, p)
    ensures st.Raise? <==> Raises(p)
  {
    if p.anchors == [] then Skip
    else if LastAnchor(p).href.None? then Raise(NoHref)
    else if FirstToken(p.text).None? then Raise(NoDateToken)
    else if !isDate(FirstToken(p.text).value) then Skip
    else Yield(RequestFor(caseName, caseNumber, pageUrl, resolve, p))
  }

  /** The iterations of the paragraph loop of `parse_case` over `ps`, one per paragraph. */
  function CaseSteps(caseName: string, caseNumber: string, pageUrl: string, resolve: Resolver,
                     isDate: string -> bool, ps: seq<Paragraph>): (steps: seq<Step<Act>>)
    ensures |steps| == |ps|
    ensures forall i :: 0 <= i < |ps| ==> steps[i] == ParagraphStep(caseName, caseNumber, pageUrl, resolve, isDate, ps[i])
  {
    seq(|ps|, i requires 0 <= i < |ps| => ParagraphStep(caseName, caseNumber, pageUrl, resolve, isDate, ps[i]))
  }

  /**
   * What `parse_case` delivers for a case page: a missing region, case name
   * or case number raises before anything is yielded; otherwise the
   * paragraph loop runs with the stripped case name and number. Every request
   * is the one for a qualifying paragraph, and a paragraph that raises ends
   * the output before its position.
   */
  function CaseOutcome(pageUrl: string, page: CasePage, resolve: Resolver, isDate: string -> bool): (out: Yielded<Act>)
    ensures out.error.None? ==> page.fullText.Some? && page.fullText.value.heading.Some? && page.title.Some?
    ensures forall a :: a in out.items ==>
      && page.fullText.Some? && page.fullText.value.heading.Some? && page.title.Some?
      && exists i :: 0 <= i < |page.fullText.value.paragraphs|
           && Qualifies(isDate, page.fullText.value.paragraphs[i])
           && a == RequestFor(Strip(page.fullText.value.heading.value), Strip(page.title.value),
                              pageUrl, resolve, page.fullText.value.paragraphs[i])
    ensures page.fullText.Some? ==>
      forall i :: 0 <= i < |page.fullText.value.paragraphs| && Raises(page.fullText.value.paragraphs[i]) ==>
        out.error.Some? && |out.items| <= i
  {
    match page.fullText
    case None => Yielded([], Some(NoFullTextRegion))
    case Some(region) =>
      if region.heading.None? then Yielded([], Some(NoCaseName))
      else if page.title.None? then Yielded([], Some(NoCaseNumber))
      else
        var steps := CaseSteps(Strip(region.heading.value), Strip(page.title.value), pageUrl, resolve, isDate, region.paragraphs);
        Run(steps)
  }

  /**
   * `HCourt.parse_case`: reads the case name and number, then walks the
   * paragraphs, skipping those without a link or a date, and appends one
   * document request per remaining paragraph.
   */
  method ParseCase(pageUrl: string, page: CasePage, resolve: Resolver, isDate: string -> bool)
    returns (out: Yielded<Act>)
    ensures out == CaseOutcome(pageUrl, page, resolve, isDate)
  {
    if page.fullText.None? {
      return Yielded([], Some(NoFullTextRegion));
    }
    var region := page.fullText.value;
    if region.heading.None? {
      return Yielded([], Some(NoCaseName));
    }
    var caseName := Strip(region.heading.value);
    if page.title.None? {
      return Yielded([], Some(NoCaseNumber));
    }
    var caseNumber := Strip(page.title.value);
    var paragraphs := region.paragraphs;
    ghost var steps := CaseSteps(caseName, caseNumber, pageUrl, resolve, isDate, paragraphs);
    var requests: seq<Act> := [];
    for i := 0 to |paragraphs|
      invariant Run(steps[..i]) == Yielded(requests, None)
    {
      var paragraph := paragraphs[i];
      var paragraphText := paragraph.text;
      RunExtend(steps, i);
      if paragraph.anchors == [] {
        continue;
      }
      var link := paragraph.anchors[|paragraph.anchors| - 1];
      if link.href.None? {
        RaisedPrefix(steps, i + 1);
        return Yielded(requests, Some(NoHref));
      }
      var url := resolve(pageUrl, link.href.value);
      var date := FirstToken(paragraphText);
      if date.None? {
        RaisedPrefix(steps, i + 1);
        return Yielded(requests, Some(NoDateToken));
      }
      if !isDate(date.value) {
        continue;
      }
      var entityName := "";
      var entityClass := "";
      var braces := FirstParenGroup(paragraphText);
      if braces.Some? {
        var bracesSplit := EntityParts(braces.value);
        entityName := bracesSplit[|bracesSplit| - 1];
        if |bracesSplit| > 1 {
          entityClass := bracesSplit[0];
        }
      }
      var documentName := link.text;
      requests := requests + [Recurse(url, map[CaseNameKey := caseName, CaseNumberKey := caseNumber,
                                               EntityNameKey := entityName, EntityClassKey := entityClass,
                                               DocumentNameKey := documentName, DateKey := date.value],
                                      DocumentStage)];
    }
    assert steps[..|paragraphs|] == steps;
    return Yielded(requests, None);
  }

  /**
   * Reference definition of the requests of the paragraph loop: one per
   * qualifying paragraph, in paragraph order.
   */
  function Documents(caseName: string, caseNumber: string, pageUrl: string, resolve: Resolver,
                     isDate: string -> bool, ps: seq<Paragraph>): seq<Act>
  {
    Concat(p => Contribution(caseName, caseNumber, pageUrl, resolve, isDate, p), ps)
  }

  /** The request a single paragraph contributes: one if it qualifies, none otherwise. */
  function Contribution(caseName: string, caseNumber: string, pageUrl: string, resolve: Resolver,
                        isDate: string -> bool, p: Paragraph): seq<Act>
  {
    if Qualifies(isDate, p) then [RequestFor(caseName, caseNumber, pageUrl, resolve, p)] else []
  }

  /**
   * On a case page with its region, name and number, where no paragraph
   * raises, `parse_case` yields exactly the reference requests.
   */
  lemma CaseInOrder(pageUrl: string, page: CasePage, resolve: Resolver, isDate: string -> bool)
    requires page.fullText.Some? && page.fullText.value.heading.Some? && page.title.Some?
    requires forall i :: 0 <= i < |page.fullText.value.paragraphs| ==> !Raises(page.fullText.value.paragraphs[i])
    ensures CaseOutcome(pageUrl, page, resolve, isDate) ==
      Yielded(Documents(Strip(page.fullText.value.heading.value), Strip(page.title.value), pageUrl, resolve, isDate,
                        page.fullText.value.paragraphs), None)
  {
    StepsInOrder(Strip(page.fullText.value.heading.value), Strip(page.title.value), pageUrl, resolve, isDate,
                 page.fullText.value.paragraphs);
  }

  lemma {:induction false} StepsInOrder(caseName: string, caseNumber: string, pageUrl: string, resolve: Resolver,
                                        isDate: string -> bool, ps: seq<Paragraph>)
    requires forall i :: 0 <= i < |ps| ==> !Raises(ps[i])
    ensures Run(CaseSteps(caseName, caseNumber, pageUrl, resolve, isDate, ps)) ==
      Yielded(Documents(caseName, caseNumber, pageUrl, resolve, isDate, ps), None)
  {
    if ps != [] {
      StepsInOrder(caseName, caseNumber, pageUrl, resolve, isDate, ps[1..]);
      CaseStepsTail(caseName, caseNumber, pageUrl, resolve, isDate, ps);
    }
  }

  /**
   * On a case page with its region, name and number, where paragraph `i`
   * is the first that raises, `parse_case` delivers exactly the reference
   * requests of the paragraphs before it, in order, and then the error of
   * paragraph `i`: a missing href, or a text without a token.
   */
  lemma CaseUntilRaise(pageUrl: string, page: CasePage, resolve: Resolver, isDate: string -> bool, i: nat)
    requires page.fullText.Some? && page.fullText.value.heading.Some? && page.title.Some?
    requires i < |page.fullText.value.paragraphs| && Raises(page.fullText.value.paragraphs[i])
    requires forall j :: 0 <= j < i ==> !Raises(page.fullText.value.paragraphs[j])
    ensures CaseOutcome(pageUrl, page, resolve, isDate) ==
      Yielded(Documents(Strip(page.fullText.value.heading.value), Strip(page.title.value), pageUrl, resolve, isDate,
                        page.fullText.value.paragraphs[..i]),
              Some(if LastAnchor(page.fullText.value.paragraphs[i]).href.None? then NoHref else NoDateToken))
  {
    var caseName, caseNumber := Strip(page.fullText.value.heading.value), Strip(page.title.value);
    var ps := page.fullText.value.paragraphs;
    var steps := CaseSteps(caseName, caseNumber, pageUrl, resolve, isDate, ps);
    RunFirstRaise(steps, i);
    CaseStepsSlice(caseName, caseNumber, pageUrl, resolve, isDate, ps, 0, i);
    assert ps[0..i] == ps[..i] && steps[0..i] == steps[..i];
    StepsInOrder(caseName, caseNumber, pageUrl, resolve, isDate, ps[..i]);
  }

  /** The paragraph loop's iterations after the first are those of the remaining paragraphs. */
  lemma CaseStepsTail(caseName: string, caseNumber: string, pageUrl: string, resolve: Resolver,
                      isDate: string -> bool, ps: seq<Paragraph>)
    requires ps != []
    ensures var steps := CaseSteps(caseName, caseNumber, pageUrl, resolve, isDate, ps);
      steps[0] == ParagraphStep(caseName, caseNumber, pageUrl, resolve, isDate, ps[0]) &&
      steps[1..] == CaseSteps(caseName, caseNumber, pageUrl, resolve, isDate, ps[1..])
  {
  }

  /** The requests for consecutive runs of paragraphs follow one another: output keeps paragraph order. */
  lemma DocumentsAppend(caseName: string, caseNumber: string, pageUrl: string, resolve: Resolver,
                        isDate: string -> bool, ps: seq<Paragraph>, qs: seq<Paragraph>)
    ensures Documents(caseName, caseNumber, pageUrl, resolve, isDate, ps + qs) ==
      Documents(caseName, caseNumber, pageUrl, resolve, isDate, ps) +
      Documents(caseName, caseNumber, pageUrl, resolve, isDate, qs)
  {
    ConcatAppend(p => Contribution(caseName, caseNumber, pageUrl, resolve, isDate, p), ps, qs);
  }

  /** At most one request per paragraph. */
  lemma {:induction false} DocumentsAtMostOne(caseName: string, caseNumber: string, pageUrl: string, resolve: Resolver,
                                              isDate: string -> bool, ps: seq<Paragraph>)
    ensures |Documents(caseName, caseNumber, pageUrl, resolve, isDate, ps)| <= |ps|
  {
    if ps != [] {
      DocumentsAtMostOne(caseName, caseNumber, pageUrl, resolve, isDate, ps[1..]);
    }
  }

  /** The same case page with its `i`-th paragraph left out. */
  function WithoutParagraph(page: CasePage, i: nat): CasePage
    requires page.fullText.Some? && i < |page.fullText.value.paragraphs|
  {
    var ps := page.fullText.value.paragraphs;
    page.(fullText := Some(page.fullText.value.(paragraphs := ps[..i] + ps[i + 1..])))
  }

  /** Leaving out a paragraph whose loop iteration skips changes nothing that `parse_case` delivers. */
  lemma SkippedParagraphIgnored(pageUrl: string, page: CasePage, resolve: Resolver, isDate: string -> bool, i: nat)
    requires page.fullText.Some? && page.fullText.value.heading.Some? && page.title.Some?
    requires i < |page.fullText.value.paragraphs|
    requires ParagraphStep(Strip(page.fullText.value.heading.value), Strip(page.title.value), pageUrl, resolve, isDate,
                           page.fullText.value.paragraphs[i]).Skip?
    ensures CaseOutcome(pageUrl, page, resolve, isDate) == CaseOutcome(pageUrl, WithoutParagraph(page, i), resolve, isDate)
  {
    var caseName, caseNumber := Strip(page.fullText.value.heading.value), Strip(page.title.value);
    var ps := page.fullText.value.paragraphs;
    var steps := CaseSteps(caseName, caseNumber, pageUrl, resolve, isDate, ps);
    RunWithoutSkip(steps, i);
    CaseStepsWithout(caseName, caseNumber, pageUrl, resolve, isDate, ps, i);
    var shorter := WithoutParagraph(page, i);
    assert shorter.fullText.value.paragraphs == ps[..i] + ps[i + 1..];
    assert shorter.fullText.value.heading == page.fullText.value.heading && shorter.title == page.title;
  }

  /** The loop iterations of a paragraph list with one paragraph left out are the others' iterations. */
  lemma CaseStepsWithout(caseName: string, caseNumber: string, pageUrl: string, resolve: Resolver,
                         isDate: string -> bool, ps: seq<Paragraph>, i: nat)
    requires i < |ps|
    ensures CaseSteps(caseName, caseNumber, pageUrl, resolve, isDate, ps[..i] + ps[i + 1..]) ==
      CaseSteps(caseName, caseNumber, pageUrl, resolve, isDate, ps)[..i] +
      CaseSteps(caseName, caseNumber, pageUrl, resolve, isDate, ps)[i + 1..]
  {
    var steps := CaseSteps(caseName, caseNumber, pageUrl, resolve, isDate, ps);
    CaseStepsAppend(caseName, caseNumber, pageUrl, resolve, isDate, ps[..i], ps[i + 1..]);
    CaseStepsSlice(caseName, caseNumber, pageUrl, resolve, isDate, ps, 0, i);
    CaseStepsSlice(caseName, caseNumber, pageUrl, resolve, isDate, ps, i + 1, |ps|);
    assert ps[0..i] == ps[..i] && steps[0..i] == steps[..i];
    assert ps[i + 1..|ps|] == ps[i + 1..] && steps[i + 1..|steps|] == steps[i + 1..];
  }

  /** The iterations of consecutive runs of paragraphs follow one another. */
  lemma CaseStepsAppend(caseName: string, caseNumber: string, pageUrl: string, resolve: Resolver,
                        isDate: string -> bool, ps: seq<Paragraph>, qs: seq<Paragraph>)
    ensures CaseSteps(caseName, caseNumber, pageUrl, resolve, isDate, ps + qs) ==
      CaseSteps(caseName, caseNumber, pageUrl, resolve, isDate, ps) +
      CaseSteps(caseName, caseNumber, pageUrl, resolve, isDate, qs)
  {
    var all := ps + qs;
    assert forall k :: 0 <= k < |ps| ==> all[k] == ps[k];
    assert forall k :: |ps| <= k < |all| ==> all[k] == qs[k - |ps|];
  }

  /** The iterations of a run of paragraphs are that run of the iterations. */
  lemma CaseStepsSlice(caseName: string, caseNumber: string, pageUrl: string, resolve: Resolver,
                       isDate: string -> bool, ps: seq<Paragraph>, lo: nat, hi: nat)
    requires lo <= hi <= |ps|
    ensures CaseSteps(caseName, caseNumber, pageUrl, resolve, isDate, ps[lo..hi]) ==
      CaseSteps(caseName, caseNumber, pageUrl, resolve, isDate, ps)[lo..hi]
  {
    assert forall k :: 0 <= k < hi - lo ==> ps[lo..hi][k] == ps[lo + k];
  }

  /** A paragraph with no `<a>` child yields no request: leaving it out changes nothing. */
  lemma UnlinkedParagraphIgnored(pageUrl: string, page: CasePage, resolve: Resolver, isDate: string -> bool, i: nat)
    requires page.fullText.Some? && page.fullText.value.heading.Some? && page.title.Some?
    requires i < |page.fullText.value.paragraphs| && page.fullText.value.paragraphs[i].anchors == []
    ensures CaseOutcome(pageUrl, page, resolve, isDate) == CaseOutcome(pageUrl, WithoutParagraph(page, i), resolve, isDate)
  {
    SkippedParagraphIgnored(pageUrl, page, resolve, isDate, i);
  }

  /** A linked paragraph whose first token the date parser rejects yields no request: leaving it out changes nothing. */
  lemma UndatedParagraphIgnored(pageUrl: string, page: CasePage, resolve: Resolver, isDate: string -> bool, i: nat)
    requires page.fullText.Some? && page.fullText.value.heading.Some? && page.title.Some?
    requires i < |page.fullText.value.paragraphs|
    requires var p := page.fullText.value.paragraphs[i];
      p.anchors != [] && LastAnchor(p).href.Some? && FirstToken(p.text).Some? && !isDate(FirstToken(p.text).value)
    ensures CaseOutcome(pageUrl, page, resolve, isDate) == CaseOutcome(pageUrl, WithoutParagraph(page, i), resolve, isDate)
  {
    SkippedParagraphIgnored(pageUrl, page, resolve, isDate, i);
  }

  /**
   * The fields of a paragraph's request: the URL and the document name come
   * from the last anchor, the date is the paragraph's first whitespace-free
   * token exactly as written and passed the date test, and the entity
   * fields are the annotation of the paragraph's first group.
   */
  lemma RequestFields(caseName: string, caseNumber: string, pageUrl: string, resolve: Resolver,
                      isDate: string -> bool, p: Paragraph)
    requires Qualifies(isDate, p)
    ensures var a := RequestFor(caseName, caseNumber, pageUrl, resolve, p);
      && a.Recurse? && a.callback == DocumentStage
      && a.meta.Keys == {CaseNameKey, CaseNumberKey, EntityNameKey, EntityClassKey, DocumentNameKey, DateKey}
      && a.url == resolve(pageUrl, LastAnchor(p).href.value)
      && a.meta[DocumentNameKey] == LastAnchor(p).text
      && a.meta[CaseNameKey] == caseName && a.meta[CaseNumberKey] == caseNumber
      && isDate(a.meta[DateKey]) && NoSpace(a.meta[DateKey]) && a.meta[DateKey] != []
      && (exists k :: IsFirstToken(p.text, k, a.meta[DateKey]))
      && Entity(a.meta[EntityNameKey], a.meta[EntityClassKey]) == ExtractEntity(p.text)
  {
  }

  /** A paragraph whose text has no parenthesised group gets empty entity fields. */
  lemma UngroupedParagraphNoEntity(caseName: string, caseNumber: string, pageUrl: string, resolve: Resolver,
                                   isDate: string -> bool, p: Paragraph)
    requires Qualifies(isDate, p) && FirstParenGroup(p.text).None?
    ensures var a := RequestFor(caseName, caseNumber, pageUrl, resolve, p);
      a.meta[EntityNameKey] == "" && a.meta[EntityClassKey] == ""
  {
  }

  // ------------------------------------------------------------ document stage

  /**
   * `HCourt.parse_document`: nothing for a markup response; for a binary
   * one, the decoded pages joined by a blank line, the response URL and the
   * six fields of the request, looked up in that order.
   */
  function ParseDocument(pageUrl: string, body: Body, meta: Context): (out: Yielded<Act>)
    ensures body.Markup? ==> out == Yielded([], None)
    ensures body == Pdf(None) ==> out == Yielded([], Some(PdfDecodeError))
    ensures out.error.Some? ==> out.items == []
    ensures body.Pdf? && body.pages.Some? ==>
      (out.error.None? <==> forall k :: k in DocumentKeys ==> k in meta)
    ensures body.Pdf? && out.error.None? ==>
      && body.pages.Some?
      && |out.items| == 1 && out.items[0].Emit?
      && out.items[0].record.Keys ==
         {TextKey, UrlKey, CaseNameKey, CaseNumberKey, EntityNameKey, EntityClassKey, DocumentNameKey, DateKey}
      && out.items[0].record[TextKey] == Join(body.pages.value, "\n\n")
      && out.items[0].record[UrlKey] == pageUrl
      && forall k :: k in DocumentKeys ==> k in meta && out.items[0].record[k] == meta[k]
  {
    match body
    case Markup => Yielded([], None)
    case Pdf(None) => Yielded([], Some(PdfDecodeError))
    case Pdf(Some(pages)) =>
      match FirstMissing(meta, DocumentKeys)
      case Some(k) => Yielded([], Some(MissingMeta(k)))
      case None =>
        Yielded([Emit(map[TextKey := Join(pages, "\n\n"), UrlKey := pageUrl,
                          CaseNameKey := meta[CaseNameKey], CaseNumberKey := meta[CaseNumberKey],
                          EntityNameKey := meta[EntityNameKey], EntityClassKey := meta[EntityClassKey],
                          DocumentNameKey := meta[DocumentNameKey], DateKey := meta[DateKey]])], None)
  }

  /** Three pages become one text with a blank line between consecutive pages. */
  lemma ThreePages(a: string, b: string, c: string)
    ensures Join([a, b, c], "\n\n") == a + "\n\n" + b + "\n\n" + c
  {
    var pages := [a, b, c];
    assert pages[1..] == [b, c] && pages[1..][1..] == [c];
    assert Join([b, c], "\n\n") == b + "\n\n" + c;
    assert Join(pages, "\n\n") == a + "\n\n" + (b + "\n\n" + c);
  }

  /** Where page `k` starts in the joined text: after every earlier page and its separator. */
  function PageOffset(pages: seq<string>, sep: string, k: nat): nat
    requires k <= |pages|
  {
    if k == 0 then 0 else PageOffset(pages, sep, k - 1) + |pages[k - 1]| + |sep|
  }

  /** Page `k` of the joined text: whole at its offset, then a separator or the end of the text. */
  predicate PageAt(text: string, pages: seq<string>, sep: string, k: nat)
    requires k < |pages|
  {
    var o := PageOffset(pages, sep, k);
    && o + |pages[k]| <= |text|
    && text[o..o + |pages[k]|] == pages[k]
    && (k + 1 < |pages| ==> o + |pages[k]| + |sep| <= |text| && text[o + |pages[k]|..o + |pages[k]| + |sep|] == sep)
    && (k + 1 == |pages| ==> o + |pages[k]| == |text|)
  }

  /**
   * In the joined text, every page appears whole at its offset, followed by
   * the separator unless it is the last, and the text ends with the last page.
   */
  lemma {:induction false} JoinedPageAt(pages: seq<string>, sep: string, k: nat)
    requires k < |pages|
    ensures PageAt(Join(pages, sep), pages, sep, k)
    decreases |pages|
  {
    if |pages| == 1 {
    } else if k == 0 {
      JoinedFirstPage(pages, sep);
    } else {
      JoinedPageAt(pages[1..], sep, k - 1);
      JoinedLaterPage(pages, sep, k);
    }
  }

  /** The first of two or more pages opens the joined text and is followed by the separator. */
  lemma JoinedFirstPage(pages: seq<string>, sep: string)
    requires |pages| >= 2
    ensures PageAt(Join(pages, sep), pages, sep, 0)
  {
    SliceOfFront(pages[0], sep, Join(pages[1..], sep));
  }

  /** A later page sits in the joined text where it sits in the join of the pages after the first, shifted by the first page and a separator. */
  lemma JoinedLaterPage(pages: seq<string>, sep: string, k: nat)
    requires 1 <= k < |pages|
    requires PageAt(Join(pages[1..], sep), pages[1..], sep, k - 1)
    ensures PageAt(Join(pages, sep), pages, sep, k)
  {
    assert Join(pages, sep) == (pages[0] + sep) + Join(pages[1..], sep);
    ShiftedPageAt(pages[0] + sep, Join(pages[1..], sep), pages, sep, k);
  }

  /** Placing the first page and a separator in front of a text shifts where each later page sits by their length. */
  lemma ShiftedPageAt(head: string, tail: string, pages: seq<string>, sep: string, k: nat)
    requires 1 <= k < |pages| && |head| == |pages[0]| + |sep|
    requires PageAt(tail, pages[1..], sep, k - 1)
    ensures PageAt(head + tail, pages, sep, k)
  {
    var o := PageOffset(pages[1..], sep, k - 1);
    ShiftedOffset(pages, sep, k);
    assert pages[1..][k - 1] == pages[k];
    SliceAfter(head, tail, o, o + |pages[k]|);
    if k + 1 < |pages| {
      SliceAfter(head, tail, o + |pages[k]|, o + |pages[k]| + |sep|);
    }
  }

  /** The first two pieces of a three-piece concatenation, by position. */
  lemma SliceOfFront(a: string, b: string, c: string)
    ensures (a + b + c)[0..|a|] == a && (a + b + c)[|a|..|a| + |b|] == b
  {
  }

  /** A slice of the second half of a concatenation, shifted by the first half. */
  lemma SliceAfter(head: string, tail: string, lo: nat, hi: nat)
    requires lo <= hi <= |tail|
    ensures (head + tail)[|head| + lo..|head| + hi] == tail[lo..hi]
  {
  }

  /** Offsets in the pages after the first are shifted by the first page and a separator. */
  lemma {:induction false} ShiftedOffset(pages: seq<string>, sep: string, k: nat)
    requires 1 <= k <= |pages|
    ensures PageOffset(pages, sep, k) == |pages[0]| + |sep| + PageOffset(pages[1..], sep, k - 1)
  {
    if k > 1 {
      ShiftedOffset(pages, sep, k - 1);
      assert pages[1..][k - 2] == pages[k - 1];
    }
  }

  // ----------------------------------------------------------- whole traversal

  /**
   * A document request's six fields reach the item of a PDF that decodes;
   * the item's `url` is the response's URL, which after a redirect need not
   * be the URL the request asked for.
   */
  lemma DocumentCopiesRequest(a: Act, responseUrl: string, pages: seq<string>)
    requires a.Recurse?
    requires a.meta.Keys == {CaseNameKey, CaseNumberKey, EntityNameKey, EntityClassKey, DocumentNameKey, DateKey}
    ensures var out := ParseDocument(responseUrl, Pdf(Some(pages)), a.meta);
      && out.error.None? && |out.items| == 1
      && out.items[0].record[UrlKey] == responseUrl
      && forall k :: k in DocumentKeys ==> out.items[0].record[k] == a.meta[k]
  {
    assert forall k :: k in DocumentKeys ==> k in a.meta;
  }

  /**
   * A request from a case page, followed to a PDF that decodes, gives one
   * item carrying that case page's stripped name and number and the
   * request's annotation unchanged, whatever URL the response for it
   * finally has.
   */
  lemma RequestReachesItem(pageUrl: string, page: CasePage, resolve: Resolver, isDate: string -> bool,
                           a: Act, responseUrl: string, pages: seq<string>)
    requires a in CaseOutcome(pageUrl, page, resolve, isDate).items
    ensures var out := ParseDocument(responseUrl, Pdf(Some(pages)), a.meta);
      && out.error.None? && |out.items| == 1
      && out.items[0].record[UrlKey] == responseUrl
      && out.items[0].record[CaseNameKey] == Strip(page.fullText.value.heading.value)
      && out.items[0].record[CaseNumberKey] == Strip(page.title.value)
      && forall k :: k in DocumentKeys ==> out.items[0].record[k] == a.meta[k]
  {
    var caseName, caseNumber := Strip(page.fullText.value.heading.value), Strip(page.title.value);
    var ps := page.fullText.value.paragraphs;
    var i :| 0 <= i < |ps| && Qualifies(isDate, ps[i]) && a == RequestFor(caseName, caseNumber, pageUrl, resolve, ps[i]);
    RequestFields(caseName, caseNumber, pageUrl, resolve, isDate, ps[i]);
    DocumentCopiesRequest(a, responseUrl, pages);
    assert CaseNameKey in DocumentKeys && CaseNumberKey in DocumentKeys;
  }
}
