/**
 * The `austlii` spider: database listing -> database page -> year page ->
 * case page. Each stage is a callback that walks the list entries its
 * selector finds and yields a request carrying a fresh metadata dict built
 * from the parent's, or a finished item.
 */
module Austlii {
  import opened Wrappers
  import opened Strings
  import opened Crawl

  const DatabaseKey := "database"
  const YearKey := "year"
  const NameKey := "name"
  const UrlKey := "url"
  const TextKey := "text"

  /** The callback a yielded request names. */
  datatype Stage = DatabaseStage | YearsStage | CaseStage

  type Act = Action<Stage>

  /**
   * One list entry the stage's selector finds: the first `./a/@href` and the
   * first `./a/text()` of its anchor children, when there are any.
   */
  datatype Entry = Entry(href: Option<string>, text: Option<string>)

  // ---------------------------------------------------------------- root stage

  /** One iteration of `parse`: skip an entry without an href, otherwise request its database page. */
  function DatabaseStep(pageUrl: string, resolve: Resolver, e: Entry): (st: Step<Act>)
    ensures st.Skip? <==> e.href.None?
    ensures st.Raise? <==> e.href.Some? && e.text.None?
    ensures st.Raise? ==> st.error == NoAnchorText
    ensures st.Yield? ==>
      && st.item.Recurse? && st.item.callback == DatabaseStage
      && st.item.url == resolve(pageUrl, e.href.value)
      && st.item.meta.Keys == {DatabaseKey} && st.item.meta[DatabaseKey] == e.text.value
  {
    if e.href.None? then Skip
    else if e.text.None? then Raise(NoAnchorText)
    else Yield(Recurse(resolve(pageUrl, e.href.value), map[DatabaseKey := e.text.value], DatabaseStage))
  }

  /** The iterations of the entry loop of `parse` over `entries`, one per entry. */
  function DatabaseSteps(pageUrl: string, entries: seq<Entry>, resolve: Resolver): seq<Step<Act>> {
    seq(|entries|, i requires 0 <= i < |entries| => DatabaseStep(pageUrl, resolve, entries[i]))
  }

  /** `Austlii.parse` on the database listing page whose `div.card/ul/li` entries are `entries`. */
  function Parse(pageUrl: string, entries: seq<Entry>, resolve: Resolver): (out: Yielded<Act>)
    ensures out.error.Some? <==>
      exists i :: 0 <= i < |entries| && entries[i].href.Some? && entries[i].text.None?
    ensures forall a :: a in out.items ==>
      a.Recurse? && a.callback == DatabaseStage && a.meta.Keys == {DatabaseKey}
    ensures forall i :: 0 <= i < |entries| && entries[i].href.Some? && entries[i].text.None? ==>
      |out.items| <= i
  {
    var steps := DatabaseSteps(pageUrl, entries, resolve);
    assert forall i :: 0 <= i < |entries| ==> steps[i] == DatabaseStep(pageUrl, resolve, entries[i]);
    Run(steps)
  }

  /** The entries that have an href, in document order. */
  function Linked(entries: seq<Entry>): seq<Entry> {
    if entries == [] then []
    else if entries[0].href.Some? then [entries[0]] + Linked(entries[1..])
    else Linked(entries[1..])
  }

  /** Reference definition of the root stage's requests: one per linked entry, context `{database: label}`. */
  function DatabaseRequests(pageUrl: string, linked: seq<Entry>, resolve: Resolver): seq<Act> {
    seq(|linked|, k requires 0 <= k < |linked| =>
      Recurse(resolve(pageUrl, linked[k].href.GetOr("")), map[DatabaseKey := linked[k].text.GetOr("")], DatabaseStage))
  }

  /**
   * When every entry that has an href has a label, `parse` skips the entries
   * without an href and yields exactly one request per other entry, in
   * document order, whose context is exactly `{database: label}`.
   */
  lemma {:induction false} ParseInOrder(pageUrl: string, entries: seq<Entry>, resolve: Resolver)
    requires forall i :: 0 <= i < |entries| && entries[i].href.Some? ==> entries[i].text.Some?
    ensures Parse(pageUrl, entries, resolve) ==
      Yielded(DatabaseRequests(pageUrl, Linked(entries), resolve), None)
  {
    if entries != [] {
      var rest := entries[1..];
      ParseInOrder(pageUrl, rest, resolve);
      DatabaseStepsTail(pageUrl, entries, resolve);
      if entries[0].href.Some? {
        DatabaseRequestsCons(pageUrl, entries[0], Linked(rest), resolve);
      }
    }
  }

  /** The root stage's iterations after the first are those of the remaining entries. */
  lemma DatabaseStepsTail(pageUrl: string, entries: seq<Entry>, resolve: Resolver)
    requires entries != []
    ensures var steps := DatabaseSteps(pageUrl, entries, resolve);
      steps[0] == DatabaseStep(pageUrl, resolve, entries[0]) &&
      steps[1..] == DatabaseSteps(pageUrl, entries[1..], resolve)
  {
  }

  /** The reference requests of one more linked entry, placed first. */
  lemma DatabaseRequestsCons(pageUrl: string, e: Entry, linked: seq<Entry>, resolve: Resolver)
    ensures DatabaseRequests(pageUrl, [e] + linked, resolve) ==
      [Recurse(resolve(pageUrl, e.href.GetOr("")), map[DatabaseKey := e.text.GetOr("")], DatabaseStage)] +
      DatabaseRequests(pageUrl, linked, resolve)
  {
  }

  /**
   * When entry `i` is the first entry with an href but no label, `parse`
   * delivers exactly the reference requests of the entries before it, in
   * document order, and then raises for entry `i`.
   */
  lemma ParseUntilRaise(pageUrl: string, entries: seq<Entry>, resolve: Resolver, i: nat)
    requires i < |entries| && entries[i].href.Some? && entries[i].text.None?
    requires forall j :: 0 <= j < i && entries[j].href.Some? ==> entries[j].text.Some?
    ensures Parse(pageUrl, entries, resolve) ==
      Yielded(DatabaseRequests(pageUrl, Linked(entries[..i]), resolve), Some(NoAnchorText))
  {
    var steps := DatabaseSteps(pageUrl, entries, resolve);
    RunFirstRaise(steps, i);
    DatabaseStepsPrefix(pageUrl, entries, resolve, i);
    ParseInOrder(pageUrl, entries[..i], resolve);
  }

  /** The root stage's first `i` iterations are those of the first `i` entries. */
  lemma DatabaseStepsPrefix(pageUrl: string, entries: seq<Entry>, resolve: Resolver, i: nat)
    requires i <= |entries|
    ensures DatabaseSteps(pageUrl, entries, resolve)[..i] == DatabaseSteps(pageUrl, entries[..i], resolve)
  {
  }

  // ------------------------------------------------------------ database stage

  /** One iteration of `parse_database`: the `[0]` indexing is unguarded, so a missing href raises. */
  function YearStep(pageUrl: string, meta: Context, resolve: Resolver, e: Entry): (st: Step<Act>)
    ensures !st.Skip?
    ensures st.Raise? <==> e.href.None? || e.text.None? || DatabaseKey !in meta
    ensures e.href.None? ==> st == Raise(NoHref)
    ensures e.href.Some? && e.text.None? ==> st == Raise(NoAnchorText)
    ensures st.Yield? ==>
      && st.item.Recurse? && st.item.callback == YearsStage
      && st.item.url == resolve(pageUrl, e.href.value)
      && st.item.meta.Keys == {DatabaseKey, YearKey}
      && st.item.meta[DatabaseKey] == meta[DatabaseKey] && st.item.meta[YearKey] == e.text.value
  {
    if e.href.None? then Raise(NoHref)
    else if e.text.None? then Raise(NoAnchorText)
    else if DatabaseKey !in meta then Raise(MissingMeta(DatabaseKey))
    else Yield(Recurse(resolve(pageUrl, e.href.value),
                       map[DatabaseKey := meta[DatabaseKey], YearKey := e.text.value], YearsStage))
  }

  /** The iterations of the entry loop of `parse_database` over `entries`, one per entry. */
  function YearSteps(pageUrl: string, entries: seq<Entry>, meta: Context, resolve: Resolver): seq<Step<Act>> {
    seq(|entries|, i requires 0 <= i < |entries| => YearStep(pageUrl, meta, resolve, entries[i]))
  }

  /**
   * `Austlii.parse_database` on a database page whose year-option entries
   * are `entries`, reached with request metadata `meta`. Every request keeps
   * `database` and adds `year`; an entry without an href ends the callback
   * with an error instead of being skipped.
   */
  function ParseDatabase(pageUrl: string, entries: seq<Entry>, meta: Context, resolve: Resolver): (out: Yielded<Act>)
    ensures forall a :: a in out.items ==>
      && a.Recurse? && a.callback == YearsStage && a.meta.Keys == {DatabaseKey, YearKey}
      && DatabaseKey in meta && a.meta[DatabaseKey] == meta[DatabaseKey]
    ensures forall i :: 0 <= i < |entries| && entries[i].href.None? ==>
      out.error.Some? && |out.items| <= i
    ensures entries != [] && DatabaseKey !in meta ==> out.items == [] && out.error.Some?
  {
    var steps := YearSteps(pageUrl, entries, meta, resolve);
    assert forall i :: 0 <= i < |entries| ==> steps[i] == YearStep(pageUrl, meta, resolve, entries[i]);
    Run(steps)
  }

  /**
   * On a well-formed database page, `parse_database` yields exactly one
   * request per entry, in document order, to the entry's resolved URL with
   * context `{database: inherited, year: label}`.
   */
  lemma ParseDatabaseInOrder(pageUrl: string, entries: seq<Entry>, meta: Context, resolve: Resolver)
    requires DatabaseKey in meta
    requires forall i :: 0 <= i < |entries| ==> entries[i].href.Some? && entries[i].text.Some?
    ensures ParseDatabase(pageUrl, entries, meta, resolve).error.None?
    ensures |ParseDatabase(pageUrl, entries, meta, resolve).items| == |entries|
    ensures forall i :: 0 <= i < |entries| ==>
      ParseDatabase(pageUrl, entries, meta, resolve).items[i] ==
        Recurse(resolve(pageUrl, entries[i].href.value),
                map[DatabaseKey := meta[DatabaseKey], YearKey := entries[i].text.value], YearsStage)
    ensures ParseDatabase(pageUrl, entries, meta, resolve) ==
      Yielded(YearRequests(pageUrl, entries, meta[DatabaseKey], resolve), None)
  {
    var steps := YearSteps(pageUrl, entries, meta, resolve);
    var requests := YearRequests(pageUrl, entries, meta[DatabaseKey], resolve);
    RunAllYield(steps);
    forall k | 0 <= k < |entries| ensures steps[k].item == requests[k] {
      var e := entries[k];
      assert e.href.GetOr("") == e.href.value && e.text.GetOr("") == e.text.value;
      assert steps[k] == YearStep(pageUrl, meta, resolve, e);
    }
  }

  /** Reference definition of the database stage's requests: one per entry, context `{database, year: label}`. */
  function YearRequests(pageUrl: string, entries: seq<Entry>, database: string, resolve: Resolver): seq<Act> {
    seq(|entries|, k requires 0 <= k < |entries| =>
      Recurse(resolve(pageUrl, entries[k].href.GetOr("")),
              map[DatabaseKey := database, YearKey := entries[k].text.GetOr("")], YearsStage))
  }

  /**
   * When entry `i` is the first without an href or a label, `parse_database`
   * delivers exactly the requests of the entries before it, in document
   * order, and then raises for entry `i`.
   */
  lemma ParseDatabaseUntilRaise(pageUrl: string, entries: seq<Entry>, meta: Context, resolve: Resolver, i: nat)
    requires DatabaseKey in meta
    requires i < |entries| && (entries[i].href.None? || entries[i].text.None?)
    requires forall j :: 0 <= j < i ==> entries[j].href.Some? && entries[j].text.Some?
    ensures ParseDatabase(pageUrl, entries, meta, resolve) ==
      Yielded(YearRequests(pageUrl, entries[..i], meta[DatabaseKey], resolve),
              Some(if entries[i].href.None? then NoHref else NoAnchorText))
  {
    var steps := YearSteps(pageUrl, entries, meta, resolve);
    RunFirstRaise(steps, i);
    YearStepsPrefix(pageUrl, entries, meta, resolve, i);
    ParseDatabaseInOrder(pageUrl, entries[..i], meta, resolve);
  }

  /** The database stage's first `i` iterations are those of the first `i` entries. */
  lemma YearStepsPrefix(pageUrl: string, entries: seq<Entry>, meta: Context, resolve: Resolver, i: nat)
    requires i <= |entries|
    ensures YearSteps(pageUrl, entries, meta, resolve)[..i] == YearSteps(pageUrl, entries[..i], meta, resolve)
  {
  }

  // ---------------------------------------------------------------- year stage

  /**
   * One iteration of `parse_years`. The resolved URL decides: a `.pdf` link
   * yields an item at once (no `text`, and `url` is this page's URL, not the
   * link's); any other link yields a request to the case stage. (`parse_years`
   * looks up `database` then `year` in either branch; doing so before the
   * test gives the same outcome.)
   */
  function CaseEntryStep(pageUrl: string, meta: Context, resolve: Resolver, e: Entry): (st: Step<Act>)
    ensures !st.Skip?
    ensures st.Raise? <==> e.href.None? || e.text.None? || DatabaseKey !in meta || YearKey !in meta
    ensures e.href.None? ==> st == Raise(NoHref)
    ensures e.href.Some? && e.text.None? ==> st == Raise(NoAnchorText)
    ensures st.Yield? ==>
      st.item == CaseEntryAct(pageUrl, meta, resolve(pageUrl, e.href.value), e.text.value)
  {
    if e.href.None? then Raise(NoHref)
    else if e.text.None? then Raise(NoAnchorText)
    else
      var url := resolve(pageUrl, e.href.value);
      match FirstMissing(meta, [DatabaseKey, YearKey])
      case Some(k) => Raise(MissingMeta(k))
      case None => Yield(CaseEntryAct(pageUrl, meta, url, e.text.value))
  }

  /**
   * What the year stage yields for a link to `target` labelled `name`: an
   * item at once when the target ends in `.pdf`, a request to the case stage
   * otherwise; both carry the inherited `database` and `year`.
   */
  function CaseEntryAct(pageUrl: string, meta: Context, target: string, name: string): (a: Act)
    requires DatabaseKey in meta && YearKey in meta
    ensures a.Emit? <==> EndsWith(target, ".pdf")
    ensures a.Emit? ==>
      && a.record.Keys == {DatabaseKey, YearKey, NameKey, UrlKey}
      && a.record[UrlKey] == pageUrl && a.record[NameKey] == name
      && a.record[DatabaseKey] == meta[DatabaseKey] && a.record[YearKey] == meta[YearKey]
    ensures a.Recurse? ==>
      && a.url == target && a.callback == CaseStage
      && a.meta.Keys == {DatabaseKey, YearKey, NameKey} && a.meta[NameKey] == name
      && a.meta[DatabaseKey] == meta[DatabaseKey] && a.meta[YearKey] == meta[YearKey]
  {
    if EndsWith(target, ".pdf") then
      Emit(map[DatabaseKey := meta[DatabaseKey], YearKey := meta[YearKey], NameKey := name, UrlKey := pageUrl])
    else
      Recurse(target, map[DatabaseKey := meta[DatabaseKey], YearKey := meta[YearKey], NameKey := name], CaseStage)
  }

  /** The iterations of the entry loop of `parse_years` over `entries`, one per entry. */
  function CaseEntrySteps(pageUrl: string, entries: seq<Entry>, meta: Context, resolve: Resolver): seq<Step<Act>> {
    seq(|entries|, i requires 0 <= i < |entries| => CaseEntryStep(pageUrl, meta, resolve, entries[i]))
  }

  /**
   * `Austlii.parse_years` on a year page whose `div.card/ul/li` entries are
   * `entries`. Every item is a four-field record stamped with this page's URL;
   * every request goes to a non-`.pdf` URL and carries three fields; both keep
   * `database` and `year`.
   */
  function ParseYears(pageUrl: string, entries: seq<Entry>, meta: Context, resolve: Resolver): (out: Yielded<Act>)
    ensures forall a :: a in out.items ==> DatabaseKey in meta && YearKey in meta
    ensures forall a :: a in out.items && a.Emit? ==>
      && a.record.Keys == {DatabaseKey, YearKey, NameKey, UrlKey}
      && a.record[UrlKey] == pageUrl
      && a.record[DatabaseKey] == meta[DatabaseKey] && a.record[YearKey] == meta[YearKey]
    ensures forall a :: a in out.items && a.Recurse? ==>
      && !EndsWith(a.url, ".pdf") && a.callback == CaseStage
      && a.meta.Keys == {DatabaseKey, YearKey, NameKey}
      && a.meta[DatabaseKey] == meta[DatabaseKey] && a.meta[YearKey] == meta[YearKey]
    ensures forall i :: 0 <= i < |entries| && entries[i].href.None? ==>
      out.error.Some? && |out.items| <= i
    ensures entries != [] && (DatabaseKey !in meta || YearKey !in meta) ==> out.items == [] && out.error.Some?
  {
    var steps := CaseEntrySteps(pageUrl, entries, meta, resolve);
    assert forall i :: 0 <= i < |entries| ==> steps[i] == CaseEntryStep(pageUrl, meta, resolve, entries[i]);
    Run(steps)
  }

  /**
   * The leaf rule of the year stage, entry by entry: on a well-formed page,
   * entry `i` yields an item exactly when its resolved URL ends in `.pdf`,
   * and a request otherwise; the item has exactly the fields `database`,
   * `year`, `name` and `url`, the last being the year page's own URL.
   */
  lemma ParseYearsLeafSplit(pageUrl: string, entries: seq<Entry>, meta: Context, resolve: Resolver, i: nat)
    requires DatabaseKey in meta && YearKey in meta
    requires forall j :: 0 <= j < |entries| ==> entries[j].href.Some? && entries[j].text.Some?
    requires i < |entries|
    ensures ParseYears(pageUrl, entries, meta, resolve).error.None?
    ensures |ParseYears(pageUrl, entries, meta, resolve).items| == |entries|
    ensures
      var target := resolve(pageUrl, entries[i].href.value);
      var a := ParseYears(pageUrl, entries, meta, resolve).items[i];
      && (a.Emit? <==> EndsWith(target, ".pdf"))
      && (a.Emit? ==> a.record == map[DatabaseKey := meta[DatabaseKey], YearKey := meta[YearKey],
                                      NameKey := entries[i].text.value, UrlKey := pageUrl])
      && (a.Recurse? ==> a == Recurse(target, map[DatabaseKey := meta[DatabaseKey], YearKey := meta[YearKey],
                                                  NameKey := entries[i].text.value], CaseStage))
  {
    RunAllYield(CaseEntrySteps(pageUrl, entries, meta, resolve));
  }

  /** Reference definition of the year stage's output: one item or request per entry, in document order. */
  function CaseEntryActs(pageUrl: string, entries: seq<Entry>, meta: Context, resolve: Resolver): seq<Act>
    requires DatabaseKey in meta && YearKey in meta
  {
    seq(|entries|, k requires 0 <= k < |entries| =>
      CaseEntryAct(pageUrl, meta, resolve(pageUrl, entries[k].href.GetOr("")), entries[k].text.GetOr("")))
  }

  /** On a well-formed year page, `parse_years` yields exactly the reference output. */
  lemma ParseYearsInOrder(pageUrl: string, entries: seq<Entry>, meta: Context, resolve: Resolver)
    requires DatabaseKey in meta && YearKey in meta
    requires forall j :: 0 <= j < |entries| ==> entries[j].href.Some? && entries[j].text.Some?
    ensures ParseYears(pageUrl, entries, meta, resolve) == Yielded(CaseEntryActs(pageUrl, entries, meta, resolve), None)
  {
    var steps := CaseEntrySteps(pageUrl, entries, meta, resolve);
    var acts := CaseEntryActs(pageUrl, entries, meta, resolve);
    RunAllYield(steps);
    forall k | 0 <= k < |entries| ensures steps[k].item == acts[k] {
      var e := entries[k];
      assert e.href.GetOr("") == e.href.value && e.text.GetOr("") == e.text.value;
      assert steps[k] == CaseEntryStep(pageUrl, meta, resolve, e);
    }
  }

  /**
   * When entry `i` is the first without an href or a label, `parse_years`
   * delivers exactly the items and requests of the entries before it, in
   * document order, and then raises for entry `i`.
   */
  lemma ParseYearsUntilRaise(pageUrl: string, entries: seq<Entry>, meta: Context, resolve: Resolver, i: nat)
    requires DatabaseKey in meta && YearKey in meta
    requires i < |entries| && (entries[i].href.None? || entries[i].text.None?)
    requires forall j :: 0 <= j < i ==> entries[j].href.Some? && entries[j].text.Some?
    ensures ParseYears(pageUrl, entries, meta, resolve) ==
      Yielded(CaseEntryActs(pageUrl, entries[..i], meta, resolve),
              Some(if entries[i].href.None? then NoHref else NoAnchorText))
  {
    var steps := CaseEntrySteps(pageUrl, entries, meta, resolve);
    RunFirstRaise(steps, i);
    CaseEntryStepsPrefix(pageUrl, entries, meta, resolve, i);
    ParseYearsInOrder(pageUrl, entries[..i], meta, resolve);
  }

  /** The year stage's first `i` iterations are those of the first `i` entries. */
  lemma CaseEntryStepsPrefix(pageUrl: string, entries: seq<Entry>, meta: Context, resolve: Resolver, i: nat)
    requires i <= |entries|
    ensures CaseEntrySteps(pageUrl, entries, meta, resolve)[..i] == CaseEntrySteps(pageUrl, entries[..i], meta, resolve)
  {
  }

  // ---------------------------------------------------------------- case stage

  /**
   * `Austlii.parse_case` on a case page whose `article.the-document` string
   * value is `articleText`: exactly one item, with the text, the page URL and
   * the three inherited fields.
   */
  function ParseCase(pageUrl: string, articleText: string, meta: Context): (out: Yielded<Act>)
    ensures out.error.None? <==> DatabaseKey in meta && YearKey in meta && NameKey in meta
    ensures out.error.Some? ==> out.items == []
    ensures out.error.None? ==>
      && |out.items| == 1 && out.items[0].Emit?
      && out.items[0].record.Keys == {TextKey, DatabaseKey, YearKey, NameKey, UrlKey}
      && out.items[0].record[TextKey] == articleText
      && out.items[0].record[UrlKey] == pageUrl
      && out.items[0].record[DatabaseKey] == meta[DatabaseKey]
      && out.items[0].record[YearKey] == meta[YearKey]
      && out.items[0].record[NameKey] == meta[NameKey]
  {
    match FirstMissing(meta, [DatabaseKey, YearKey, NameKey])
    case Some(k) => Yielded([], Some(MissingMeta(k)))
    case None =>
      Yielded([Emit(map[TextKey := articleText, DatabaseKey := meta[DatabaseKey], YearKey := meta[YearKey],
                        NameKey := meta[NameKey], UrlKey := pageUrl])], None)
  }

  // ----------------------------------------------------------- whole traversal

  /**
   * Context monotonicity along one path of the crawl: whatever pages are
   * fetched, a field set by an ancestor stage reaches every descendant
   * request and item unchanged, and every stage finds the fields it looks up.
   */
  lemma AncestorFieldsReachItems(
    rootUrl: string, databases: seq<Entry>,
    databaseUrl: string, years: seq<Entry>,
    yearUrl: string, cases: seq<Entry>,
    caseUrl: string, articleText: string,
    resolve: Resolver, r1: Act, r2: Act, a3: Act)
    requires r1 in Parse(rootUrl, databases, resolve).items
    requires r2 in ParseDatabase(databaseUrl, years, r1.meta, resolve).items
    requires a3 in ParseYears(yearUrl, cases, r2.meta, resolve).items
    ensures r1.callback == DatabaseStage && r2.callback == YearsStage
    ensures r2.meta[DatabaseKey] == r1.meta[DatabaseKey]
    ensures a3.Emit? ==> a3.record[DatabaseKey] == r1.meta[DatabaseKey] && a3.record[YearKey] == r2.meta[YearKey]
    ensures a3.Recurse? ==>
      var out := ParseCase(caseUrl, articleText, a3.meta);
      && out.error.None? && |out.items| == 1
      && out.items[0].record[DatabaseKey] == r1.meta[DatabaseKey]
      && out.items[0].record[YearKey] == r2.meta[YearKey]
      && out.items[0].record[NameKey] == a3.meta[NameKey]
  {
  }
}
