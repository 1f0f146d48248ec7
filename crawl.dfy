/**
 * What the two spiders share: the metadata carried on a request, the two
 * things a stage callback yields (a further request or a finished item),
 * the ways a callback fails, and how a generator callback that may raise
 * part-way through hands its output to the crawl engine.
 */
module Crawl {
  import opened Wrappers

  /** `request.meta` / `response.meta`: field name to string value. */
  type Context = map<string, string>

  /** A yielded item dict. */
  type Record = map<string, string>

  /**
   * `response.urljoin(href)`: resolution of a reference against the page's
   * URL (section 5.2 of RFC 3986). It is done by the crawling library and is
   * a parameter of the model.
   */
  type Resolver = (string, string) -> string

  /** Why a callback raised. */
  datatype Error =
    | NoHref                 // `[0]` of an empty `@href` list
    | NoAnchorText           // `[0]` of an empty `text()` list
    | NoFullTextRegion       // no `div.itemFullText` on a case page
    | NoCaseName             // no `h2` text inside that region
    | NoCaseNumber           // no `h1.itemTitle` text
    | NoDateToken            // `split()[0]` of a whitespace-only paragraph
    | MissingMeta(key: string)  // `response.meta[key]` without that key
    | PdfDecodeError         // the PDF decoder rejected the body

  /** A yielded request to the callback `callback`, or a yielded item. */
  datatype Action<S> = Recurse(url: string, meta: Context, callback: S) | Emit(record: Record)

  /** One iteration of a callback's loop: `continue`, `yield`, or an exception. */
  datatype Step<A> = Skip | Yield(item: A) | Raise(error: Error)

  /** What the engine receives from one callback: the items yielded, and the exception that ended it, if any. */
  datatype Yielded<A> = Yielded(items: seq<A>, error: Option<Error>)

  /**
   * Running a generator whose loop iterations behave as `steps`: the items
   * of the `Yield` steps are delivered in order until the first `Raise`,
   * which ends the generator.
   */
  function Run<A>(steps: seq<Step<A>>): (out: Yielded<A>)
    ensures |out.items| <= |steps|
    ensures out.error.Some? <==> exists i :: 0 <= i < |steps| && steps[i].Raise?
    ensures forall i :: 0 <= i < |steps| && steps[i].Raise? ==> |out.items| <= i
    ensures forall x :: x in out.items ==> exists i :: 0 <= i < |steps| && steps[i] == Yield(x)
  {
    if steps == [] then Yielded([], None)
    else
      var rest := Run(steps[1..]);
      assert forall i :: 1 <= i < |steps| ==> steps[i] == steps[1..][i - 1];
      match steps[0]
      case Skip => rest
      case Yield(x) => Yielded([x] + rest.items, rest.error)
      case Raise(e) => Yielded([], Some(e))
  }

  /** Running two stretches of loop iterations one after the other. */
  lemma {:induction false} RunAppend<A>(first: seq<Step<A>>, second: seq<Step<A>>)
    ensures Run(first + second) ==
      if Run(first).error.Some? then Run(first)
      else Yielded(Run(first).items + Run(second).items, Run(second).error)
  {
    if first == [] {
      assert first + second == second;
    } else {
      var all := first + second;
      assert all[0] == first[0] && all[1..] == first[1..] + second;
      RunAppend(first[1..], second);
      match first[0]
      case Skip =>
      case Raise(_) =>
      case Yield(x) =>
        var a, b := Run(first[1..]).items, Run(second).items;
        assert [x] + (a + b) == ([x] + a) + b;
    }
  }

  /** A run that has raised within its first `n` iterations is unaffected by the rest. */
  lemma RaisedPrefix<A>(steps: seq<Step<A>>, n: nat)
    requires n <= |steps| && Run(steps[..n]).error.Some?
    ensures Run(steps) == Run(steps[..n])
  {
    SplitAt(steps, n);
    RunAppend(steps[..n], steps[n..]);
  }

  /**
   * The first iteration that raises ends the generator: what it delivers is
   * everything the iterations before it yielded, with that iteration's error.
   */
  lemma RunFirstRaise<A>(steps: seq<Step<A>>, i: nat)
    requires i < |steps| && steps[i].Raise?
    requires forall j :: 0 <= j < i ==> !steps[j].Raise?
    ensures Run(steps[..i]).error.None?
    ensures Run(steps) == Yielded(Run(steps[..i]).items, Some(steps[i].error))
  {
    assert forall j :: 0 <= j < i ==> steps[..i][j] == steps[j];
    RunExtend(steps, i);
    RaisedPrefix(steps, i + 1);
  }

  /** A sequence is its first `n` elements followed by the rest. */
  lemma SplitAt<A>(steps: seq<A>, n: nat)
    requires n <= |steps|
    ensures steps == steps[..n] + steps[n..]
  {
  }

  /** Running the first `i + 1` iterations, from the outcome of the first `i`. */
  lemma RunExtend<A>(steps: seq<Step<A>>, i: nat)
    requires i < |steps| && Run(steps[..i]).error.None?
    ensures Run(steps[..i + 1]) ==
      match steps[i]
      case Skip => Run(steps[..i])
      case Yield(x) => Yielded(Run(steps[..i]).items + [x], None)
      case Raise(e) => Yielded(Run(steps[..i]).items, Some(e))
  {
    assert steps[..i + 1] == steps[..i] + [steps[i]];
    RunAppend(steps[..i], [steps[i]]);
  }

  /** An iteration that skips contributes nothing: dropping it leaves the outcome unchanged. */
  lemma RunWithoutSkip<A>(steps: seq<Step<A>>, i: nat)
    requires i < |steps| && steps[i].Skip?
    ensures Run(steps) == Run(steps[..i] + steps[i + 1..])
  {
    var before, after := steps[..i], steps[i + 1..];
    Surround(steps, i);
    RunAppend(before, [steps[i]] + after);
    SkipFirst(steps[i], after);
    RunAppend(before, after);
  }

  /** A sequence is the elements before position `i`, the one at `i`, and those after. */
  lemma Surround<A>(steps: seq<A>, i: nat)
    requires i < |steps|
    ensures steps == steps[..i] + ([steps[i]] + steps[i + 1..])
  {
  }

  /** A first iteration that skips contributes nothing. */
  lemma SkipFirst<A>(s: Step<A>, rest: seq<Step<A>>)
    requires s.Skip?
    ensures Run([s] + rest) == Run(rest)
  {
    assert ([s] + rest)[1..] == rest;
  }

  /** A generator none of whose iterations skips or raises yields one item per iteration, in order. */
  lemma {:induction false} RunAllYield<A>(steps: seq<Step<A>>)
    requires forall i :: 0 <= i < |steps| ==> steps[i].Yield?
    ensures Run(steps).error.None?
    ensures |Run(steps).items| == |steps|
    ensures forall i :: 0 <= i < |steps| ==> Run(steps).items[i] == steps[i].item
  {
    if steps != [] {
      RunAllYield(steps[1..]);
    }
  }

  /** The outputs of `f` on each element of `xs`, concatenated in order (a filter-map when each is empty or one item). */
  function Concat<T, U>(f: T -> seq<U>, xs: seq<T>): seq<U> {
    if xs == [] then [] else f(xs[0]) + Concat(f, xs[1..])
  }

  /** Concatenating over consecutive runs gives the outputs of the first run, then those of the second. */
  lemma {:induction false} ConcatAppend<T, U>(f: T -> seq<U>, xs: seq<T>, ys: seq<T>)
    ensures Concat(f, xs + ys) == Concat(f, xs) + Concat(f, ys)
  {
    if xs == [] {
      assert xs + ys == ys;
    } else {
      ConcatAppend(f, xs[1..], ys);
      assert (xs + ys)[1..] == xs[1..] + ys;
    }
  }

  /**
   * The first of `keys` that `meta` lacks, in order: the lookup of a dict
   * literal `{k: meta[k], ...}` that raises `KeyError`.
   */
  function FirstMissing(meta: Context, keys: seq<string>): (k: Option<string>)
    ensures k.None? <==> forall key :: key in keys ==> key in meta
    ensures k.Some? ==> k.value in keys && k.value !in meta
    ensures k.Some? ==> exists n :: 0 <= n < |keys| && keys[n] == k.value && forall m :: 0 <= m < n ==> keys[m] in meta
  {
    if keys == [] then None
    else if keys[0] !in meta then Some(keys[0])
    else
      var k := FirstMissing(meta, keys[1..]);
      assert forall i :: 1 <= i < |keys| ==> keys[i] == keys[1..][i - 1];
      if k.Some? then
        var n :| 0 <= n < |keys[1..]| && keys[1..][n] == k.value && forall m :: 0 <= m < n ==> keys[1..][m] in meta;
        assert keys[n + 1] == k.value && forall m :: 0 <= m < n + 1 ==> keys[m] in meta;
        k
      else k
  }
}
