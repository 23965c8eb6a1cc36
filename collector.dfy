/** The scroll loop of `scrape_category` and the category loop of
    `scrape_all_target_categories`, as functions of what the browser shows.
    A page is given by oracles: whether it opens, what each scroll does to
    the page height, which cards each enumeration returns (`None` when
    `find_elements` raises), and the cards of the final enumeration. */
module Collector {
  import opened Common
  import opened Records
  import opened Naming
  import opened Extraction
  import opened Store
  import opened Planner

  /** The outcome of one scroll: the page grew, it did not, or a script
      call raised (which ends the category). */
  datatype Growth = Grew | NoGrowth | ScriptError

  datatype Page = Page(
    opens: bool,
    step: nat -> Growth,
    cardsAt: nat -> Option<seq<Card>>,
    finalCards: Option<seq<Card>>)

  const MaxScrolls: nat := 100
  const MaxItems: nat := 1000
  const MaxStalls: nat := 5

  /** The loop's variables: the product list and seen names, and the
      counters `scroll_count`, `products_collected`, `no_growth_count`. */
  datatype Scan = Scan(products: seq<Product>, seen: set<string>, scrolls: nat, collected: nat, stalls: nat)

  /** Why the loop ended: five stalls, a cap, or a raised script call. */
  datatype Stop = Exhausted | Capped | Failed

  /** A successful enumeration: its cards are processed, the category's
      products are counted and the stall counter is reset. */
  function Absorb(s: Scan, category: string, cards: seq<Card>): Scan {
    var added := Harvest(cards, category, s.seen);
    var products := s.products + added;
    Scan(products, s.seen + Names(added), s.scrolls, |CategoryRows(products, category)|, 0)
  }

  /** The `while scroll_count < 100 and products_collected < 1000` loop. */
  function ScrollLoop(page: Page, category: string, s: Scan): (Scan, Stop)
    decreases MaxScrolls - s.scrolls
  {
    if !(s.scrolls < MaxScrolls && s.collected < MaxItems) then (s, Capped)
    else match page.step(s.scrolls)
      case ScriptError => (s, Failed)
      case NoGrowth =>
        var t := s.(scrolls := s.scrolls + 1, stalls := s.stalls + 1);
        if t.stalls >= MaxStalls then (t, Exhausted) else ScrollLoop(page, category, t)
      case Grew =>
        var t := s.(scrolls := s.scrolls + 1);
        match page.cardsAt(s.scrolls)
        case None => ScrollLoop(page, category, t)
        case Some(cards) => ScrollLoop(page, category, Absorb(t, category, cards))
  }

  /** The loop never takes more than 100 scrolls. */
  lemma {:induction false} ScrollBound(page: Page, category: string, s: Scan)
    requires s.scrolls <= MaxScrolls
    ensures s.scrolls <= ScrollLoop(page, category, s).0.scrolls <= MaxScrolls
    decreases MaxScrolls - s.scrolls
  {
    if s.scrolls < MaxScrolls && s.collected < MaxItems {
      var t := s.(scrolls := s.scrolls + 1);
      match page.step(s.scrolls)
      case ScriptError =>
      case NoGrowth =>
        ScrollBound(page, category, t.(stalls := s.stalls + 1));
      case Grew =>
        match page.cardsAt(s.scrolls)
        case None => ScrollBound(page, category, t);
        case Some(cards) => ScrollBound(page, category, Absorb(t, category, cards));
    }
  }

  /** A cap is hit only at 100 scrolls or 1000 products of the category. */
  lemma {:induction false} CapReached(page: Page, category: string, s: Scan)
    ensures ScrollLoop(page, category, s).1 == Capped ==>
      ScrollLoop(page, category, s).0.scrolls >= MaxScrolls || ScrollLoop(page, category, s).0.collected >= MaxItems
    decreases MaxScrolls - s.scrolls
  {
    if s.scrolls < MaxScrolls && s.collected < MaxItems {
      var t := s.(scrolls := s.scrolls + 1);
      match page.step(s.scrolls)
      case ScriptError =>
      case NoGrowth =>
        CapReached(page, category, t.(stalls := s.stalls + 1));
      case Grew =>
        match page.cardsAt(s.scrolls)
        case None => CapReached(page, category, t);
        case Some(cards) => CapReached(page, category, Absorb(t, category, cards));
    }
  }

  /** The loop fails only on a script call that raised, and then at the
      scroll where it raised. */
  lemma {:induction false} ScrollFailure(page: Page, category: string, s: Scan)
    ensures ScrollLoop(page, category, s).1 == Failed ==>
      page.step(ScrollLoop(page, category, s).0.scrolls) == ScriptError
    decreases MaxScrolls - s.scrolls
  {
    if s.scrolls < MaxScrolls && s.collected < MaxItems {
      var t := s.(scrolls := s.scrolls + 1);
      match page.step(s.scrolls)
      case ScriptError =>
      case NoGrowth =>
        ScrollFailure(page, category, t.(stalls := s.stalls + 1));
      case Grew =>
        match page.cardsAt(s.scrolls)
        case None => ScrollFailure(page, category, t);
        case Some(cards) => ScrollFailure(page, category, Absorb(t, category, cards));
    }
  }

  /** The stall counter after `k` scrolls, read off the page alone: a
      non-growing scroll adds one, a growing scroll whose cards were read
      resets it, a growing scroll whose enumeration raised leaves it. */
  function StallsAfter(page: Page, k: nat): nat {
    if k == 0 then 0
    else match page.step(k - 1)
      case NoGrowth => StallsAfter(page, k - 1) + 1
      case Grew => if page.cardsAt(k - 1).Some? then 0 else StallsAfter(page, k - 1)
      case ScriptError => StallsAfter(page, k - 1)
  }

  /** The loop's stall counter is that count, and the loop ends for lack
      of growth exactly when the count reaches five. */
  lemma {:induction false} ExhaustedAtFifthStall(page: Page, category: string, s: Scan)
    requires s.stalls == StallsAfter(page, s.scrolls) && s.stalls < MaxStalls
    ensures ScrollLoop(page, category, s).0.stalls == StallsAfter(page, ScrollLoop(page, category, s).0.scrolls)
    ensures ScrollLoop(page, category, s).1 == Exhausted <==>
      StallsAfter(page, ScrollLoop(page, category, s).0.scrolls) == MaxStalls
    decreases MaxScrolls - s.scrolls
  {
    if s.scrolls < MaxScrolls && s.collected < MaxItems {
      var t := s.(scrolls := s.scrolls + 1);
      match page.step(s.scrolls)
      case ScriptError =>
      case NoGrowth =>
        var u := t.(stalls := s.stalls + 1);
        if u.stalls < MaxStalls {
          ExhaustedAtFifthStall(page, category, u);
        }
      case Grew =>
        match page.cardsAt(s.scrolls)
        case None => ExhaustedAtFifthStall(page, category, t);
        case Some(cards) => ExhaustedAtFifthStall(page, category, Absorb(t, category, cards));
    }
  }

  /** Before the loop ends the count stays below five at every scroll, so
      the fifth stall is the first one that could have ended it. */
  lemma {:induction false} StallsBelowFiveUntilEnd(page: Page, category: string, s: Scan)
    requires s.stalls == StallsAfter(page, s.scrolls) && s.stalls < MaxStalls
    ensures forall k :: s.scrolls <= k < ScrollLoop(page, category, s).0.scrolls ==> StallsAfter(page, k) < MaxStalls
    decreases MaxScrolls - s.scrolls
  {
    if s.scrolls < MaxScrolls && s.collected < MaxItems {
      var t := s.(scrolls := s.scrolls + 1);
      match page.step(s.scrolls)
      case ScriptError =>
      case NoGrowth =>
        var u := t.(stalls := s.stalls + 1);
        if u.stalls < MaxStalls {
          StallsBelowFiveUntilEnd(page, category, u);
        }
      case Grew =>
        match page.cardsAt(s.scrolls)
        case None => StallsBelowFiveUntilEnd(page, category, t);
        case Some(cards) => StallsBelowFiveUntilEnd(page, category, Absorb(t, category, cards));
    }
  }

  /** Non-growing scrolls in a row, as many as the counter lacks to reach
      five (five from a reset counter), end the loop by the last of them at
      the latest, without a failure. */
  lemma {:induction false} FiveStallsStop(page: Page, category: string, s: Scan)
    requires s.stalls < MaxStalls
    requires forall k :: s.scrolls <= k < s.scrolls + (MaxStalls - s.stalls) ==> page.step(k) == NoGrowth
    ensures ScrollLoop(page, category, s).0.scrolls <= s.scrolls + MaxStalls - s.stalls
    ensures ScrollLoop(page, category, s).1 != Failed
    decreases MaxStalls - s.stalls
  {
    if s.scrolls < MaxScrolls && s.collected < MaxItems {
      var u := s.(scrolls := s.scrolls + 1, stalls := s.stalls + 1);
      if u.stalls < MaxStalls {
        FiveStallsStop(page, category, u);
      }
    }
  }

  /** A page that never grows ends after exactly five scrolls, with nothing
      collected. */
  lemma FlatPage(page: Page, category: string, products: seq<Product>, seen: set<string>)
    requires forall k :: page.step(k) == NoGrowth
    ensures ScrollLoop(page, category, Scan(products, seen, 0, 0, 0)) == (Scan(products, seen, 5, 0, 5), Exhausted)
  {
    var s := Scan(products, seen, 0, 0, 0);
    assert ScrollLoop(page, category, s) == ScrollLoop(page, category, s.(scrolls := 1, stalls := 1));
    assert ScrollLoop(page, category, s.(scrolls := 1, stalls := 1)) == ScrollLoop(page, category, s.(scrolls := 2, stalls := 2));
    assert ScrollLoop(page, category, s.(scrolls := 2, stalls := 2)) == ScrollLoop(page, category, s.(scrolls := 3, stalls := 3));
    assert ScrollLoop(page, category, s.(scrolls := 3, stalls := 3)) == ScrollLoop(page, category, s.(scrolls := 4, stalls := 4));
  }

  /** A page that keeps growing while every enumeration raises is scrolled
      until the 100-scroll cap. */
  lemma {:induction false} EndlessPage(page: Page, category: string, s: Scan)
    requires forall k :: page.step(k) == Grew && page.cardsAt(k) == None
    requires s.scrolls <= MaxScrolls && s.collected < MaxItems
    ensures ScrollLoop(page, category, s) == (s.(scrolls := MaxScrolls), Capped)
    decreases MaxScrolls - s.scrolls
  {
    if s.scrolls < MaxScrolls {
      EndlessPage(page, category, s.(scrolls := s.scrolls + 1));
    }
  }

  /** What the loop adds: the list keeps its prefix, the new products are
      of the category, their names are distinct and were not seen, and the
      seen set grows by exactly those names. */
  lemma {:induction false} ScrollFresh(page: Page, category: string, s: Scan)
    ensures |s.products| <= |ScrollLoop(page, category, s).0.products|
    ensures Fresh(s.products, s.seen, ScrollLoop(page, category, s).0.products, ScrollLoop(page, category, s).0.seen, category)
    decreases MaxScrolls - s.scrolls
  {
    if s.scrolls < MaxScrolls && s.collected < MaxItems {
      var t := s.(scrolls := s.scrolls + 1);
      match page.step(s.scrolls)
      case ScriptError =>
        FreshNothing(s.products, s.seen, category);
      case NoGrowth =>
        var u := t.(stalls := s.stalls + 1);
        if u.stalls >= MaxStalls {
          FreshNothing(s.products, s.seen, category);
        } else {
          ScrollFresh(page, category, u);
        }
      case Grew =>
        match page.cardsAt(s.scrolls)
        case None =>
          ScrollFresh(page, category, t);
        case Some(cards) =>
          var a := Absorb(t, category, cards);
          HarvestIsFresh(s.products, s.seen, cards, category);
          ScrollFresh(page, category, a);
          FreshTrans(s.products, s.seen, a.products, a.seen, ScrollLoop(page, category, a).0.products,
            ScrollLoop(page, category, a).0.seen, category);
    }
    else {
      FreshNothing(s.products, s.seen, category);
    }
  }

  /** `after` extends `before` by products whose names are distinct, were
      not in `seen`, and are exactly what `seen'` adds. */
  ghost predicate Extends(before: seq<Product>, seen: set<string>, after: seq<Product>, seen': set<string>) {
    && |before| <= |after|
    && after[..|before|] == before
    && NamesDistinct(after[|before|..])
    && (forall k :: |before| <= k < |after| ==> after[k].name !in seen)
    && seen' == seen + Names(after[|before|..])
  }

  /** An extension whose new products are all of `category`. */
  ghost predicate Fresh(before: seq<Product>, seen: set<string>, after: seq<Product>, seen': set<string>, category: string) {
    Extends(before, seen, after, seen') && forall k :: |before| <= k < |after| ==> after[k].category == category
  }

  lemma FreshNothing(products: seq<Product>, seen: set<string>, category: string)
    ensures Fresh(products, seen, products, seen, category)
  {
    assert products[|products|..] == [];
    assert Names([]) == {};
  }

  lemma HarvestIsFresh(products: seq<Product>, seen: set<string>, cards: seq<Card>, category: string)
    ensures Fresh(products, seen, products + Harvest(cards, category, seen), seen + Names(Harvest(cards, category, seen)), category)
  {
    var added := Harvest(cards, category, seen);
    HarvestFresh(cards, category, seen);
    var after := products + added;
    assert after[|products|..] == added;
    assert after[..|products|] == products;
    forall k | |products| <= k < |after| ensures after[k].name !in seen && after[k].category == category {
      assert after[k] == added[k - |products|];
    }
  }

  lemma ExtendsTrans(a: seq<Product>, sa: set<string>, b: seq<Product>, sb: set<string>, c: seq<Product>, sc: set<string>)
    requires Extends(a, sa, b, sb) && Extends(b, sb, c, sc)
    ensures Extends(a, sa, c, sc)
  {
    var x, y := b[|a|..], c[|b|..];
    assert c[|a|..] == x + y;
    assert c[..|a|] == a by { assert c[..|b|] == b; assert c[..|a|] == c[..|b|][..|a|]; }
    NamesAppend(x, y);
    forall k | |a| <= k < |c| ensures c[k].name !in sa {
      if k < |b| {
        assert c[k] == b[k];
      } else {
        assert c[k] == y[k - |b|];
      }
    }
    forall i, j | 0 <= i < j < |x + y| ensures (x + y)[i].name != (x + y)[j].name {
      if j >= |x| && i < |x| {
        assert (x + y)[i] == x[i] && x[i].name in Names(x);
        assert (x + y)[j] == c[|b| + j - |x|];
      } else if i >= |x| {
        assert (x + y)[i] == y[i - |x|] && (x + y)[j] == y[j - |x|];
      }
    }
  }

  lemma FreshTrans(a: seq<Product>, sa: set<string>, b: seq<Product>, sb: set<string>, c: seq<Product>, sc: set<string>, category: string)
    requires Fresh(a, sa, b, sb, category) && Fresh(b, sb, c, sc, category)
    ensures Fresh(a, sa, c, sc, category)
  {
    ExtendsTrans(a, sa, b, sb, c, sc);
    forall k | |a| <= k < |c| ensures c[k].category == category {
      if k < |b| {
        assert c[..|b|] == b;
        assert c[k] == c[..|b|][k];
      }
    }
  }

  // ---------------------------------------------------------------- scrape_category

  /** The product list, the seen names and the files after one category. */
  datatype Run = Run(products: seq<Product>, seen: set<string>, files: Files)

  /** `scrape_category`: a page that does not open changes nothing; a
      script failure keeps what was collected and skips the final pass and
      the save; otherwise the final enumeration is processed (when it does
      not raise) and the category is saved. */
  function CategoryRun(page: Page, category: string, run: Run): Run {
    if !page.opens then run
    else
      var (s, stop) := ScrollLoop(page, category, Scan(run.products, run.seen, 0, 0, 0));
      if stop == Failed then Run(s.products, s.seen, run.files)
      else
        var last := match page.finalCards
          case None => s
          case Some(cards) => Absorb(s, category, cards);
        Run(last.products, last.seen, SaveCategory(run.files, last.products, category))
  }

  /** One category adds fresh products of that category only. */
  lemma CategoryRunFresh(page: Page, category: string, run: Run)
    ensures Fresh(run.products, run.seen, CategoryRun(page, category, run).products, CategoryRun(page, category, run).seen, category)
  {
    if !page.opens {
      FreshNothing(run.products, run.seen, category);
    } else {
      var s0 := Scan(run.products, run.seen, 0, 0, 0);
      var (s, stop) := ScrollLoop(page, category, s0);
      ScrollFresh(page, category, s0);
      if stop != Failed {
        match page.finalCards
        case None =>
        case Some(cards) =>
          HarvestIsFresh(s.products, s.seen, cards, category);
          FreshTrans(run.products, run.seen, s.products, s.seen, Absorb(s, category, cards).products,
            Absorb(s, category, cards).seen, category);
      }
    }
  }

  /** Files change only when the loop did not fail, and then exactly as the
      category save says, with the products after the final pass. */
  lemma CategoryRunFiles(page: Page, category: string, run: Run)
    ensures !page.opens || ScrollLoop(page, category, Scan(run.products, run.seen, 0, 0, 0)).1 == Failed ==>
      CategoryRun(page, category, run).files == run.files
    ensures page.opens && ScrollLoop(page, category, Scan(run.products, run.seen, 0, 0, 0)).1 != Failed ==>
      CategoryRun(page, category, run).files == SaveCategory(run.files, CategoryRun(page, category, run).products, category)
  {
  }

  // ---------------------------------------------------------------- scrape_all_target_categories

  /** `target_categories[name]`, if the name is a target. */
  function UrlOf(targets: seq<Target>, name: string): (r: Option<string>)
    ensures r.Some? ==> exists k :: 0 <= k < |targets| && targets[k] == Target(name, r.value)
    ensures r.None? ==> forall k :: 0 <= k < |targets| ==> targets[k].name != name
    decreases |targets|
  {
    if targets == [] then None
    else if targets[0].name == name then Some(targets[0].url)
    else UrlOf(targets[1..], name)
  }

  /** The categories in order, each known one scraped from the page its URL
      shows, an unknown one skipped. */
  function ScrapeEach(targets: seq<Target>, browse: string -> Page, categories: seq<string>, run: Run): Run
    decreases |categories|
  {
    if categories == [] then run
    else
      var next := match UrlOf(targets, categories[0])
        case None => run
        case Some(url) => CategoryRun(browse(url), categories[0], run);
      ScrapeEach(targets, browse, categories[1..], next)
  }

  /** `scrape_all_target_categories`: no list means every target. */
  function ScrapeAll(targets: seq<Target>, browse: string -> Page, categories: Option<seq<string>>, run: Run): Run {
    match categories
    case None => ScrapeEach(targets, browse, Labels(targets), run)
    case Some(cs) => ScrapeEach(targets, browse, cs, run)
  }

  /** Scraping two lists one after the other is scraping their concatenation. */
  lemma {:induction false} ScrapeEachAppend(targets: seq<Target>, browse: string -> Page, xs: seq<string>, ys: seq<string>, run: Run)
    ensures ScrapeEach(targets, browse, xs + ys, run) == ScrapeEach(targets, browse, ys, ScrapeEach(targets, browse, xs, run))
    decreases |xs|
  {
    if xs == [] {
      assert xs + ys == ys;
    } else {
      assert (xs + ys)[0] == xs[0] && (xs + ys)[1..] == xs[1..] + ys;
      var next := match UrlOf(targets, xs[0])
        case None => run
        case Some(url) => CategoryRun(browse(url), xs[0], run);
      ScrapeEachAppend(targets, browse, xs[1..], ys, next);
    }
  }

  /** A category that is not a target is skipped. */
  lemma UnknownSkipped(targets: seq<Target>, browse: string -> Page, name: string, rest: seq<string>, run: Run)
    requires forall k :: 0 <= k < |targets| ==> targets[k].name != name
    ensures ScrapeEach(targets, browse, [name] + rest, run) == ScrapeEach(targets, browse, rest, run)
  {
    assert ([name] + rest)[1..] == rest;
    assert UrlOf(targets, name).None?;
  }

  /** Over a whole run no name is collected twice: the seen set is shared by
      every category, so what the run adds has distinct names that were not
      seen when it started. */
  lemma {:induction false} ScrapeEachFresh(targets: seq<Target>, browse: string -> Page, categories: seq<string>, run: Run)
    ensures Extends(run.products, run.seen, ScrapeEach(targets, browse, categories, run).products,
      ScrapeEach(targets, browse, categories, run).seen)
    decreases |categories|
  {
    if categories == [] {
      FreshNothing(run.products, run.seen, "");
    } else {
      var next := match UrlOf(targets, categories[0])
        case None => run
        case Some(url) => CategoryRun(browse(url), categories[0], run);
      if UrlOf(targets, categories[0]).None? {
        FreshNothing(run.products, run.seen, "");
      } else {
        CategoryRunFresh(browse(UrlOf(targets, categories[0]).value), categories[0], run);
      }
      ScrapeEachFresh(targets, browse, categories[1..], next);
      var last := ScrapeEach(targets, browse, categories[1..], next);
      ExtendsTrans(run.products, run.seen, next.products, next.seen, last.products, last.seen);
    }
  }
}
