/** The scraper object (`VoilaFocusedScraper`): its product list and its
    run-wide set of seen names change in place, and the working directory it
    reads and writes is a shared file store. Every method is proved against
    the function that specifies it in the other modules. */
module Scraper {
  import opened Common
  import opened Text
  import opened Records
  import opened Naming
  import opened Extraction
  import opened Store
  import opened Planner
  import opened Collector

  /** The working directory: file name to table. */
  class FileStore {
    var files: Files

    constructor(files: Files)
      ensures this.files == files
    {
      this.files := files;
    }
  }

  class VoilaScraper {
    /** `target_categories`. */
    const targets: seq<Target>
    const disk: FileStore
    /** `self.products`. */
    var products: seq<Product>
    /** `self.seen_product_names`. */
    var seen: set<string>
    /** Where the products collected in this run start: everything before
        it was loaded from files, and a reload never adds to `seen`. */
    ghost var reloadMark: nat

    /** The products collected in this run have distinct names, all seen.
        Nothing is claimed about reloaded rows: their names are not seen. */
    ghost predicate Valid()
      reads this
    {
      reloadMark <= |products| &&
      NamesDistinct(products[reloadMark..]) &&
      Names(products[reloadMark..]) <= seen
    }

    constructor(disk: FileStore)
      ensures this.disk == disk && targets == TargetCategories
      ensures products == [] && seen == {} && Valid()
    {
      this.targets := TargetCategories;
      this.disk := disk;
      products := [];
      seen := {};
      reloadMark := 0;
      new;
      assert products[0..] == [];
    }

    // ------------------------------------------------------------ check_existing_files

    /** The existing category files, the missing categories and the
        run-wide files that exist, each in its list order. */
    method CheckExistingFiles() returns (existing: seq<(string, string)>, missing: seq<string>, others: seq<string>)
      ensures existing == ExistingFiles(targets, disk.files)
      ensures missing == MissingCategories(targets, disk.files)
      ensures others == OtherFilesPresent(disk.files)
    {
      existing, missing := [], [];
      var i := 0;
      while i < |targets|
        invariant 0 <= i <= |targets|
        invariant existing + ExistingFiles(targets[i..], disk.files) == ExistingFiles(targets, disk.files)
        invariant missing + MissingCategories(targets[i..], disk.files) == MissingCategories(targets, disk.files)
      {
        var name := targets[i].name;
        var filename := CategoryFileName(name);
        CheckStep(targets, i, disk.files);
        if filename in disk.files {
          assert existing + ([(name, filename)] + ExistingFiles(targets[i + 1..], disk.files))
              == (existing + [(name, filename)]) + ExistingFiles(targets[i + 1..], disk.files);
          assert [] + MissingCategories(targets[i + 1..], disk.files) == MissingCategories(targets[i + 1..], disk.files);
          existing := existing + [(name, filename)];
        } else {
          assert missing + ([name] + MissingCategories(targets[i + 1..], disk.files))
              == (missing + [name]) + MissingCategories(targets[i + 1..], disk.files);
          assert [] + ExistingFiles(targets[i + 1..], disk.files) == ExistingFiles(targets[i + 1..], disk.files);
          missing := missing + [name];
        }
        i := i + 1;
      }
      others := FindPresent(OtherFiles);
    }

    /** The names of `names` that exist, in their order. */
    method FindPresent(names: seq<string>) returns (present: seq<string>)
      ensures present == Present(names, disk.files)
    {
      present := [];
      var j := 0;
      while j < |names|
        invariant 0 <= j <= |names|
        invariant present + Present(names[j..], disk.files) == Present(names, disk.files)
      {
        PresentStep(names, j, disk.files);
        if names[j] in disk.files {
          assert present + ([names[j]] + Present(names[j + 1..], disk.files))
              == (present + [names[j]]) + Present(names[j + 1..], disk.files);
          present := present + [names[j]];
        } else {
          assert [] + Present(names[j + 1..], disk.files) == Present(names[j + 1..], disk.files);
        }
        j := j + 1;
      }
    }

    // ------------------------------------------------------------ load_existing_products

    /** Replaces the list by the progress file when it can be read, and
        otherwise appends the rows of every readable existing category file;
        the seen names are left as they were. */
    method LoadExistingProducts()
      modifies this
      ensures products == Reloaded(old(products), targets, disk.files)
      ensures seen == old(seen)
      ensures reloadMark == |products| && Valid()
    {
      if ProgressFile in disk.files && disk.files[ProgressFile].Readable? {
        products := disk.files[ProgressFile].rows;
        reloadMark := |products|;
        assert products[reloadMark..] == [];
        return;
      }
      var existing, _, _ := CheckExistingFiles();
      LoadCategoryFiles(existing);
      reloadMark := |products|;
      assert products[reloadMark..] == [];
    }

    /** Appends the rows of every readable file among `existing`, in order. */
    method LoadCategoryFiles(existing: seq<(string, string)>)
      modifies this
      ensures products == old(products) + LoadedRows(existing, disk.files)
      ensures seen == old(seen)
    {
      var i := 0;
      while i < |existing|
        invariant 0 <= i <= |existing|
        invariant products == old(products) + LoadedRows(existing[..i], disk.files)
        invariant seen == old(seen)
      {
        var filename := existing[i].1;
        LoadedRowsSnoc(existing, i, disk.files);
        if filename in disk.files && disk.files[filename].Readable? {
          assert old(products) + (LoadedRows(existing[..i], disk.files) + RowsOf(disk.files, filename))
              == (old(products) + LoadedRows(existing[..i], disk.files)) + RowsOf(disk.files, filename);
          products := products + disk.files[filename].rows;
        } else {
          assert LoadedRows(existing[..i], disk.files) + [] == LoadedRows(existing[..i], disk.files);
        }
        i := i + 1;
      }
      assert existing[..i] == existing;
    }

    // ------------------------------------------------------------ resuming

    /** `auto_continue_from_existing`: the categories to scrape, after a
        reload when it goes on with missing categories. */
    method AutoContinueFromExisting() returns (categories: seq<string>)
      requires Valid()
      modifies this
      ensures AutoResume(targets, disk.files).plan == Scrape(categories)
      ensures products == if AutoResume(targets, disk.files).reload then Reloaded(old(products), targets, disk.files) else old(products)
      ensures seen == old(seen) && Valid()
    {
      var existing, missing, others := CheckExistingFiles();
      if existing == [] && others == [] {
        categories := Labels(targets);
        return;
      }
      if missing != [] {
        LoadExistingProducts();
        categories := missing;
      } else {
        categories := [];
      }
    }

    /** `handle_existing_files` with the operator's answers in order: the
        plan, the files left afterwards, and the reload on option 1. */
    method HandleExistingFiles(answers: seq<string>) returns (plan: Plan)
      requires Valid()
      modifies this, disk
      ensures plan == InteractiveResume(targets, old(disk.files), answers).plan
      ensures disk.files == InteractiveResume(targets, old(disk.files), answers).files
      ensures products == if InteractiveResume(targets, old(disk.files), answers).reload
        then Reloaded(old(products), targets, old(disk.files)) else old(products)
      ensures seen == old(seen) && Valid()
    {
      var existing, missing, others := CheckExistingFiles();
      if existing == [] && others == [] {
        plan := Scrape(Labels(targets));
        return;
      }
      var i := 0;
      while i < |answers|
        invariant 0 <= i <= |answers|
        invariant forall j :: 0 <= j < i ==> !IsChoice(answers[j])
        invariant disk.files == old(disk.files) && products == old(products) && seen == old(seen)
      {
        var choice := Strip(answers[i]);
        if choice == "1" || choice == "2" || choice == "3" {
          FirstIndexAt(answers, IsChoice, i);
          if choice == "1" {
            if missing != [] {
              LoadExistingProducts();
              plan := Scrape(missing);
            } else {
              plan := Scrape([]);
            }
          } else if choice == "2" {
            RemoveFiles(existing, others);
            plan := Scrape(Labels(targets));
          } else {
            plan := Exit;
          }
          return;
        }
        i := i + 1;
      }
      plan := NoAnswer;
    }

    /** Deletes the existing category files, then the run-wide files found. */
    method RemoveFiles(existing: seq<(string, string)>, others: seq<string>)
      requires existing == ExistingFiles(targets, disk.files) && others == OtherFilesPresent(disk.files)
      modifies disk
      ensures disk.files == old(disk.files) - Removed(targets, old(disk.files))
    {
      ghost var start := disk.files;
      ghost var gone: set<string> := {};
      var i := 0;
      while i < |existing|
        invariant 0 <= i <= |existing|
        invariant gone == set k | 0 <= k < i :: existing[k].1
        invariant disk.files == start - gone
      {
        gone := gone + {existing[i].1};
        disk.files := disk.files - {existing[i].1};
        i := i + 1;
      }
      var j := 0;
      ghost var done := gone;
      while j < |others|
        invariant 0 <= j <= |others|
        invariant gone == done + set k | 0 <= k < j :: others[k]
        invariant disk.files == start - gone
      {
        gone := gone + {others[j]};
        disk.files := disk.files - {others[j]};
        j := j + 1;
      }
      assert gone == Removed(targets, start);
    }

    // ------------------------------------------------------------ fast_process_products

    /** Processes the cards in order, appending each product whose name is
        not seen yet and adding that name to the seen set; returns how many
        were appended. */
    method FastProcessProducts(category: string, cards: seq<Card>) returns (added: nat)
      requires Valid()
      modifies this
      ensures products == old(products) + Harvest(cards, category, old(seen))
      ensures seen == old(seen) + Names(Harvest(cards, category, old(seen)))
      ensures added == |Harvest(cards, category, old(seen))|
      ensures reloadMark == old(reloadMark) && Valid()
    {
      ghost var start := seen;
      ghost var found: seq<Option<Product>> := [];
      ghost var kept: seq<Product> := [];
      added := 0;
      var i := 0;
      while i < |cards|
        invariant 0 <= i <= |cards|
        invariant found == ExtractAll(cards[..i], category)
        invariant kept == Admit(found, start)
        invariant products == old(products) + kept
        invariant seen == start + Names(kept)
        invariant added == |kept|
        invariant reloadMark == old(reloadMark) && Valid()
      {
        var outcome := ExtractCard(cards[i], category);
        ExtractAllSnoc(cards, category, i);
        ghost var next := AdmitStep(found, outcome, start, kept);
        var isNew := Consider(outcome);
        ghost var step := if isNew then [outcome.value] else [];
        ghost var stepNames := if isNew then {outcome.value.name} else {};
        assert next == kept + step && Names(next) == Names(kept) + stepNames;
        ConcatAssoc(old(products), kept, step);
        UnionAssoc(start, Names(kept), stepNames);
        if isNew {
          added := added + 1;
        }
        found, kept := found + [outcome], next;
        i := i + 1;
      }
      assert cards[..i] == cards;
    }

    /** One card's outcome: a product whose name is not seen yet is
        collected; reports whether it was. */
    method Consider(outcome: Option<Product>) returns (isNew: bool)
      requires Valid()
      modifies this
      ensures isNew == (outcome.Some? && outcome.value.name !in old(seen))
      ensures products == old(products) + (if isNew then [outcome.value] else [])
      ensures seen == old(seen) + (if isNew then {outcome.value.name} else {})
      ensures reloadMark == old(reloadMark) && Valid()
    {
      isNew := outcome.Some? && outcome.value.name !in seen;
      if isNew {
        Collect(outcome.value);
      } else {
        assert products + [] == products && seen + {} == seen;
      }
    }

    /** Appends one product whose name is not seen yet and marks its name
        as seen. */
    method Collect(p: Product)
      requires Valid() && p.name !in seen
      modifies this
      ensures products == old(products) + [p] && seen == old(seen) + {p.name}
      ensures reloadMark == old(reloadMark) && Valid()
    {
      AppendFresh(products[reloadMark..], p);
      assert (products + [p])[reloadMark..] == products[reloadMark..] + [p];
      products := products + [p];
      seen := seen + {p.name};
    }

    // ------------------------------------------------------------ scrape_category

    /** `scrape_category` on the page the category URL shows. */
    method ScrapeCategory(category: string, page: Page)
      requires Valid()
      modifies this, disk
      ensures products == CategoryRun(page, category, Run(old(products), old(seen), old(disk.files))).products
      ensures seen == CategoryRun(page, category, Run(old(products), old(seen), old(disk.files))).seen
      ensures disk.files == CategoryRun(page, category, Run(old(products), old(seen), old(disk.files))).files
      ensures Valid()
    {
      if !page.opens {
        return;
      }
      ghost var outcome := ScrollLoop(page, category, Scan(products, seen, 0, 0, 0));
      var scrolls: nat, collected: nat, stalls: nat := 0, 0, 0;
      while scrolls < MaxScrolls && collected < MaxItems
        invariant ScrollLoop(page, category, Scan(products, seen, scrolls, collected, stalls)) == outcome
        invariant disk.files == old(disk.files) && Valid()
        decreases MaxScrolls - scrolls
      {
        match page.step(scrolls) {
          case ScriptError =>
            return;
          case NoGrowth =>
            scrolls, stalls := scrolls + 1, stalls + 1;
            if stalls >= MaxStalls {
              break;
            }
          case Grew =>
            var cards := page.cardsAt(scrolls);
            scrolls := scrolls + 1;
            if cards.Some? {
              var _ := FastProcessProducts(category, cards.value);
              collected := |CategoryRows(products, category)|;
              stalls := 0;
            }
        }
      }
      assert outcome.1 != Failed && outcome.0.products == products && outcome.0.seen == seen;
      if page.finalCards.Some? {
        var _ := FastProcessProducts(category, page.finalCards.value);
      }
      SaveCategoryResults(category);
    }

    // ------------------------------------------------------------ saving

    /** `save_category_results`. */
    method SaveCategoryResults(category: string)
      modifies disk
      ensures disk.files == SaveCategory(old(disk.files), products, category)
    {
      if products == [] {
        return;
      }
      var rows := CategoryRows(products, category);
      if rows == [] {
        return;
      }
      disk.files := disk.files[CategoryFileName(category) := Readable(CategoryFile(products, category))];
      var all := AllRows(products);
      disk.files := disk.files[ProgressFile := Readable(all)];
      var budget := Budget(all);
      if budget != [] {
        disk.files := disk.files[BudgetProgressFile := Readable(budget)];
      }
    }

    /** `save_results`. */
    method SaveResults()
      modifies disk
      ensures disk.files == SaveFinal(old(disk.files), products)
    {
      if products == [] {
        return;
      }
      var all := AllRows(products);
      disk.files := disk.files[FinalFile := Readable(all)];
      var budget := Budget(all);
      if budget != [] {
        disk.files := disk.files[BudgetFinalFile := Readable(budget)];
      }
    }

    // ------------------------------------------------------------ scrape_all_target_categories

    /** Scrapes the given categories in order (every target when none are
        given), skipping names that are not targets. */
    method ScrapeAllTargetCategories(categories: Option<seq<string>>, browse: string -> Page)
      requires Valid()
      modifies this, disk
      ensures var r := ScrapeAll(targets, browse, categories, Run(old(products), old(seen), old(disk.files)));
        products == r.products && seen == r.seen && disk.files == r.files
      ensures Valid()
    {
      var todo := match categories case None => Labels(targets) case Some(cs) => cs;
      if todo == [] {
        return;
      }
      var i := 0;
      while i < |todo|
        invariant 0 <= i <= |todo|
        invariant ScrapeEach(targets, browse, todo[i..], Run(products, seen, disk.files)) ==
          ScrapeEach(targets, browse, todo, Run(old(products), old(seen), old(disk.files)))
        invariant Valid()
      {
        assert todo[i..][0] == todo[i] && todo[i..][1..] == todo[i + 1..];
        match UrlOf(targets, todo[i]) {
          case None =>
          case Some(url) =>
            ScrapeCategory(todo[i], browse(url));
        }
        i := i + 1;
      }
    }
  }

  /** One step of the file check walks one target. */
  lemma CheckStep(targets: seq<Target>, i: nat, files: Files)
    requires i < |targets|
    ensures ExistingFiles(targets[i..], files) ==
      (if CategoryFileName(targets[i].name) in files then [(targets[i].name, CategoryFileName(targets[i].name))] else []) +
      ExistingFiles(targets[i + 1..], files)
    ensures MissingCategories(targets[i..], files) ==
      (if CategoryFileName(targets[i].name) in files then [] else [targets[i].name]) +
      MissingCategories(targets[i + 1..], files)
  {
    assert targets[i..][0] == targets[i] && targets[i..][1..] == targets[i + 1..];
  }

  /** One more outcome through the gate, with the products kept so far:
      the new list of kept products, and its names. */
  lemma AdmitStep(prev: seq<Option<Product>>, o: Option<Product>, seen: set<string>, kept: seq<Product>)
    returns (next: seq<Product>)
    requires kept == Admit(prev, seen)
    ensures next == Admit(prev + [o], seen)
    ensures next == kept + (if o.Some? && o.value.name !in seen + Names(kept) then [o.value] else [])
    ensures Names(next) == Names(kept) + (if o.Some? && o.value.name !in seen + Names(kept) then {o.value.name} else {})
  {
    AdmitSnoc(prev, o, seen);
    next := Admit(prev + [o], seen);
    if o.Some? && o.value.name !in seen + Names(kept) {
      NamesAppend(kept, [o.value]);
      NamesOne(o.value);
    } else {
      assert next == kept;
    }
  }

  /** Appending a product whose name is not among the names keeps them
      distinct and adds that name. */
  lemma AppendFresh(ps: seq<Product>, p: Product)
    requires NamesDistinct(ps) && p.name !in Names(ps)
    ensures NamesDistinct(ps + [p])
    ensures Names(ps + [p]) == Names(ps) + {p.name}
  {
    NamesAppend(ps, [p]);
    NamesOne(p);
    var qs := ps + [p];
    forall a, b | 0 <= a < b < |qs| ensures qs[a].name != qs[b].name {
      assert qs[a] == ps[a];
      if b < |ps| { assert qs[b] == ps[b]; } else { assert ps[a].name in Names(ps); }
    }
  }

  /** The gate lets a single unseen product through. */
  lemma AdmitOne(p: Product, seen: set<string>)
    requires p.name !in seen
    ensures Admit([Some(p)], seen) == [p]
  {
    assert [Some(p)][1..] == [];
  }

  /** The reload quirk: a reload fills the list but not the seen set, so a
      card whose name is among the reloaded rows is collected again and the
      list then holds two products of that name. */
  lemma ReloadedNameCollectedAgain(rows: seq<Product>, card: Card, category: string, k: nat)
    requires k < |rows|
    requires ExtractCard(card, category).Some? && ExtractCard(card, category).value.name == rows[k].name
    ensures Harvest([card], category, {}) == [ExtractCard(card, category).value]
    ensures !NamesDistinct(rows + Harvest([card], category, {}))
  {
    var p := ExtractCard(card, category).value;
    assert ExtractAll([card], category) == [Some(p)];
    AdmitOne(p, {});
    var all := rows + [p];
    assert all[k] == rows[k] && all[|rows|] == p;
  }
}
