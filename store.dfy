/** The result store (`save_category_results`, `save_results`): keyed
    duplicate removal that keeps the first occurrence, the budget filter, and
    what each save writes into the working directory. The working directory
    is a map from file name to table; a table that `pd.read_csv` would fail
    on is `Unreadable`. */
module Store {
  import opened Common
  import opened Records
  import opened Naming

  datatype Table = Readable(rows: seq<Product>) | Unreadable

  /** The files of the working directory that the scraper reads or writes. */
  type Files = map<string, Table>

  // ---------------------------------------------------------------- drop_duplicates

  /** The keys occurring in `xs`. */
  function KeysOf<T, K>(xs: seq<T>, key: T -> K): set<K> {
    set k | 0 <= k < |xs| :: key(xs[k])
  }

  /** `drop_duplicates(subset=…)` with its default `keep='first'`: a row is
      dropped when an earlier row has the same key. */
  function DropDuplicates<T, K(==)>(xs: seq<T>, key: T -> K): seq<T>
    decreases |xs|
  {
    if xs == [] then []
    else
      var init := xs[..|xs| - 1];
      var last := xs[|xs| - 1];
      if key(last) in KeysOf(init, key) then DropDuplicates(init, key)
      else DropDuplicates(init, key) + [last]
  }

  /** The reference reading of "keep the first": walk the rows from the
      front, keep a row whose key has not been met, and remember its key. */
  function KeepFirst<T, K(==)>(xs: seq<T>, key: T -> K, met: set<K>): seq<T>
    decreases |xs|
  {
    if xs == [] then []
    else if key(xs[0]) in met then KeepFirst(xs[1..], key, met)
    else [xs[0]] + KeepFirst(xs[1..], key, met + {key(xs[0])})
  }

  lemma KeysOfCons<T, K>(x: T, xs: seq<T>, key: T -> K)
    ensures KeysOf([x] + xs, key) == {key(x)} + KeysOf(xs, key)
  {
    var ys := [x] + xs;
    assert ys[0] == x;
    forall y | y in KeysOf(ys, key) ensures y in {key(x)} + KeysOf(xs, key) {
      var k :| 0 <= k < |ys| && key(ys[k]) == y;
      if k > 0 { assert ys[k] == xs[k - 1]; }
    }
    forall y | y in KeysOf(xs, key) ensures y in KeysOf(ys, key) {
      var k :| 0 <= k < |xs| && key(xs[k]) == y;
      assert ys[k + 1] == xs[k];
    }
  }

  /** The front walk over one more row. */
  lemma {:induction false} KeepFirstSnoc<T, K>(xs: seq<T>, x: T, key: T -> K, met: set<K>)
    ensures KeepFirst(xs + [x], key, met) ==
      KeepFirst(xs, key, met) + (if key(x) in met + KeysOf(xs, key) then [] else [x])
    decreases |xs|
  {
    if xs == [] {
      assert xs + [x] == [x];
      assert KeysOf(xs, key) == {};
    } else {
      assert (xs + [x])[1..] == xs[1..] + [x];
      KeysOfCons(xs[0], xs[1..], key);
      assert [xs[0]] + xs[1..] == xs;
      if key(xs[0]) in met {
        KeepFirstSnoc(xs[1..], x, key, met);
      } else {
        KeepFirstSnoc(xs[1..], x, key, met + {key(xs[0])});
      }
    }
  }

  /** Dropping later duplicates is keeping first occurrences. */
  lemma {:induction false} DropDuplicatesKeepsFirst<T, K>(xs: seq<T>, key: T -> K)
    ensures DropDuplicates(xs, key) == KeepFirst(xs, key, {})
    decreases |xs|
  {
    if xs != [] {
      var init := xs[..|xs| - 1];
      DropDuplicatesKeepsFirst(init, key);
      KeepFirstSnoc(init, xs[|xs| - 1], key, {});
      assert init + [xs[|xs| - 1]] == xs;
    }
  }

  /** Every row the front walk keeps is a row of the input. */
  lemma {:induction false} KeepFirstFrom<T, K>(xs: seq<T>, key: T -> K, met: set<K>)
    ensures forall k :: 0 <= k < |KeepFirst(xs, key, met)| ==> KeepFirst(xs, key, met)[k] in xs
    decreases |xs|
  {
    if xs != [] {
      var tail := xs[1..];
      var m := if key(xs[0]) in met then met else met + {key(xs[0])};
      KeepFirstFrom(tail, key, m);
      var rest := KeepFirst(tail, key, m);
      var r := KeepFirst(xs, key, met);
      forall k | 0 <= k < |r| ensures r[k] in xs {
        if key(xs[0]) in met {
          assert r[k] in tail;
        } else if k > 0 {
          assert r[k] == rest[k - 1];
          assert rest[k - 1] in tail;
        }
      }
    }
  }

  /** No key kept by the front walk was met before, and no key is kept twice. */
  lemma {:induction false} KeepFirstFresh<T, K>(xs: seq<T>, key: T -> K, met: set<K>)
    ensures forall k :: 0 <= k < |KeepFirst(xs, key, met)| ==> key(KeepFirst(xs, key, met)[k]) !in met
    ensures forall a, b :: 0 <= a < b < |KeepFirst(xs, key, met)| ==>
      key(KeepFirst(xs, key, met)[a]) != key(KeepFirst(xs, key, met)[b])
    decreases |xs|
  {
    if xs != [] {
      var tail := xs[1..];
      if key(xs[0]) in met {
        KeepFirstFresh(tail, key, met);
      } else {
        var m := met + {key(xs[0])};
        var rest := KeepFirst(tail, key, m);
        KeepFirstFresh(tail, key, m);
        var r := [xs[0]] + rest;
        assert KeepFirst(xs, key, met) == r;
        forall k | 0 <= k < |r| ensures key(r[k]) !in met {
          if k > 0 { assert r[k] == rest[k - 1]; }
        }
        forall a, b | 0 <= a < b < |r| ensures key(r[a]) != key(r[b]) {
          assert r[b] == rest[b - 1];
          if a > 0 { assert r[a] == rest[a - 1]; }
        }
      }
    }
  }

  /** After the front walk every key of the input has been met. */
  lemma {:induction false} KeepFirstKeys<T, K>(xs: seq<T>, key: T -> K, met: set<K>)
    ensures met + KeysOf(KeepFirst(xs, key, met), key) == met + KeysOf(xs, key)
    decreases |xs|
  {
    if xs == [] {
    } else {
      var tail := xs[1..];
      KeysOfCons(xs[0], tail, key);
      assert [xs[0]] + tail == xs;
      if key(xs[0]) in met {
        KeepFirstKeys(tail, key, met);
      } else {
        var m := met + {key(xs[0])};
        var rest := KeepFirst(tail, key, m);
        KeepFirstKeys(tail, key, m);
        KeysOfCons(xs[0], rest, key);
      }
    }
  }

  /** `drop_duplicates` keeps only rows of the input, keeps one row per key
      and loses no key. */
  lemma DropDuplicatesSpec<T, K>(xs: seq<T>, key: T -> K)
    ensures |DropDuplicates(xs, key)| <= |xs|
    ensures forall k :: 0 <= k < |DropDuplicates(xs, key)| ==> DropDuplicates(xs, key)[k] in xs
    ensures forall a, b :: 0 <= a < b < |DropDuplicates(xs, key)| ==>
      key(DropDuplicates(xs, key)[a]) != key(DropDuplicates(xs, key)[b])
    ensures KeysOf(DropDuplicates(xs, key), key) == KeysOf(xs, key)
  {
    DropDuplicatesKeepsFirst(xs, key);
    KeepFirstFrom(xs, key, {});
    KeepFirstFresh(xs, key, {});
    KeepFirstKeys(xs, key, {});
    DropDuplicatesShorter(xs, key);
  }

  lemma {:induction false} DropDuplicatesShorter<T, K>(xs: seq<T>, key: T -> K)
    ensures |DropDuplicates(xs, key)| <= |xs|
    decreases |xs|
  {
    if xs != [] {
      DropDuplicatesShorter(xs[..|xs| - 1], key);
    }
  }

  /** Rows whose keys are all different are kept as they are. */
  lemma {:induction false} DropDuplicatesOfDistinct<T, K>(xs: seq<T>, key: T -> K)
    requires forall a, b :: 0 <= a < b < |xs| ==> key(xs[a]) != key(xs[b])
    ensures DropDuplicates(xs, key) == xs
    decreases |xs|
  {
    if xs != [] {
      var init := xs[..|xs| - 1];
      DropDuplicatesOfDistinct(init, key);
      forall k | 0 <= k < |init| ensures key(init[k]) != key(xs[|xs| - 1]) {
        assert init[k] == xs[k];
      }
      assert init + [xs[|xs| - 1]] == xs;
    }
  }

  /** Removing duplicates twice is removing them once. */
  lemma DropDuplicatesIdempotent<T, K>(xs: seq<T>, key: T -> K)
    ensures DropDuplicates(DropDuplicates(xs, key), key) == DropDuplicates(xs, key)
  {
    DropDuplicatesSpec(xs, key);
    DropDuplicatesOfDistinct(DropDuplicates(xs, key), key);
  }

  // ---------------------------------------------------------------- keys and filters

  /** The key of the per-category file. */
  function NamePrice(p: Product): (string, Option<real>) {
    (p.name, p.price)
  }

  /** The key of the progress and FINAL files. */
  function NamePriceCategory(p: Product): (string, Option<real>, string) {
    (p.name, p.price, p.category)
  }

  /** `[p for p in products if p['category'] == category]`. */
  function CategoryRows(products: seq<Product>, category: string): seq<Product> {
    Filter(products, (p: Product) => p.category == category)
  }

  /** The rows of a category file: the category's rows, the first of each
      (name, price) only (`drop_duplicates(subset=['name', 'price'])`). */
  function CategoryFile(products: seq<Product>, category: string): seq<Product> {
    DropDuplicates(CategoryRows(products, category), NamePrice)
  }

  /** A row of the budget files: a price that is present and at most 5.0. */
  predicate IsBudget(p: Product) {
    p.price.Some? && p.price.value <= 5.0
  }

  function Budget(rows: seq<Product>): seq<Product> {
    Filter(rows, IsBudget)
  }

  /** `df.drop_duplicates(subset=['name', 'price', 'category'])` of all rows. */
  function AllRows(products: seq<Product>): seq<Product> {
    DropDuplicates(products, NamePriceCategory)
  }

  // ---------------------------------------------------------------- the two saves

  /** `save_category_results`: nothing when there are no products or none of
      the category; otherwise the category file, the progress file, and the
      budget progress file when it would not be empty. */
  function SaveCategory(files: Files, products: seq<Product>, category: string): Files {
    var rows := CategoryRows(products, category);
    if products == [] || rows == [] then files
    else
      var all := AllRows(products);
      var written := files[CategoryFileName(category) := Readable(CategoryFile(products, category))]
                          [ProgressFile := Readable(all)];
      if Budget(all) == [] then written else written[BudgetProgressFile := Readable(Budget(all))]
  }

  /** `save_results`: nothing without products; otherwise the FINAL file and
      the budget FINAL file when it would not be empty. */
  function SaveFinal(files: Files, products: seq<Product>): Files {
    if products == [] then files
    else
      var all := AllRows(products);
      var written := files[FinalFile := Readable(all)];
      if Budget(all) == [] then written else written[BudgetFinalFile := Readable(Budget(all))]
  }

  // ---------------------------------------------------------------- what the saves promise

  /** The rows of a category file: all of the category, no two with the same
      name and price, and every (name, price) of the category present. */
  lemma CategoryFileRows(products: seq<Product>, category: string)
    ensures forall k :: 0 <= k < |CategoryFile(products, category)| ==>
      CategoryFile(products, category)[k] in products && CategoryFile(products, category)[k].category == category
    ensures forall a, b :: 0 <= a < b < |CategoryFile(products, category)| ==>
      NamePrice(CategoryFile(products, category)[a]) != NamePrice(CategoryFile(products, category)[b])
    ensures forall k :: 0 <= k < |products| && products[k].category == category ==>
      NamePrice(products[k]) in KeysOf(CategoryFile(products, category), NamePrice)
  {
    var rows := CategoryRows(products, category);
    var kept := CategoryFile(products, category);
    DropDuplicatesSpec(rows, NamePrice);
    forall k | 0 <= k < |kept| ensures kept[k] in products && kept[k].category == category {
      var j :| 0 <= j < |rows| && rows[j] == kept[k];
    }
    forall k | 0 <= k < |products| && products[k].category == category
      ensures NamePrice(products[k]) in KeysOf(kept, NamePrice)
    {
      var j :| 0 <= j < |rows| && rows[j] == products[k];
    }
  }

  /** The rows of a budget file: exactly the rows with a price of at most 5.0. */
  lemma BudgetRows(rows: seq<Product>)
    ensures forall k :: 0 <= k < |Budget(rows)| ==> IsBudget(Budget(rows)[k]) && Budget(rows)[k] in rows
    ensures forall k :: 0 <= k < |rows| && IsBudget(rows[k]) ==> rows[k] in Budget(rows)
    ensures Budget(rows) == [] <==> forall k :: 0 <= k < |rows| ==> !IsBudget(rows[k])
  {
    if Budget(rows) != [] {
      assert IsBudget(Budget(rows)[0]) && Budget(rows)[0] in rows;
    }
  }

  /** When the products are empty or none is of the category, the save
      leaves every file as it was. */
  lemma SaveCategoryNothing(files: Files, products: seq<Product>, category: string)
    requires products == [] || forall k :: 0 <= k < |products| ==> products[k].category != category
    ensures SaveCategory(files, products, category) == files
  {
    FilterNone(products, (p: Product) => p.category == category);
  }

  /** Otherwise it writes the category file, the progress file and, only
      when some row is a budget row, the budget progress file; every other
      file is untouched. */
  lemma SaveCategoryWrites(files: Files, products: seq<Product>, category: string, k: nat)
    requires k < |products| && products[k].category == category
    requires CategoryFileName(category) !in OtherFiles
    ensures CategoryFileName(category) in SaveCategory(files, products, category)
    ensures SaveCategory(files, products, category)[CategoryFileName(category)] == Readable(CategoryFile(products, category))
    ensures SaveCategory(files, products, category)[ProgressFile] == Readable(AllRows(products))
    ensures Budget(AllRows(products)) != [] ==>
      SaveCategory(files, products, category)[BudgetProgressFile] == Readable(Budget(AllRows(products)))
    ensures Budget(AllRows(products)) == [] ==>
      (BudgetProgressFile in SaveCategory(files, products, category) <==> BudgetProgressFile in files)
    ensures Budget(AllRows(products)) == [] && BudgetProgressFile in files ==>
      SaveCategory(files, products, category)[BudgetProgressFile] == files[BudgetProgressFile]
    ensures forall f :: f != CategoryFileName(category) && f != ProgressFile && f != BudgetProgressFile ==>
      (f in SaveCategory(files, products, category) <==> f in files)
    ensures forall f :: f in files && f != CategoryFileName(category) && f != ProgressFile && f != BudgetProgressFile ==>
      SaveCategory(files, products, category)[f] == files[f]
  {
    assert products[k] in CategoryRows(products, category);
    assert CategoryFileName(category) != ProgressFile && CategoryFileName(category) != BudgetProgressFile by {
      assert ProgressFile == OtherFiles[0] && BudgetProgressFile == OtherFiles[1];
    }
  }

  /** The FINAL save writes every row once per (name, price, category) and
      the budget FINAL file only when some row is a budget row; every other
      file is untouched. */
  lemma SaveFinalWrites(files: Files, products: seq<Product>)
    requires products != []
    ensures SaveFinal(files, products)[FinalFile] == Readable(AllRows(products))
    ensures Budget(AllRows(products)) != [] ==>
      SaveFinal(files, products)[BudgetFinalFile] == Readable(Budget(AllRows(products)))
    ensures Budget(AllRows(products)) == [] ==>
      (BudgetFinalFile in SaveFinal(files, products) <==> BudgetFinalFile in files)
    ensures Budget(AllRows(products)) == [] && BudgetFinalFile in files ==>
      SaveFinal(files, products)[BudgetFinalFile] == files[BudgetFinalFile]
    ensures forall f :: f != FinalFile && f != BudgetFinalFile ==>
      (f in SaveFinal(files, products) <==> f in files)
    ensures forall f :: f in files && f != FinalFile && f != BudgetFinalFile ==>
      SaveFinal(files, products)[f] == files[f]
  {
  }

  /** The rows of the progress and FINAL files: every one a product, no two
      with the same name, price and category, and none of those keys lost. */
  lemma AllRowsSpec(products: seq<Product>)
    ensures forall k :: 0 <= k < |AllRows(products)| ==> AllRows(products)[k] in products
    ensures forall a, b :: 0 <= a < b < |AllRows(products)| ==>
      NamePriceCategory(AllRows(products)[a]) != NamePriceCategory(AllRows(products)[b])
    ensures KeysOf(AllRows(products), NamePriceCategory) == KeysOf(products, NamePriceCategory)
    ensures AllRows(products) == [] <==> products == []
  {
    DropDuplicatesSpec(products, NamePriceCategory);
    if products != [] {
      assert NamePriceCategory(products[0]) in KeysOf(products, NamePriceCategory);
    }
  }

  /** Two rows differing only in price are both kept in a category file:
      the file's key is (name, price), not the name alone. */
  lemma SamePriceOnlyOnce(p: Product, q: Product)
    requires p.name == q.name && p.price != q.price
    ensures DropDuplicates([p, q], NamePrice) == [p, q]
    ensures DropDuplicates([p, p], NamePrice) == [p]
  {
    assert [p][..0] == [];
    assert DropDuplicates([p], NamePrice) == [p];
    assert KeysOf([p], NamePrice) == {NamePrice(p)} by { assert [p][0] == p; }
    assert [p, q][..1] == [p] && [p, q][1] == q;
    assert NamePrice(q) !in KeysOf([p], NamePrice);
    assert [p] + [q] == [p, q];
    assert [p, p][..1] == [p] && [p, p][1] == p;
  }
}
