/** File names: the filesystem-safe name of each category file
    (`re.sub(r'[^\w\-_\.]', '_', category.lower())` wrapped as `voila_….csv`),
    the four run-wide files, and the configured categories. */
module Naming {
  import opened Text

  /** A target category: its label (the dictionary key) and its URL. */
  datatype Target = Target(name: string, url: string)

  /** The categories of `target_categories`, in dictionary order. */
  const TargetCategories: seq<Target> := [
    Target("Fresh Fruits & Vegetables", "https://voila.ca/categories/fresh-fruits-vegetables/WEB1100606"),
    Target("Meat & Seafood", "https://voila.ca/categories/meat-seafood/WEB1100609"),
    Target("Dairy & Eggs", "https://voila.ca/categories/dairy-eggs/WEB1100610"),
    Target("Cheese", "https://voila.ca/categories/cheese/WEB1504630?source=navigation"),
    Target("Deli", "https://voila.ca/categories/deli/WEB1100607"),
    Target("Frozen Foods", "https://voila.ca/categories/frozen-foods/WEB1100612"),
    Target("Scene+ Deals", "https://voila.ca/categories/scene-deals/WEB18638414?source=navigation"),
    Target("Flyer Deals", "https://voila.ca/categories/flyer-deals/WEB19082285?source=navigation")
  ]

  const ProgressFile: string := "voila_focused_groceries_progress.csv"
  const BudgetProgressFile: string := "voila_budget_items_progress.csv"
  const FinalFile: string := "voila_focused_groceries_FINAL.csv"
  const BudgetFinalFile: string := "voila_budget_items_FINAL.csv"

  /** The run-wide files the resume check looks for, in the order it lists them. */
  const OtherFiles: seq<string> := [ProgressFile, BudgetProgressFile, FinalFile, BudgetFinalFile]

  /** The character class `[\w\-_\.]`. */
  predicate IsSafeChar(c: char) {
    IsWordChar(c) || c == '-' || c == '_' || c == '.'
  }

  /** `re.sub(r'[^\w\-_\.]', '_', s)`: every character outside the class
      becomes one underscore, every other character stays. */
  function Sanitise(s: string): string {
    seq(|s|, k requires 0 <= k < |s| => if IsSafeChar(s[k]) then s[k] else '_')
  }

  /** The per-category file: `voila_` + sanitised lower-cased category + `.csv`. */
  function CategoryFileName(category: string): string {
    "voila_" + Sanitise(Lower(category)) + ".csv"
  }

  /** Lower-casing never moves a character into or out of the safe class. */
  lemma LowerKeepsSafety(c: char)
    ensures IsSafeChar(LowerChar(c)) == IsSafeChar(c)
  {
  }

  /** Shape of a category file name: same length as the category plus the
      affixes, each category character lower-cased when it is safe and turned
      into `_` when it is not, and nothing unsafe left. */
  lemma FileNameShape(category: string)
    ensures |CategoryFileName(category)| == |category| + 10
    ensures CategoryFileName(category)[..6] == "voila_"
    ensures CategoryFileName(category)[|category| + 6..] == ".csv"
    ensures forall k :: 0 <= k < |category| ==>
      CategoryFileName(category)[k + 6] == if IsSafeChar(category[k]) then LowerChar(category[k]) else '_'
    ensures forall k :: 0 <= k < |CategoryFileName(category)| ==> IsSafeChar(CategoryFileName(category)[k])
  {
    var low := Lower(category);
    var f := CategoryFileName(category);
    forall k | 0 <= k < |category|
      ensures f[k + 6] == if IsSafeChar(category[k]) then LowerChar(category[k]) else '_'
    {
      LowerKeepsSafety(category[k]);
      assert f[k + 6] == Sanitise(low)[k];
    }
    forall k | 0 <= k < |f| ensures IsSafeChar(f[k]) {
      if 6 <= k < |category| + 6 {
        LowerKeepsSafety(category[k - 6]);
        assert f[k] == Sanitise(low)[k - 6];
      }
    }
  }

  /** Sanitising twice is the same as sanitising once. */
  lemma SanitiseIdempotent(s: string)
    ensures Sanitise(Sanitise(s)) == Sanitise(s)
  {
  }

  lemma LowerDairyEggs()
    ensures Lower("Dairy & Eggs") == "dairy & eggs"
  {
    var name, low := "Dairy & Eggs", "dairy & eggs";
    var l := Lower(name);
    forall k | 0 <= k < |low| ensures l[k] == low[k] {
      assert l[k] == LowerChar(name[k]);
    }
  }

  lemma SanitiseDairyEggs()
    ensures Sanitise("dairy & eggs") == "dairy___eggs"
  {
    var low, safe := "dairy & eggs", "dairy___eggs";
    var t := Sanitise(low);
    forall k | 0 <= k < |safe| ensures t[k] == safe[k] {
      if IsSafeChar(low[k]) { assert t[k] == low[k]; } else { assert t[k] == '_'; }
    }
  }

  /** The file of the third configured category: the space, the ampersand
      and the space each become an underscore. */
  lemma DairyEggsFileName()
    ensures CategoryFileName("Dairy & Eggs") == "voila_dairy___eggs.csv"
  {
    LowerDairyEggs();
    SanitiseDairyEggs();
  }
}
