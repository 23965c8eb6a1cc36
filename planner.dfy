/** The resume planner (`check_existing_files`, `load_existing_products`,
    `auto_continue_from_existing`, `handle_existing_files`): which categories
    already have a file, what a reload puts into the product list, and which
    categories a run goes on to scrape, automatically or after asking the
    operator. */
module Planner {
  import opened Common
  import opened Text
  import opened Records
  import opened Naming
  import opened Store

  // ---------------------------------------------------------------- check_existing_files

  /** `list(target_categories.keys())`. */
  function Labels(targets: seq<Target>): (r: seq<string>)
    ensures |r| == |targets| && forall k :: 0 <= k < |r| ==> r[k] == targets[k].name
  {
    seq(|targets|, k requires 0 <= k < |targets| => targets[k].name)
  }

  /** The (category, file) pairs of the targets whose category file exists,
      in dictionary order. */
  function ExistingFiles(targets: seq<Target>, files: Files): seq<(string, string)>
    decreases |targets|
  {
    if targets == [] then []
    else
      var f := CategoryFileName(targets[0].name);
      (if f in files then [(targets[0].name, f)] else []) + ExistingFiles(targets[1..], files)
  }

  /** The categories whose file does not exist, in dictionary order. */
  function MissingCategories(targets: seq<Target>, files: Files): seq<string>
    decreases |targets|
  {
    if targets == [] then []
    else
      var f := CategoryFileName(targets[0].name);
      (if f in files then [] else [targets[0].name]) + MissingCategories(targets[1..], files)
  }

  /** The names of `names` that exist, in their order. */
  function Present(names: seq<string>, files: Files): seq<string>
    decreases |names|
  {
    if names == [] then [] else (if names[0] in files then [names[0]] else []) + Present(names[1..], files)
  }

  /** One step of the presence walk looks at one name. */
  lemma PresentStep(names: seq<string>, j: nat, files: Files)
    requires j < |names|
    ensures Present(names[j..], files) == (if names[j] in files then [names[j]] else []) + Present(names[j + 1..], files)
  {
    assert names[j..][0] == names[j] && names[j..][1..] == names[j + 1..];
  }

  /** The run-wide files that exist. */
  function OtherFilesPresent(files: Files): seq<string> {
    Present(OtherFiles, files)
  }

  function FirstParts(pairs: seq<(string, string)>): seq<string>
    decreases |pairs|
  {
    if pairs == [] then [] else [pairs[0].0] + FirstParts(pairs[1..])
  }

  lemma LabelsStep(targets: seq<Target>)
    requires targets != []
    ensures multiset(Labels(targets)) == multiset([targets[0].name]) + multiset(Labels(targets[1..]))
  {
    assert Labels(targets) == [targets[0].name] + Labels(targets[1..]);
  }

  lemma PartitionStep(targets: seq<Target>, files: Files)
    requires targets != []
    ensures multiset(FirstParts(ExistingFiles(targets, files))) + multiset(MissingCategories(targets, files)) ==
      multiset([targets[0].name]) + multiset(FirstParts(ExistingFiles(targets[1..], files))) +
      multiset(MissingCategories(targets[1..], files))
  {
    var e1, m1 := ExistingFiles(targets[1..], files), MissingCategories(targets[1..], files);
    var name := targets[0].name;
    var f := CategoryFileName(name);
    if f in files {
      assert ExistingFiles(targets, files) == [(name, f)] + e1;
      assert FirstParts([(name, f)] + e1) == [name] + FirstParts(e1);
      assert MissingCategories(targets, files) == m1;
    } else {
      assert ExistingFiles(targets, files) == e1;
      assert MissingCategories(targets, files) == [name] + m1;
    }
  }

  /** The existing and the missing categories split the targets: together
      they are the targets' labels, counted with multiplicity. */
  lemma {:induction false} Partition(targets: seq<Target>, files: Files)
    ensures multiset(FirstParts(ExistingFiles(targets, files))) + multiset(MissingCategories(targets, files)) ==
      multiset(Labels(targets))
    decreases |targets|
  {
    if targets != [] {
      Partition(targets[1..], files);
      PartitionStep(targets, files);
      LabelsStep(targets);
    }
  }

  /** An existing category's file is there, and a missing category's file
      is not. */
  lemma {:induction false} PartitionFiles(targets: seq<Target>, files: Files)
    ensures forall k :: 0 <= k < |ExistingFiles(targets, files)| ==>
      ExistingFiles(targets, files)[k].1 == CategoryFileName(ExistingFiles(targets, files)[k].0) &&
      ExistingFiles(targets, files)[k].1 in files
    ensures forall k :: 0 <= k < |MissingCategories(targets, files)| ==>
      CategoryFileName(MissingCategories(targets, files)[k]) !in files
    decreases |targets|
  {
    if targets != [] {
      var e, m := ExistingFiles(targets, files), MissingCategories(targets, files);
      var e1, m1 := ExistingFiles(targets[1..], files), MissingCategories(targets[1..], files);
      PartitionFiles(targets[1..], files);
      var f := CategoryFileName(targets[0].name);
      if f in files {
        assert e == [(targets[0].name, f)] + e1 && m == m1;
        forall k | 0 <= k < |e| ensures e[k].1 == CategoryFileName(e[k].0) && e[k].1 in files {
          if k > 0 { assert e[k] == e1[k - 1]; }
        }
      } else {
        assert m == [targets[0].name] + m1 && e == e1;
        forall k | 0 <= k < |m| ensures CategoryFileName(m[k]) !in files {
          if k > 0 { assert m[k] == m1[k - 1]; }
        }
      }
    }
  }

  /** A target's category is missing exactly when its file does not exist,
      and existing exactly when it does. */
  lemma {:induction false} MissingIff(targets: seq<Target>, files: Files, k: nat)
    requires k < |targets|
    ensures targets[k].name in MissingCategories(targets, files) <==>
      exists j :: 0 <= j < |targets| && targets[j].name == targets[k].name && CategoryFileName(targets[j].name) !in files
    ensures CategoryFileName(targets[k].name) in files ==>
      (targets[k].name, CategoryFileName(targets[k].name)) in ExistingFiles(targets, files)
    decreases |targets|
  {
    var m := MissingCategories(targets, files);
    PartitionFiles(targets, files);
    MissingFrom(targets, files);
    if k > 0 {
      MissingIff(targets[1..], files, k - 1);
      assert targets[1..][k - 1] == targets[k];
      var f := CategoryFileName(targets[0].name);
      var e1 := ExistingFiles(targets[1..], files);
      assert ExistingFiles(targets, files) == (if f in files then [(targets[0].name, f)] else []) + e1;
    }
    if CategoryFileName(targets[k].name) !in files {
      assert targets[k].name in m by {
        var name := targets[k].name;
        if k == 0 {
          assert m[0] == name;
        } else {
          var m1 := MissingCategories(targets[1..], files);
          assert name in m1;
          assert m == (if CategoryFileName(targets[0].name) in files then [] else [targets[0].name]) + m1;
        }
      }
    }
  }

  /** Every missing category is one of the targets. */
  lemma {:induction false} MissingFrom(targets: seq<Target>, files: Files)
    ensures forall c :: c in MissingCategories(targets, files) ==>
      exists j :: 0 <= j < |targets| && targets[j].name == c && CategoryFileName(c) !in files
    decreases |targets|
  {
    if targets != [] {
      MissingFrom(targets[1..], files);
      forall c | c in MissingCategories(targets, files)
        ensures exists j :: 0 <= j < |targets| && targets[j].name == c && CategoryFileName(c) !in files
      {
        if c in MissingCategories(targets[1..], files) {
          var j :| 0 <= j < |targets[1..]| && targets[1..][j].name == c && CategoryFileName(c) !in files;
          assert targets[j + 1] == targets[1..][j];
        } else {
          assert c == targets[0].name && CategoryFileName(c) !in files;
        }
      }
    }
  }

  /** Nothing is found exactly when no target's category file and none of
      the run-wide files exists. */
  predicate NothingFound(targets: seq<Target>, files: Files) {
    ExistingFiles(targets, files) == [] && OtherFilesPresent(files) == []
  }

  lemma {:induction false} NoneExisting(targets: seq<Target>, files: Files)
    requires forall k :: 0 <= k < |targets| ==> CategoryFileName(targets[k].name) !in files
    ensures ExistingFiles(targets, files) == []
    ensures MissingCategories(targets, files) == Labels(targets)
    decreases |targets|
  {
    if targets != [] {
      NoneExisting(targets[1..], files);
      assert Labels(targets) == [targets[0].name] + Labels(targets[1..]);
    }
  }

  lemma {:induction false} NonePresent(names: seq<string>, files: Files)
    requires forall k :: 0 <= k < |names| ==> names[k] !in files
    ensures Present(names, files) == []
    decreases |names|
  {
    if names != [] {
      NonePresent(names[1..], files);
    }
  }

  lemma {:induction false} PresentIn(names: seq<string>, files: Files)
    ensures forall k :: 0 <= k < |Present(names, files)| ==> Present(names, files)[k] in files && Present(names, files)[k] in names
    decreases |names|
  {
    if names != [] {
      PresentIn(names[1..], files);
      var r, r1 := Present(names, files), Present(names[1..], files);
      forall k | 0 <= k < |r| ensures r[k] in files && r[k] in names {
        if names[0] in files && k > 0 {
          assert r[k] == r1[k - 1];
        } else if names[0] !in files {
          assert r[k] == r1[k];
        }
      }
    }
  }

  /** The missing categories are all the labels exactly when no category
      file exists. */
  lemma FreshDirectory(targets: seq<Target>, files: Files)
    requires forall k :: 0 <= k < |targets| ==> CategoryFileName(targets[k].name) !in files
    requires forall k :: 0 <= k < |OtherFiles| ==> OtherFiles[k] !in files
    ensures NothingFound(targets, files)
    ensures MissingCategories(targets, files) == Labels(targets)
  {
    NoneExisting(targets, files);
    NonePresent(OtherFiles, files);
  }

  // ---------------------------------------------------------------- load_existing_products

  /** The rows of a file, or none when it is absent or cannot be read. */
  function RowsOf(files: Files, f: string): seq<Product> {
    if f in files && files[f].Readable? then files[f].rows else []
  }

  /** The rows of the existing category files, file after file. */
  function LoadedRows(existing: seq<(string, string)>, files: Files): seq<Product>
    decreases |existing|
  {
    if existing == [] then [] else RowsOf(files, existing[0].1) + LoadedRows(existing[1..], files)
  }

  predicate ProgressReadable(files: Files) {
    ProgressFile in files && files[ProgressFile].Readable?
  }

  /** The product list after `load_existing_products`: the progress file's
      rows in place of the list when that file can be read, and otherwise the
      list followed by the rows of each existing category file. */
  function Reloaded(products: seq<Product>, targets: seq<Target>, files: Files): seq<Product> {
    if ProgressReadable(files) then files[ProgressFile].rows
    else products + LoadedRows(ExistingFiles(targets, files), files)
  }

  /** Loading one more file appends its rows, if it can be read. */
  lemma LoadedRowsSnoc(existing: seq<(string, string)>, i: nat, files: Files)
    requires i < |existing|
    ensures LoadedRows(existing[..i + 1], files) == LoadedRows(existing[..i], files) + RowsOf(files, existing[i].1)
  {
    LoadedRowsAppend(existing[..i], [existing[i]], files);
    assert existing[..i + 1] == existing[..i] + [existing[i]];
    assert LoadedRows([existing[i]], files) == RowsOf(files, existing[i].1) + LoadedRows([], files);
  }

  /** Loading files one group after another is loading them all. */
  lemma {:induction false} LoadedRowsAppend(xs: seq<(string, string)>, ys: seq<(string, string)>, files: Files)
    ensures LoadedRows(xs + ys, files) == LoadedRows(xs, files) + LoadedRows(ys, files)
    decreases |xs|
  {
    if xs == [] {
      assert xs + ys == ys;
    } else {
      assert (xs + ys)[1..] == xs[1..] + ys;
      LoadedRowsAppend(xs[1..], ys, files);
    }
  }

  /** A file that cannot be read is skipped and the others load as if it
      were not there. */
  lemma LoadSkipsUnreadable(xs: seq<(string, string)>, e: (string, string), ys: seq<(string, string)>, files: Files)
    requires e.1 in files && files[e.1] == Unreadable
    ensures LoadedRows(xs + [e] + ys, files) == LoadedRows(xs + ys, files)
  {
    var a, b := LoadedRows(xs, files), LoadedRows(ys, files);
    assert LoadedRows([e], files) == [] by {
      assert RowsOf(files, e.1) == [];
      assert [e][1..] == [];
    }
    LoadedRowsAppend(xs, [e], files);
    assert LoadedRows(xs + [e], files) == a by {
      assert a + [] == a;
    }
    LoadedRowsAppend(xs + [e], ys, files);
    LoadedRowsAppend(xs, ys, files);
  }

  /** Without a readable progress file the list keeps what it held, and
      each readable existing category file adds its rows. */
  lemma ReloadExtends(products: seq<Product>, targets: seq<Target>, files: Files)
    requires !ProgressReadable(files)
    ensures |Reloaded(products, targets, files)| >= |products|
    ensures Reloaded(products, targets, files)[..|products|] == products
    ensures Reloaded(products, targets, files)[|products|..] == LoadedRows(ExistingFiles(targets, files), files)
  {
  }

  /** A readable progress file wins: whatever the list held and whatever
      category files exist, the list becomes its rows. */
  lemma ReloadFromProgress(products: seq<Product>, other: seq<Product>, targets: seq<Target>, files: Files)
    requires ProgressReadable(files)
    ensures Reloaded(products, targets, files) == Reloaded(other, targets, files) == files[ProgressFile].rows
  {
  }

  // ---------------------------------------------------------------- resume

  /** What a run goes on with: categories to scrape, stop on the operator's
      word, or no valid answer before the input ran out. */
  datatype Plan = Scrape(categories: seq<string>) | Exit | NoAnswer

  /** A plan, whether the saved products are reloaded first, and the files
      left afterwards. */
  datatype Resume = Resume(plan: Plan, reload: bool, files: Files)

  /** `auto_continue_from_existing`. */
  function AutoResume(targets: seq<Target>, files: Files): Resume {
    if NothingFound(targets, files) then Resume(Scrape(Labels(targets)), false, files)
    else if MissingCategories(targets, files) != [] then Resume(Scrape(MissingCategories(targets, files)), true, files)
    else Resume(Scrape([]), false, files)
  }

  /** An answer the menu accepts, once stripped. */
  predicate IsChoice(answer: string) {
    var a := Strip(answer);
    a == "1" || a == "2" || a == "3"
  }

  /** The files option 2 deletes: the existing category files and the
      run-wide files that exist. */
  function Removed(targets: seq<Target>, files: Files): set<string> {
    (set k | 0 <= k < |ExistingFiles(targets, files)| :: ExistingFiles(targets, files)[k].1) +
    (set k | 0 <= k < |OtherFilesPresent(files)| :: OtherFilesPresent(files)[k])
  }

  /** `handle_existing_files` given the operator's answers in order: invalid
      answers are asked again, and the first valid one decides. */
  function InteractiveResume(targets: seq<Target>, files: Files, answers: seq<string>): Resume {
    if NothingFound(targets, files) then Resume(Scrape(Labels(targets)), false, files)
    else match FirstIndex(answers, IsChoice)
      case None => Resume(NoAnswer, false, files)
      case Some(i) =>
        var choice := Strip(answers[i]);
        if choice == "1" then
          if MissingCategories(targets, files) != [] then Resume(Scrape(MissingCategories(targets, files)), true, files)
          else Resume(Scrape([]), false, files)
        else if choice == "2" then Resume(Scrape(Labels(targets)), false, files - Removed(targets, files))
        else Resume(Exit, false, files)
  }

  /** With no file of the scraper around, both modes scrape every category
      and load nothing. */
  lemma FreshStart(targets: seq<Target>, files: Files, answers: seq<string>)
    requires forall k :: 0 <= k < |targets| ==> CategoryFileName(targets[k].name) !in files
    requires forall k :: 0 <= k < |OtherFiles| ==> OtherFiles[k] !in files
    ensures AutoResume(targets, files) == Resume(Scrape(Labels(targets)), false, files)
    ensures InteractiveResume(targets, files, answers) == Resume(Scrape(Labels(targets)), false, files)
  {
    FreshDirectory(targets, files);
  }

  /** Choosing "1" is what the automatic mode does. */
  lemma ChoiceOneIsAuto(targets: seq<Target>, files: Files, answers: seq<string>, i: nat)
    requires i < |answers| && Strip(answers[i]) == "1"
    requires forall j :: 0 <= j < i ==> !IsChoice(answers[j])
    ensures InteractiveResume(targets, files, answers) == AutoResume(targets, files)
  {
    FirstIndexAt(answers, IsChoice, i);
  }

  /** When files were found but nothing is missing, both modes scrape
      nothing and load nothing. */
  lemma NothingMissing(targets: seq<Target>, files: Files)
    requires !NothingFound(targets, files) && MissingCategories(targets, files) == []
    ensures AutoResume(targets, files) == Resume(Scrape([]), false, files)
  {
  }

  /** Choosing "2" scrapes every category and deletes the files found, so
      that a new check afterwards finds nothing. */
  lemma ChoiceTwoStartsOver(targets: seq<Target>, files: Files, answers: seq<string>, i: nat)
    requires !NothingFound(targets, files)
    requires i < |answers| && Strip(answers[i]) == "2"
    requires forall j :: 0 <= j < i ==> !IsChoice(answers[j])
    ensures InteractiveResume(targets, files, answers).plan == Scrape(Labels(targets))
    ensures !InteractiveResume(targets, files, answers).reload
    ensures NothingFound(targets, InteractiveResume(targets, files, answers).files)
    ensures forall f :: f in files && f !in Removed(targets, files) ==>
      f in InteractiveResume(targets, files, answers).files && InteractiveResume(targets, files, answers).files[f] == files[f]
  {
    FirstIndexAt(answers, IsChoice, i);
    var after := files - Removed(targets, files);
    forall k | 0 <= k < |targets| ensures CategoryFileName(targets[k].name) !in after {
      if CategoryFileName(targets[k].name) in files {
        MissingIff(targets, files, k);
        var e := ExistingFiles(targets, files);
        var j :| 0 <= j < |e| && e[j] == (targets[k].name, CategoryFileName(targets[k].name));
        assert e[j].1 in Removed(targets, files);
      }
    }
    forall k | 0 <= k < |OtherFiles| ensures OtherFiles[k] !in after {
      if OtherFiles[k] in files {
        PresentAll(OtherFiles, files, k);
        var o := OtherFilesPresent(files);
        var j :| 0 <= j < |o| && o[j] == OtherFiles[k];
        assert o[j] in Removed(targets, files);
      }
    }
    FreshDirectory(targets, after);
  }

  lemma {:induction false} PresentAll(names: seq<string>, files: Files, k: nat)
    requires k < |names| && names[k] in files
    ensures names[k] in Present(names, files)
    decreases |names|
  {
    if k > 0 {
      PresentAll(names[1..], files, k - 1);
      assert names[1..][k - 1] == names[k];
    }
  }

  /** Choosing "3" stops the run and leaves every file alone. */
  lemma ChoiceThreeExits(targets: seq<Target>, files: Files, answers: seq<string>, i: nat)
    requires !NothingFound(targets, files)
    requires i < |answers| && Strip(answers[i]) == "3"
    requires forall j :: 0 <= j < i ==> !IsChoice(answers[j])
    ensures InteractiveResume(targets, files, answers) == Resume(Exit, false, files)
  {
    FirstIndexAt(answers, IsChoice, i);
  }

  /** An answer other than "1", "2" or "3" changes nothing: the operator is
      asked again. */
  lemma InvalidAnswerAsksAgain(targets: seq<Target>, files: Files, answer: string, rest: seq<string>)
    requires !IsChoice(answer)
    ensures InteractiveResume(targets, files, [answer] + rest) == InteractiveResume(targets, files, rest)
  {
    var answers := [answer] + rest;
    assert answers[1..] == rest;
    match FirstIndex(rest, IsChoice)
    case None =>
    case Some(i) =>
      assert answers[i + 1] == rest[i];
  }

  /** A resumed run never scrapes a category that already has its file:
      every category it plans is a target whose file does not exist, and it
      reloads only when it goes on with missing categories. */
  lemma AutoNeverRecollects(targets: seq<Target>, files: Files)
    ensures AutoResume(targets, files).plan.Scrape?
    ensures forall c :: c in AutoResume(targets, files).plan.categories ==>
      exists j :: 0 <= j < |targets| && targets[j].name == c && CategoryFileName(c) !in files
    ensures AutoResume(targets, files).reload ==> AutoResume(targets, files).plan.categories != []
  {
    MissingFrom(targets, files);
    if NothingFound(targets, files) {
      forall c | c in Labels(targets)
        ensures exists j :: 0 <= j < |targets| && targets[j].name == c && CategoryFileName(c) !in files
      {
        var j :| 0 <= j < |targets| && Labels(targets)[j] == c;
        MissingIff(targets, files, j);
        if CategoryFileName(c) in files {
          assert (c, CategoryFileName(c)) in ExistingFiles(targets, files);
        }
      }
    }
  }
}
