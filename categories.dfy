/** `sum_directory`: the total size of a tree's files per category of
    extension. */
module Categories {
  import opened Common
  import opened Text
  import opened FileRecords
  import opened SignatureIndex

  /** The five keys of the `categories` dict. */
  datatype Category = Texte | Images | Video | Audio | Autre
  {
    /** The key as the program spells it. */
    function Name(): string
    {
      match this
      case Texte => "texte"
      case Images => "images"
      case Video => "video"
      case Audio => "audio"
      case Autre => "autre"
    }
  }

  /** The `categories` dict, in its iteration order. The last category
      lists no extension: it only receives what no other one lists. */
  const CATEGORIES: seq<(Category, seq<string>)> := [
    (Texte, ["txt", "doc", "docx", "odt", "csv", "xls", "ppt", "odp"]),
    (Images, ["jpg", "png", "bmp", "gif", "svg"]),
    (Video, ["mp4", "avi", "mov", "mpeg", "wmv"]),
    (Audio, ["mp3", "mp2", "wav", "bwf"]),
    (Autre, [])
  ]

  const ALL_CATEGORIES: set<Category> := {Texte, Images, Video, Audio, Autre}

  lemma InAllCategories(c: Category)
    ensures c in ALL_CATEGORIES
  {
    match c
    case Texte =>
    case Images =>
    case Video =>
    case Audio =>
    case Autre =>
  }

  /** `file.split('.')[-1].lower()`. */
  function Extension(name: string): string
  {
    Lower(AfterLast(name, '.'))
  }

  /** The extension is no longer than the name and holds no dot. */
  lemma ExtensionHasNoDot(name: string)
    ensures |Extension(name)| <= |name|
    ensures '.' !in Extension(name)
  {
    var after := AfterLast(name, '.');
    forall i | 0 <= i < |after| ensures Extension(name)[i] != '.' {
      assert after[i] != '.';
    }
  }

  /** The extension is the lower-cased text after the last dot. */
  lemma ExtensionAfterLastDot(stem: string, ext: string)
    requires '.' !in ext
    ensures Extension(stem + "." + ext) == Lower(ext)
  {
    AfterLastOfSuffix(stem, '.', ext);
  }

  /** A name without a dot is its own extension, lower-cased. */
  lemma ExtensionWithoutDot(name: string)
    requires '.' !in name
    ensures Extension(name) == Lower(name)
  {
  }

  /** The first category from position `k` on that lists `ext`, or
      |CATEGORIES| when none does. */
  function FirstListing(ext: string, k: nat): (j: nat)
    requires k <= |CATEGORIES|
    ensures k <= j <= |CATEGORIES|
    ensures j < |CATEGORIES| ==> ext in CATEGORIES[j].1
    ensures forall i :: k <= i < j ==> ext !in CATEGORIES[i].1
    decreases |CATEGORIES| - k
  {
    if k == |CATEGORIES| || ext in CATEGORIES[k].1 then k else FirstListing(ext, k + 1)
  }

  /** The category a file with extension `ext` is counted in. */
  function CategoryFor(ext: string): Category
  {
    var j := FirstListing(ext, 0);
    if j < |CATEGORIES| then CATEGORIES[j].0 else Autre
  }

  /** A file is counted in the first category listing its extension, and
      in Autre when none does. */
  lemma CategoryForFirstListing(ext: string)
    ensures forall k ::
              (0 <= k < |CATEGORIES| && ext in CATEGORIES[k].1
               && forall i :: 0 <= i < k ==> ext !in CATEGORIES[i].1) ==> CategoryFor(ext) == CATEGORIES[k].0
    ensures (forall k :: 0 <= k < |CATEGORIES| ==> ext !in CATEGORIES[k].1) ==> CategoryFor(ext) == Autre
  {
  }

  /** The category of a record, from the extension of its name. */
  function CategoryOf(file: FileRecord): Category
  {
    CategoryFor(Extension(file.name))
  }

  /** `sums[c] += n`. */
  function Credit(sums: map<Category, nat>, c: Category, n: nat): (r: map<Category, nat>)
    requires c in sums
    ensures r.Keys == sums.Keys
  {
    sums[c := sums[c] + n]
  }

  /** The `categories` dict after `sum_directory` has visited `recs`: every
      total starts at 0, and each record adds its size to the total of its
      category. The totals depend on the category table only through
      `categoryOf`, so the lemmas below hold for any table. */
  function Sums(recs: seq<FileRecord>, categoryOf: FileRecord -> Category): (sums: map<Category, nat>)
    ensures sums.Keys == ALL_CATEGORIES
  {
    if recs == [] then map c | c in ALL_CATEGORIES :: 0
    else
      var c := categoryOf(recs[|recs| - 1]);
      InAllCategories(c);
      Credit(Sums(recs[..|recs| - 1], categoryOf), c, recs[|recs| - 1].size)
  }

  /** The records of category `c`, in visit order. */
  function InCategory(recs: seq<FileRecord>, categoryOf: FileRecord -> Category, c: Category): seq<FileRecord>
  {
    if recs == [] then []
    else
      var last := recs[|recs| - 1];
      InCategory(recs[..|recs| - 1], categoryOf, c) + if categoryOf(last) == c then [last] else []
  }

  /** The total size of the records. */
  function TotalSize(recs: seq<FileRecord>): nat
  {
    if recs == [] then 0 else TotalSize(recs[..|recs| - 1]) + recs[|recs| - 1].size
  }

  lemma TotalSizeAppend(xs: seq<FileRecord>, ys: seq<FileRecord>)
    ensures TotalSize(xs + ys) == TotalSize(xs) + TotalSize(ys)
    decreases |ys|
  {
    if ys == [] {
      assert xs + ys == xs;
    } else {
      var n := |ys| - 1;
      assert (xs + ys)[..|xs + ys| - 1] == xs + ys[..n];
      TotalSizeAppend(xs, ys[..n]);
    }
  }

  /** Each total is the size of exactly the files of its category. */
  lemma {:induction false} SumsOfCategory(recs: seq<FileRecord>, categoryOf: FileRecord -> Category, c: Category)
    ensures c in Sums(recs, categoryOf)
    ensures Sums(recs, categoryOf)[c] == TotalSize(InCategory(recs, categoryOf, c))
  {
    InAllCategories(c);
    if recs != [] {
      var init := recs[..|recs| - 1];
      var last := recs[|recs| - 1];
      var category := categoryOf(last);
      InAllCategories(category);
      var tail := if category == c then [last] else [];
      assert Sums(recs, categoryOf) == Credit(Sums(init, categoryOf), category, last.size);
      assert InCategory(recs, categoryOf, c) == InCategory(init, categoryOf, c) + tail;
      assert TotalSize(tail) == if category == c then last.size else 0 by {
        assert tail == [] || tail[..0] == [];
      }
      SumsOfCategory(init, categoryOf, c);
      TotalSizeAppend(InCategory(init, categoryOf, c), tail);
    }
  }

  /** Every size goes to exactly one category: the five totals add up to
      the size of all the files. */
  lemma {:induction false} SumsPartition(recs: seq<FileRecord>, categoryOf: FileRecord -> Category)
    ensures var sums := Sums(recs, categoryOf);
            sums[Texte] + sums[Images] + sums[Video] + sums[Audio] + sums[Autre] == TotalSize(recs)
  {
    if recs != [] {
      SumsPartition(recs[..|recs| - 1], categoryOf);
    }
  }

  /** What the totals mean: each is the size of the files of its category,
      and together they add up to the size of all the files. */
  lemma SumsMeaning(recs: seq<FileRecord>, categoryOf: FileRecord -> Category)
    ensures forall c :: c in Sums(recs, categoryOf) ==>
              Sums(recs, categoryOf)[c] == TotalSize(InCategory(recs, categoryOf, c))
    ensures var sums := Sums(recs, categoryOf);
            sums[Texte] + sums[Images] + sums[Video] + sums[Audio] + sums[Autre] == TotalSize(recs)
  {
    forall c | c in Sums(recs, categoryOf) {
      SumsOfCategory(recs, categoryOf, c);
    }
    SumsPartition(recs, categoryOf);
  }

  /** The record just built is counted where the classification put it. */
  lemma ClassifiedStep(recs: seq<FileRecord>, i: nat, file: FileRecord, category: Category)
    requires i < |recs| && file == recs[i] && category == CategoryFor(Extension(file.name))
    ensures category in Sums(recs[..i], CategoryOf)
    ensures Sums(recs[..i + 1], CategoryOf) == Credit(Sums(recs[..i], CategoryOf), category, file.size)
  {
    SumsStep(recs, CategoryOf, i);
    assert CategoryOf(recs[i]) == category;
  }

  /** Visiting one more record adds its size to its category's total. */
  lemma SumsStep(recs: seq<FileRecord>, categoryOf: FileRecord -> Category, i: nat)
    requires i < |recs|
    ensures categoryOf(recs[i]) in ALL_CATEGORIES
    ensures Sums(recs[..i + 1], categoryOf)
            == Credit(Sums(recs[..i], categoryOf), categoryOf(recs[i]), recs[i].size)
  {
    assert recs[..i + 1][..i] == recs[..i];
    InAllCategories(categoryOf(recs[i]));
  }

  /** The inner loop of `sum_directory`: scan the categories in order,
      stop at the first one listing `ext`, and fall back to Autre when the
      scan ends without finding one. */
  method Classify(ext: string) returns (category: Category)
    ensures category == CategoryFor(ext)
  {
    CategoryForFirstListing(ext);
    var found := false;
    var k := 0;
    category := Autre;
    while k < |CATEGORIES|
      invariant 0 <= k <= |CATEGORIES|
      invariant !found
      invariant forall j :: 0 <= j < k ==> ext !in CATEGORIES[j].1
    {
      var (name, exts) := CATEGORIES[k];
      if ext in exts {
        category := name;
        found := true;
        break;
      }
      k := k + 1;
    }
    if !found {
      category := Autre;
    }
  }

  /** `sum_directory`: add each file's size to the first category listing
      its extension, or to Autre when none does. Each total is then the
      size of the files of its category, and the totals add up to the size
      of the whole tree. */
  method SumDirectory(host: Host, fs: Store, walk: seq<Path>) returns (sums: map<Category, nat>)
    requires WalkIn(fs, walk)
    ensures sums == Sums(Records(host, fs, walk), CategoryOf)
    ensures sums.Keys == ALL_CATEGORIES
    ensures forall c :: c in sums ==>
              sums[c] == TotalSize(InCategory(Records(host, fs, walk), CategoryOf, c))
    ensures sums[Texte] + sums[Images] + sums[Video] + sums[Audio] + sums[Autre]
            == TotalSize(Records(host, fs, walk))
  {
    ghost var recs := Records(host, fs, walk);
    sums := map c | c in ALL_CATEGORIES :: 0;
    assert recs[..0] == [];
    for i := 0 to |walk|
      invariant sums == Sums(recs[..i], CategoryOf)
    {
      var file := NewFile(host, fs, walk[i]);
      var category := Classify(Extension(file.name));
      ClassifiedStep(recs, i, file, category);
      sums := Credit(sums, category, file.size);
    }
    assert recs[..|walk|] == recs;
    SumsMeaning(recs, CategoryOf);
  }
}
