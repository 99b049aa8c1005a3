/** The tree walker: size aggregation and object collection over a folder
    hierarchy, one paginated listing per folder. */
module Walker {
  import opened Common
  import opened Store
  import opened Lister

  /** A total that charges bytes only alongside objects. */
  predicate Consistent(t: Totals)
  {
    t.count == 0 ==> t.size == 0
  }

  // ----- Size aggregation (`caluculateSizeByPath`) -----

  /** `[count, size]` of the objects under a folder. A failed request while
      reading this folder's own pages yields `(0, 0)`, whatever earlier pages
      added. A count of zero always comes with a size of zero, so skipping
      subfolders whose count is zero never drops any bytes. */
  function SizeByPath(l: Listing): (t: Totals)
    ensures Consistent(t)
    decreases l, 1
  {
    match SizePages(l, 0, Totals(0, 0))
    case None => Totals(0, 0)
    case Some(t) => t
  }

  /** Running totals after reading pages `k ..` of a folder, starting from `acc`. */
  function SizePages(l: Listing, k: nat, acc: Totals): (r: Option<Totals>)
    ensures r.Some? && Consistent(acc) ==> Consistent(r.value)
    ensures r.Some? ==> r.value.count >= acc.count && r.value.size >= acc.size
    decreases l, 0, |l.pages| - k
  {
    if k >= |l.pages| then None
    else match l.pages[k]
      case Failed => None
      case Page(items, next) =>
        var total := if items.Present? then SizeItems(items.entries, acc) else acc;
        if Continues(next) then SizePages(l, k + 1, total) else Some(total)
  }

  /** What one item weighs: a folder its own totals, an object one and its
      length, any other item nothing. */
  function ItemSize(item: Item): (t: Totals)
    ensures Consistent(t)
    decreases item, 2
  {
    match item.itemType
    case Folder(contents) => SizeByPath(contents)
    case Object => Totals(1, item.contentLength)
    case Other => Totals(0, 0)
  }

  /** The running total after one more item: an object adds one and its
      length, a folder adds its own totals when their count is not zero, any
      other item adds nothing. */
  function AddItem(acc: Totals, item: Item): (r: Totals)
    ensures Consistent(acc) ==> Consistent(r)
    ensures r.count >= acc.count && r.size >= acc.size
    decreases item, 3
  {
    var t := ItemSize(item);
    match item.itemType
    case Folder(_) => if t.count != 0 then Add(acc, t) else acc
    case Object => Add(acc, t)
    case Other => acc
  }

  /** Running totals after the items of one page, in listing order. */
  function SizeItems(items: seq<Item>, acc: Totals): (r: Totals)
    ensures Consistent(acc) ==> Consistent(r)
    ensures r.count >= acc.count && r.size >= acc.size
    decreases items
  {
    if items == [] then acc else SizeItems(items[1..], AddItem(acc, items[0]))
  }

  // ----- Object collection (`getAllFilesByPath`) -----

  /** `f` lies strictly under `path` and its path ends in `"/"` and its name. */
  ghost predicate Under(path: string, f: MSFile)
  {
    && |f.path| >= |path| + 1 + |NameText(f.name)|
    && f.path[..|path| + 1] == path + "/"
    && f.path[|f.path| - |NameText(f.name)| - 1..] == "/" + NameText(f.name)
  }

  /** Whatever lies under a child folder lies under its parent. */
  lemma UnderChild(path: string, name: string, f: MSFile)
    requires Under(ChildPath(path, name), f)
    ensures Under(path, f)
  {
    var child := ChildPath(path, name);
    assert f.path[..|path| + 1] == f.path[..|child| + 1][..|path| + 1];
    assert (child + "/")[..|path| + 1] == path + "/";
  }

  /** The files one item contributes at its position in the listing: one
      record for an object, everything under it for a folder, nothing else. */
  function ItemFiles(path: string, item: Item): seq<MSFile>
    decreases item, 2
  {
    match item.itemType
    case Folder(contents) => FilesByPath(ChildPath(path, NameText(item.name)), contents)
    case Object => [MSFile(ChildPath(path, NameText(item.name)), item.name, item.contentLength)]
    case Other => []
  }

  /** Every object under a folder, as an `MSFile` with the full path, in
      listing order with each subfolder's files at the subfolder's position.
      A failed request while reading this folder's own pages yields nothing. */
  function FilesByPath(path: string, l: Listing): seq<MSFile>
    decreases l, 1
  {
    match FilesPages(path, l, 0, [])
    case None => []
    case Some(files) => files
  }

  /** Files gathered after reading pages `k ..` of a folder, after `acc`. */
  function FilesPages(path: string, l: Listing, k: nat, acc: seq<MSFile>): Option<seq<MSFile>>
    decreases l, 0, |l.pages| - k
  {
    if k >= |l.pages| then None
    else match l.pages[k]
      case Failed => None
      case Page(items, next) =>
        var files := if items.Present? then FilesItems(path, items.entries, acc) else acc;
        if Continues(next) then FilesPages(path, l, k + 1, files) else Some(files)
  }

  /** Files gathered after the items of one page, appended to `acc`. */
  function FilesItems(path: string, items: seq<Item>, acc: seq<MSFile>): seq<MSFile>
    decreases items
  {
    if items == [] then acc
    else FilesItems(path, items[1..], acc + ItemFiles(path, items[0]))
  }

  /** Every file an item contributes lies under the parent folder's path. */
  lemma {:induction false} ItemFilesUnder(path: string, item: Item)
    ensures forall f :: f in ItemFiles(path, item) ==> Under(path, f)
    decreases item, 2
  {
    match item.itemType
    case Folder(contents) =>
      FilesUnder(ChildPath(path, NameText(item.name)), contents);
      forall f | f in ItemFiles(path, item)
        ensures Under(path, f)
      {
        UnderChild(path, NameText(item.name), f);
      }
    case Object =>
      var file := MSFile(ChildPath(path, NameText(item.name)), item.name, item.contentLength);
      assert file.path[|file.path| - |NameText(file.name)| - 1..] == "/" + NameText(file.name);
    case Other =>
  }

  /** Every collected file lies under the folder's path and its path ends in
      `"/" + Name`. */
  lemma {:induction false} FilesUnder(path: string, l: Listing)
    ensures forall f :: f in FilesByPath(path, l) ==> Under(path, f)
    decreases l, 1
  {
    PagesUnder(path, l, 0, []);
  }

  lemma {:induction false} PagesUnder(path: string, l: Listing, k: nat, acc: seq<MSFile>)
    requires forall f :: f in acc ==> Under(path, f)
    ensures FilesPages(path, l, k, acc).Some? ==> forall f :: f in FilesPages(path, l, k, acc).value ==> Under(path, f)
    decreases l, 0, |l.pages| - k
  {
    if k < |l.pages| && l.pages[k].Page? {
      var p := l.pages[k];
      var files := if p.items.Present? then FilesItems(path, p.items.entries, acc) else acc;
      if p.items.Present? {
        ItemsUnder(path, p.items.entries, acc);
      }
      if Continues(p.nextToken) {
        PagesUnder(path, l, k + 1, files);
      }
    }
  }

  lemma {:induction false} ItemsUnder(path: string, items: seq<Item>, acc: seq<MSFile>)
    requires forall f :: f in acc ==> Under(path, f)
    ensures forall f :: f in FilesItems(path, items, acc) ==> Under(path, f)
    decreases items
  {
    if items != [] {
      ItemFilesUnder(path, items[0]);
      ItemsUnder(path, items[1..], acc + ItemFiles(path, items[0]));
    }
  }

  // ----- Reference: merge the folder's pages, then flatten its items -----

  /** The files of a whole item list: each item's contribution, in order. */
  function Flatten(path: string, items: seq<Item>): seq<MSFile>
    decreases items
  {
    if items == [] then [] else ItemFiles(path, items[0]) + Flatten(path, items[1..])
  }

  /** Flattening splits over concatenated item lists. */
  lemma {:induction false} FlattenAppend(path: string, a: seq<Item>, b: seq<Item>)
    ensures Flatten(path, a + b) == Flatten(path, a) + Flatten(path, b)
    decreases |a|
  {
    if a == [] {
      assert a + b == b;
    } else {
      assert (a + b)[0] == a[0];
      assert (a + b)[1..] == a[1..] + b;
      FlattenAppend(path, a[1..], b);
    }
  }

  /** The per-page accumulation adds exactly the flattened items. */
  lemma {:induction false} FilesItemsFlatten(path: string, items: seq<Item>, acc: seq<MSFile>)
    ensures FilesItems(path, items, acc) == acc + Flatten(path, items)
    decreases items
  {
    if items != [] {
      FilesItemsFlatten(path, items[1..], acc + ItemFiles(path, items[0]));
    }
  }

  /** Reading pages `k ..` adds the flattened items of the merged pages, and
      fails exactly when the lister's walk does. */
  /** One page adds the flattened items it carries, nothing when `Items` is absent. */
  lemma PageFiles(path: string, items: ItemList, acc: seq<MSFile>)
    ensures (if items.Present? then FilesItems(path, items.entries, acc) else acc)
         == acc + Flatten(path, ItemsOf(items))
  {
    FilesItemsFlatten(path, ItemsOf(items), acc);
    if items.Absent? {
      assert acc + [] == acc;
    }
  }

  /** Collecting from page `k` on, after `acc`, adds the flattened items the
      lister's walk reads from there, and fails exactly when the walk does. */
  ghost predicate CollectsWalk(path: string, l: Listing, k: nat, acc: seq<MSFile>)
  {
    FilesPages(path, l, k, acc) ==
      match Walk(l, k)
      case None => None
      case Some(items) => Some(acc + Flatten(path, items))
  }

  /** Collecting from a page with a truthy token goes on from the next page
      with what this page adds. */
  lemma FilesPagesNext(path: string, l: Listing, k: nat, acc: seq<MSFile>, files: seq<MSFile>)
    requires k < |l.pages| && l.pages[k].Page? && Continues(l.pages[k].nextToken)
    requires files == if l.pages[k].items.Present? then FilesItems(path, l.pages[k].items.entries, acc) else acc
    ensures FilesPages(path, l, k, acc) == FilesPages(path, l, k + 1, files)
  {
  }

  lemma AppendAssoc<T>(a: seq<T>, b: seq<T>, c: seq<T>)
    ensures a + b + c == a + (b + c)
  {
  }

  /** A page with a truthy token passes on to the next page what it adds. */
  lemma ContinuedPage(path: string, l: Listing, k: nat, acc: seq<MSFile>)
    requires k < |l.pages| && l.pages[k].Page? && Continues(l.pages[k].nextToken)
    requires CollectsWalk(path, l, k + 1, acc + Flatten(path, ItemsOf(l.pages[k].items)))
    requires (if l.pages[k].items.Present? then FilesItems(path, l.pages[k].items.entries, acc) else acc)
          == acc + Flatten(path, ItemsOf(l.pages[k].items))
    ensures CollectsWalk(path, l, k, acc)
  {
    var here := ItemsOf(l.pages[k].items);
    var files := acc + Flatten(path, here);
    FilesPagesNext(path, l, k, acc, files);
    WalkStep(l, k);
    if Walk(l, k + 1).Some? {
      var rest := Walk(l, k + 1).value;
      assert Walk(l, k) == Some(here + rest);
      assert FilesPages(path, l, k + 1, files) == Some(files + Flatten(path, rest));
      FlattenAppend(path, here, rest);
      AppendAssoc(acc, Flatten(path, here), Flatten(path, rest));
    } else {
      assert Walk(l, k).None?;
      assert FilesPages(path, l, k + 1, files).None?;
    }
  }

  lemma {:induction false} FilesPagesWalk(path: string, l: Listing, k: nat, acc: seq<MSFile>)
    ensures CollectsWalk(path, l, k, acc)
    decreases |l.pages| - k
  {
    if k < |l.pages| && l.pages[k].Page? {
      var p := l.pages[k];
      PageFiles(path, p.items, acc);
      if Continues(p.nextToken) {
        FilesPagesWalk(path, l, k + 1, acc + Flatten(path, ItemsOf(p.items)));
        ContinuedPage(path, l, k, acc);
      }
    }
  }

  /** Collection is "list this folder, then flatten its items": nothing when
      this folder's listing fails, and otherwise every item's files in order,
      a failing subfolder contributing nothing. */
  lemma CollectIsFlatten(path: string, l: Listing)
    ensures FilesByPath(path, l) == if Merge(l).None? then [] else Flatten(path, Merge(l).value)
  {
    FilesPagesWalk(path, l, 0, []);
  }

  /** A subfolder whose own listing fails adds nothing, and the items around
      it are collected as if it were not there. */
  lemma FailingFolderIsSkipped(path: string, items: seq<Item>, i: nat)
    requires i < |items| && items[i].itemType.Folder?
    requires Merge(items[i].itemType.contents).None?
    ensures Flatten(path, items) == Flatten(path, items[..i] + items[i + 1..])
  {
    var item := items[i];
    var pre, post := items[..i], items[i + 1..];
    assert ItemFiles(path, item) == [] by {
      CollectIsFlatten(ChildPath(path, NameText(item.name)), item.itemType.contents);
    }
    assert ([item] + post)[1..] == post;
    assert Flatten(path, [item] + post) == Flatten(path, post);
    assert items == pre + ([item] + post);
    FlattenAppend(path, pre, [item] + post);
    FlattenAppend(path, pre, post);
  }

  // ----- Aggregation agrees with collection -----

  /** One item weighs what it contributes to the collection. */
  lemma {:induction false} ItemSizeMeasure(path: string, item: Item)
    ensures ItemSize(item) == Measure(ItemFiles(path, item))
    decreases item, 2
  {
    match item.itemType {
      case Folder(contents) =>
        SizeMeasure(ChildPath(path, NameText(item.name)), contents);
      case Object =>
        var files := ItemFiles(path, item);
        assert |files| == 1 && files[..0] == [];
        assert TotalLength(files) == item.contentLength;
      case Other =>
    }
  }

  /** Adding one item to a running total measures the files it adds. */
  lemma AddItemMeasure(path: string, item: Item, acc: seq<MSFile>)
    ensures AddItem(Measure(acc), item) == Measure(acc + ItemFiles(path, item))
    decreases item, 3
  {
    var files := ItemFiles(path, item);
    ItemSizeMeasure(path, item);
    MeasureAppend(acc, files);
    if ItemSize(item).count == 0 {
      assert files == [];
      assert acc + files == acc;
    }
  }

  /** Item by item, the size aggregation measures what collection gathers. */
  lemma {:induction false} SizeItemsMeasure(path: string, items: seq<Item>, acc: seq<MSFile>)
    ensures SizeItems(items, Measure(acc)) == Measure(FilesItems(path, items, acc))
    decreases items
  {
    if items != [] {
      AddItemMeasure(path, items[0], acc);
      SizeItemsMeasure(path, items[1..], acc + ItemFiles(path, items[0]));
    }
  }

  /** Page by page, the size aggregation measures what collection gathers. */
  lemma {:induction false} SizePagesMeasure(path: string, l: Listing, k: nat, acc: seq<MSFile>)
    ensures SizePages(l, k, Measure(acc)) ==
      match FilesPages(path, l, k, acc)
      case None => None
      case Some(files) => Some(Measure(files))
    decreases l, 0, |l.pages| - k
  {
    if k < |l.pages| && l.pages[k].Page? {
      var p := l.pages[k];
      var files := if p.items.Present? then FilesItems(path, p.items.entries, acc) else acc;
      if p.items.Present? {
        SizeItemsMeasure(path, p.items.entries, acc);
      }
      if Continues(p.nextToken) {
        SizePagesMeasure(path, l, k + 1, files);
      }
    }
  }

  /** For every folder tree and every path: the `[count, size]` aggregation is
      the number of collected files and the sum of their content lengths.
      Both walks see the same answers from the store, so they fail at the
      same places and agree even where requests fail. */
  lemma {:induction false} SizeMeasure(path: string, l: Listing)
    ensures SizeByPath(l) == Measure(FilesByPath(path, l))
    decreases l, 1
  {
    assert Measure([]) == Totals(0, 0);
    SizePagesMeasure(path, l, 0, []);
  }

  /** Aggregation in the lister's terms: `(0, 0)` when this folder's listing
      fails, otherwise the count and total length of its flattened items. */
  lemma SizeIsMeasureOfListing(path: string, l: Listing)
    ensures SizeByPath(l) == if Merge(l).None? then Totals(0, 0) else Measure(Flatten(path, Merge(l).value))
  {
    SizeMeasure(path, l);
    CollectIsFlatten(path, l);
  }

  // ----- A worked tree -----

  /** A folder listed in one page. */
  function OnePage(items: seq<Item>): Listing
  {
    Listing([Page(Present(items), None)])
  }

  /** `root` holds `a.txt` (10 bytes) and a folder `sub` that holds `b.txt`
      (20 bytes): the walk finds two objects and 30 bytes, with paths built
      by joining folder names with "/". */
  lemma TwoLevelTree()
    ensures var tree := OnePage([Item(Some("a.txt"), Object, 10), Item(Some("sub"), Folder(OnePage([Item(Some("b.txt"), Object, 20)])), 0)]);
      && FilesByPath("root", tree) == [MSFile("root/a.txt", Some("a.txt"), 10), MSFile("root/sub/b.txt", Some("b.txt"), 20)]
      && SizeByPath(tree) == Totals(2, 30)
  {
    var sub := OnePage([Item(Some("b.txt"), Object, 20)]);
    var tree := OnePage([Item(Some("a.txt"), Object, 10), Item(Some("sub"), Folder(sub), 0)]);
    var a := MSFile("root/a.txt", Some("a.txt"), 10);
    var b := MSFile("root/sub/b.txt", Some("b.txt"), 20);
    assert ChildPath("root", "sub") == "root/sub";
    assert ChildPath("root/sub", "b.txt") == b.path;
    assert ChildPath("root", "a.txt") == a.path;
    assert FilesItems("root/sub", [Item(Some("b.txt"), Object, 20)], []) == [b];
    assert FilesByPath("root/sub", sub) == [b];
    var items := tree.pages[0].items.entries;
    assert ItemFiles("root", items[0]) == [a];
    assert ItemFiles("root", items[1]) == [b];
    assert items[1..][1..] == [];
    assert FilesItems("root", items[1..], [a]) == [a, b];
    assert [] + ItemFiles("root", items[0]) == [a];
    assert FilesItems("root", items, []) == [a, b];
    SizeMeasure("root", tree);
    assert [a, b][..1] == [a] && [a][..0] == [];
  }

  /** An empty-string continuation token is falsy, so it ends the listing
      like an absent one: the failing page after it is never requested. */
  lemma EmptyTokenEndsListing()
    ensures var a := Item(Some("a"), Object, 5);
      var l := Listing([Page(Present([a]), Some("")), Failed]);
      && Listed(l) == [a]
      && RequestCount(l) == 1
      && SizeByPath(l) == Totals(1, 5)
  {
    var a := Item(Some("a"), Object, 5);
    var l := Listing([Page(Present([a]), Some("")), Failed]);
    assert !Continues(l.pages[0].nextToken);
    assert Walk(l, 0) == Some([a]);
    assert SizeItems([a], Totals(0, 0)) == Totals(1, 5);
  }

  /** An object the store lists without a `Name` is collected under
      `path + "/undefined"`, keeping its name missing. */
  lemma MissingNameReadsUndefined()
    ensures FilesByPath("root", OnePage([Item(None, Object, 7)])) == [MSFile("root/undefined", None, 7)]
  {
    var f := MSFile("root/undefined", None, 7);
    assert ChildPath("root", NameText(None)) == f.path;
    assert ItemFiles("root", Item(None, Object, 7)) == [f];
    assert [] + [f] == [f];
    assert FilesItems("root", [Item(None, Object, 7)], []) == [f];
  }
}
