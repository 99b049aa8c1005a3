/** The listing tree of a paginated, hierarchical object store, as the
    traversal engine sees it through the store's listing requests. */
module Store {
  import opened Common

  /** What an item's `Type` field says it is. A folder carries the listing the
      store gives for the folder's own path (`parent + "/" + Name`). */
  datatype ItemType =
    | Folder(contents: Listing)
    | Object
    | Other   // a missing or unrecognised type

  /** One listing entry. The store may leave `Name` out; `contentLength` is
      taken as a natural number. */
  datatype Item = Item(name: Option<string>, itemType: ItemType, contentLength: nat)

  /** A `Name` as a template literal renders it: a missing one reads
      `"undefined"`. */
  function NameText(name: Option<string>): string
  {
    if name.Some? then name.value else "undefined"
  }

  /** The `Items` field of a response, which the store may leave out. */
  datatype ItemList = Absent | Present(entries: seq<Item>)

  /** The outcome of one listing request: the request threw, or the store
      answered with items and possibly a continuation token. */
  datatype Page = Failed | Page(items: ItemList, nextToken: Option<string>)

  /** The loop test `response.NextToken` on an answered page: a token keeps
      the listing going only when it is truthy, that is present and not the
      empty string. */
  predicate Continues(nextToken: Option<string>)
  {
    nextToken.Some? && nextToken.value != ""
  }

  /** The answers the store gives to the successive listing requests of one
      folder: `pages[k]` answers the request made after `k` pages were read.
      A request past the end of `pages` is a failed request. */
  datatype Listing = Listing(pages: seq<Page>)

  /** A resolved object under a path: the record handed to bulk deletion.
      `name` is the item's `Name`, kept missing when the store left it out. */
  datatype MSFile = MSFile(path: string, name: Option<string>, contentLength: nat)

  /** A request the engine sends to the store. */
  datatype Request =
    | List(path: string, token: Option<string>)
    | Delete(path: string)

  /** The `[count, size]` pair of the size aggregation. */
  datatype Totals = Totals(count: nat, size: nat)

  function Add(a: Totals, b: Totals): Totals
  {
    Totals(a.count + b.count, a.size + b.size)
  }

  /** The items a page contributes to a listing: none when `Items` is absent. */
  function ItemsOf(items: ItemList): seq<Item>
  {
    if items.Present? then items.entries else []
  }

  /** The path a child entry of `parent` is listed or addressed under. */
  function ChildPath(parent: string, name: string): string
  {
    parent + "/" + name
  }

  /** Sum of the content lengths of a list of files. */
  function TotalLength(files: seq<MSFile>): nat
  {
    if files == [] then 0 else TotalLength(files[..|files| - 1]) + files[|files| - 1].contentLength
  }

  /** Count and total size of a list of files, in the aggregation's terms. */
  function Measure(files: seq<MSFile>): Totals
  {
    Totals(|files|, TotalLength(files))
  }

  /** Total length is additive over concatenation. */
  lemma {:induction false} TotalLengthAppend(a: seq<MSFile>, b: seq<MSFile>)
    ensures TotalLength(a + b) == TotalLength(a) + TotalLength(b)
    decreases |b|
  {
    if b == [] {
      assert a + b == a;
    } else {
      var ab := a + b;
      assert ab[..|ab| - 1] == a + b[..|b| - 1];
      assert ab[|ab| - 1] == b[|b| - 1];
      TotalLengthAppend(a, b[..|b| - 1]);
    }
  }

  /** Measuring is additive over concatenation. */
  lemma {:induction false} MeasureAppend(a: seq<MSFile>, b: seq<MSFile>)
    ensures Measure(a + b) == Add(Measure(a), Measure(b))
  {
    assert Measure(a + b).count == |a| + |b|;
    TotalLengthAppend(a, b);
  }
}
