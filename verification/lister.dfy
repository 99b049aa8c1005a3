/** The paginated lister: one folder's listing, all pages merged. */
module Lister {
  import opened Common
  import opened Store

  /** The items of the pages read from page `k` on, following continuation
      tokens until a page's token is missing or empty; `None` as soon as a
      request fails. */
  function Walk(l: Listing, k: nat): Option<seq<Item>>
    decreases |l.pages| - k
  {
    if k >= |l.pages| then None
    else match l.pages[k]
      case Failed => None
      case Page(items, next) =>
        if !Continues(next) then Some(ItemsOf(items))
        else match Walk(l, k + 1)
          case None => None
          case Some(rest) => Some(ItemsOf(items) + rest)
  }

  /** The whole listing of a folder, or `None` when some page request failed. */
  function Merge(l: Listing): Option<seq<Item>>
  {
    Walk(l, 0)
  }

  /** What `getFiles` hands back: the merged listing, or nothing at all on failure. */
  function Listed(l: Listing): seq<Item>
  {
    if Merge(l).Some? then Merge(l).value else []
  }

  /** Items of a page, nothing for a failed one. */
  function PageItems(p: Page): seq<Item>
  {
    if p.Page? then ItemsOf(p.items) else []
  }

  /** Items of a run of pages, in page order. */
  function Concat(pages: seq<Page>): seq<Item>
  {
    if pages == [] then [] else PageItems(pages[0]) + Concat(pages[1..])
  }

  /** Pages `k .. n-1` form a finished chain: each was answered, each but the
      last handed out a truthy continuation token, and the last did not. */
  ghost predicate Chain(l: Listing, k: nat, n: nat)
  {
    && k < n <= |l.pages|
    && (forall j :: k <= j < n ==> l.pages[j].Page?)
    && (forall j :: k <= j < n - 1 ==> Continues(l.pages[j].nextToken))
    && !Continues(l.pages[n - 1].nextToken)
  }

  /** A finished chain from an answered page with a truthy continuation token
      continues as a finished chain from the next page, after that page's items. */
  lemma ChainStep(l: Listing, k: nat)
    requires k < |l.pages| && l.pages[k].Page? && Continues(l.pages[k].nextToken)
    ensures forall n: nat :: Chain(l, k, n) ==>
      Chain(l, k + 1, n) && Concat(l.pages[k..n]) == PageItems(l.pages[k]) + Concat(l.pages[k + 1..n])
  {
    forall n: nat | Chain(l, k, n)
      ensures Chain(l, k + 1, n)
      ensures Concat(l.pages[k..n]) == PageItems(l.pages[k]) + Concat(l.pages[k + 1..n])
    {
      assert l.pages[k..n][0] == l.pages[k];
      assert l.pages[k..n][1..] == l.pages[k + 1..n];
    }
  }

  /** An answered page without a truthy continuation token is a finished chain of
      its own, and the only one starting there. */
  lemma ChainEnd(l: Listing, k: nat)
    requires k < |l.pages| && l.pages[k].Page? && !Continues(l.pages[k].nextToken)
    ensures Chain(l, k, k + 1)
    ensures forall n: nat :: Chain(l, k, n) ==> Concat(l.pages[k..n]) == ItemsOf(l.pages[k].items)
  {
    var p := l.pages[k];
    assert [p][1..] == [];
    assert Concat([p]) == ItemsOf(p.items);
    forall n: nat | Chain(l, k, n)
      ensures Concat(l.pages[k..n]) == ItemsOf(p.items)
    {
      assert n == k + 1;
      assert l.pages[k..n] == [p];
    }
  }

  /** The walk from page `k` succeeds exactly when a finished chain starts
      there, and then it yields the chain's items in page order. */
  lemma {:induction false} WalkChain(l: Listing, k: nat)
    ensures Walk(l, k).Some? <==> exists n: nat :: Chain(l, k, n)
    ensures forall n: nat :: Chain(l, k, n) ==> Walk(l, k) == Some(Concat(l.pages[k..n]))
    decreases |l.pages| - k
  {
    if k < |l.pages| && l.pages[k].Page? {
      var p := l.pages[k];
      if !Continues(p.nextToken) {
        ChainEnd(l, k);
      } else {
        WalkChain(l, k + 1);
        ChainStep(l, k);
        if Walk(l, k + 1).Some? {
          var n: nat :| Chain(l, k + 1, n);
          assert Chain(l, k, n);
        }
      }
    } else {
      forall n: nat | Chain(l, k, n)
        ensures false
      {
      }
    }
  }

  /** A folder's listing succeeds exactly when its pages form a finished chain
      from the first page, and is then every page's items in page order. */
  lemma MergeChain(l: Listing)
    ensures Merge(l).Some? <==> exists n: nat :: Chain(l, 0, n)
    ensures forall n: nat :: Chain(l, 0, n) ==> Merge(l) == Some(Concat(l.pages[..n]))
  {
    WalkChain(l, 0);
    forall n: nat | Chain(l, 0, n)
      ensures l.pages[0..n] == l.pages[..n]
    {
    }
  }

  /** Number of listing requests sent when reading from page `k` on. */
  function RequestsFrom(l: Listing, k: nat): (n: nat)
    ensures 1 <= n <= |l.pages| + 1 - k || (k > |l.pages| && n == 1)
    ensures forall j :: k <= j < k + n - 1 ==> l.pages[j].Page? && Continues(l.pages[j].nextToken)
    ensures k + n - 1 >= |l.pages| || l.pages[k + n - 1].Failed? || !Continues(l.pages[k + n - 1].nextToken)
    decreases |l.pages| - k
  {
    if k >= |l.pages| || l.pages[k].Failed? || !Continues(l.pages[k].nextToken) then 1
    else 1 + RequestsFrom(l, k + 1)
  }

  /** The number of listing requests one folder listing sends: requests go on
      while each answer carries a truthy continuation token, and stop at the
      first failure or the first answer whose token is missing or empty. */
  function RequestCount(l: Listing): (n: nat)
    ensures 1 <= n <= |l.pages| + 1
    ensures forall j :: 0 <= j < n - 1 ==> l.pages[j].Page? && Continues(l.pages[j].nextToken)
    ensures n - 1 == |l.pages| || l.pages[n - 1].Failed? || !Continues(l.pages[n - 1].nextToken)
  {
    RequestsFrom(l, 0)
  }

  /** The continuation token request `j` carries: none on the first request,
      otherwise the token of the page before. */
  function TokenOf(l: Listing, j: nat): Option<string>
  {
    if j == 0 || j > |l.pages| || l.pages[j - 1].Failed? then None else l.pages[j - 1].nextToken
  }

  /** One answered page with a truthy continuation token: the walk from it succeeds
      exactly when the walk from the next page does, and adds its items first. */
  lemma WalkStep(l: Listing, k: nat)
    requires k < |l.pages| && l.pages[k].Page? && Continues(l.pages[k].nextToken)
    ensures Walk(l, k).Some? <==> Walk(l, k + 1).Some?
    ensures Walk(l, k + 1).Some? ==> Walk(l, k).value == ItemsOf(l.pages[k].items) + Walk(l, k + 1).value
    ensures RequestsFrom(l, k) == 1 + RequestsFrom(l, k + 1)
    ensures TokenOf(l, k + 1) == l.pages[k].nextToken
  {
  }

  /** `sent` is the first `|sent|` listing requests of a folder listing. */
  ghost predicate Traced(sent: seq<Request>, path: string, l: Listing)
  {
    forall j :: 0 <= j < |sent| ==> sent[j] == List(path, TokenOf(l, j))
  }

  /** `results` holds the items of the pages before `k`, and the rest of the
      listing is the walk from page `k`. */
  ghost predicate ReadUpTo(l: Listing, k: nat, results: seq<Item>)
  {
    && (Merge(l).Some? <==> Walk(l, k).Some?)
    && (Walk(l, k).Some? ==> Merge(l).value == results + Walk(l, k).value)
  }

  lemma ReadNext(l: Listing, k: nat, results: seq<Item>)
    requires ReadUpTo(l, k, results)
    requires k < |l.pages| && l.pages[k].Page? && Continues(l.pages[k].nextToken)
    ensures ReadUpTo(l, k + 1, results + ItemsOf(l.pages[k].items))
  {
    WalkStep(l, k);
    if Walk(l, k + 1).Some? {
      assert results + ItemsOf(l.pages[k].items) + Walk(l, k + 1).value
          == results + (ItemsOf(l.pages[k].items) + Walk(l, k + 1).value);
    }
  }

  lemma TraceNext(sent: seq<Request>, path: string, l: Listing)
    requires Traced(sent, path, l)
    ensures Traced(sent + [List(path, TokenOf(l, |sent|))], path, l)
  {
  }

  /** `getFiles` once authenticated: requests pages until one carries no
      truthy continuation token, concatenating their items; if any request fails the
      result is empty, never a partial list. */
  method GetFiles(path: string, l: Listing) returns (results: seq<Item>, sent: seq<Request>)
    ensures results == Listed(l)
    ensures Merge(l).None? ==> results == []
    ensures |sent| == RequestCount(l)
    ensures forall j :: 0 <= j < |sent| ==> sent[j] == List(path, TokenOf(l, j))
  {
    results := [];
    sent := [];
    var k := 0;
    var token: Option<string> := None;
    while true
      invariant 0 <= k <= |l.pages|
      invariant |sent| == k
      invariant Traced(sent, path, l)
      invariant token == TokenOf(l, k)
      invariant RequestCount(l) == k + RequestsFrom(l, k)
      invariant ReadUpTo(l, k, results)
      decreases |l.pages| - k
    {
      TraceNext(sent, path, l);
      sent := sent + [List(path, token)];
      if k >= |l.pages| || l.pages[k].Failed? {
        results := [];
        return;
      }
      var response := l.pages[k];
      if !Continues(response.nextToken) {
        results := results + ItemsOf(response.items);
        return;
      }
      ReadNext(l, k, results);
      WalkStep(l, k);
      results := results + ItemsOf(response.items);
      token := response.nextToken;
      k := k + 1;
    }
  }
}
