/** Cursor pagination: one page, and what following the cursors to the end yields. */
module Paging {
  import opened Wrappers

  datatype Page<+T, +C> = Page(items: seq<T>, nextCursor: Option<C>)

  /** The cursors visited from `chain[0]` on: each advances to the next, and the last to none. */
  ghost predicate Chain<C>(advance: C -> Option<C>, chain: seq<C>) {
    && chain != []
    && (forall i :: 0 <= i < |chain| - 1 ==> advance(chain[i]) == Some(chain[i + 1]))
    && advance(chain[|chain| - 1]) == None
  }

  /** `limit.clamp(1, max_page_size)`, which demands a page size of at least one. */
  function Clamp(limit: u32, maxPageSize: u32): u32
    requires maxPageSize >= 1
  {
    if limit < 1 then 1 else Min(limit, maxPageSize)
  }

  /** All items at the cursors of `chain`, in order. */
  ghost function Scan<T, C>(fetch: C -> Option<T>, chain: seq<C>): seq<T> {
    if chain == [] then [] else Fetched(fetch, chain[0]) + Scan(fetch, chain[1..])
  }

  function Fetched<T, C>(fetch: C -> Option<T>, cursor: C): seq<T> {
    match fetch(cursor)
    case None => []
    case Some(item) => [item]
  }

  /** How many cursors of `chain` a page with room for `cap` items visits. */
  ghost function Visited<T, C>(fetch: C -> Option<T>, chain: seq<C>, cap: nat): (n: nat)
    ensures n <= |chain|
    ensures cap > 0 && chain != [] ==> n > 0
  {
    if chain == [] || cap == 0 then
      0
    else
      1 + Visited(fetch, chain[1..], cap - |Fetched(fetch, chain[0])|)
  }

  /** The items at the visited cursors, and the first cursor not visited. */
  ghost function PageOf<T, C>(fetch: C -> Option<T>, chain: seq<C>, cap: nat): Page<T, C> {
    var n := Visited(fetch, chain, cap);
    Page(Scan(fetch, chain[..n]), if n < |chain| then Some(chain[n]) else None)
  }

  lemma {:induction false} ScanAppend<T, C>(fetch: C -> Option<T>, a: seq<C>, b: seq<C>)
    ensures Scan(fetch, a + b) == Scan(fetch, a) + Scan(fetch, b)
  {
    if a == [] {
      assert a + b == b;
    } else {
      ScanAppend(fetch, a[1..], b);
      assert (a + b)[1..] == a[1..] + b;
    }
  }

  /** Visiting `k` cursors leaves room for as many items fewer as were found. */
  lemma {:induction false} VisitedSplits<T, C>(fetch: C -> Option<T>, chain: seq<C>, cap: nat, k: nat)
    requires k <= |chain| && |Scan(fetch, chain[..k])| <= cap
    requires k > 0 ==> |Scan(fetch, chain[..k - 1])| < cap
    ensures Visited(fetch, chain, cap) == k + Visited(fetch, chain[k..], cap - |Scan(fetch, chain[..k])|)
  {
    if k == 0 {
      assert chain[0..] == chain;
    } else {
      var rest, room := chain[1..], cap - |Fetched(fetch, chain[0])|;
      assert chain[..k] == [chain[0]] + rest[..k - 1] && chain[k..] == rest[k - 1..];
      ScanAppend(fetch, [chain[0]], rest[..k - 1]);
      assert Scan(fetch, [chain[0]]) == Fetched(fetch, chain[0]);
      if k > 1 {
        assert chain[..k - 1] == [chain[0]] + rest[..k - 2];
        ScanAppend(fetch, [chain[0]], rest[..k - 2]);
      }
      VisitedSplits(fetch, rest, room, k - 1);
    }
  }

  /** One page. `chain` is the finite sequence of cursors that `advance` yields from `cursor`. */
  method Paginate<T, C>(cursor: C, limit: u32, maxPageSize: u32, advance: C -> Option<C>, fetch: C -> Option<T>,
                        ghost chain: seq<C>)
    returns (page: Page<T, C>)
    requires maxPageSize >= 1
    requires Chain(advance, chain) && chain[0] == cursor
    ensures page == PageOf(fetch, chain, Clamp(limit, maxPageSize))
  {
    var capped := Clamp(limit, maxPageSize);
    var items: seq<T> := [];
    var current := Some(cursor);
    var nextCursor: Option<C> := None;
    ghost var k := 0;
    while current.Some?
      invariant 0 <= k <= |chain|
      invariant current == if k < |chain| then Some(chain[k]) else None
      invariant items == Scan(fetch, chain[..k]) && |items| <= capped
      invariant k > 0 ==> |Scan(fetch, chain[..k - 1])| < capped
      invariant nextCursor == None
      decreases |chain| - k
    {
      var c := current.value;
      if |items| >= capped {
        nextCursor := Some(c);
        break;
      }
      assert chain[..k + 1] == chain[..k] + [c];
      ScanAppend(fetch, chain[..k], [c]);
      assert Scan(fetch, [c]) == Fetched(fetch, c);
      if fetch(c).Some? {
        items := items + [fetch(c).value];
      }
      current := advance(c);
      assert chain[..k + 1 - 1] == chain[..k];
      k := k + 1;
    }
    VisitedSplits(fetch, chain, capped, k);
    return Page(items, nextCursor);
  }

  // ----- following the cursors

  /** The chain of the next page. */
  ghost function Rest<T, C>(fetch: C -> Option<T>, chain: seq<C>, cap: nat): seq<C> {
    chain[Visited(fetch, chain, cap)..]
  }

  /** All pages, each started at the cursor that the one before returned. */
  ghost function Pages<T, C>(fetch: C -> Option<T>, chain: seq<C>, cap: nat): seq<Page<T, C>>
    requires cap > 0
    decreases |chain|
  {
    if chain == [] then [] else [PageOf(fetch, chain, cap)] + Pages(fetch, Rest(fetch, chain, cap), cap)
  }

  ghost function Items<T, C>(pages: seq<Page<T, C>>): seq<T> {
    if pages == [] then [] else pages[0].items + Items(pages[1..])
  }

  lemma {:induction false} PageSize<T, C>(fetch: C -> Option<T>, chain: seq<C>, cap: nat)
    ensures |PageOf(fetch, chain, cap).items| <= cap
    ensures PageOf(fetch, chain, cap).nextCursor.Some? ==> |PageOf(fetch, chain, cap).items| == cap
  {
    if chain != [] && cap > 0 {
      var rest, room := chain[1..], cap - |Fetched(fetch, chain[0])|;
      var n := Visited(fetch, rest, room);
      PageSize(fetch, rest, room);
      assert chain[..n + 1] == [chain[0]] + rest[..n];
      ScanAppend(fetch, [chain[0]], rest[..n]);
      assert Scan(fetch, [chain[0]]) == Fetched(fetch, chain[0]);
    }
  }

  /** A page holds as many items as there are, up to the cap. */
  lemma {:induction false} PageHoldsExactly<T, C>(fetch: C -> Option<T>, chain: seq<C>, cap: nat)
    ensures |PageOf(fetch, chain, cap).items| == Min(cap, |Scan(fetch, chain)|)
    ensures PageOf(fetch, chain, cap).items <= Scan(fetch, chain)
  {
    var n := Visited(fetch, chain, cap);
    PageSize(fetch, chain, cap);
    assert chain == chain[..n] + chain[n..];
    ScanAppend(fetch, chain[..n], chain[n..]);
    if n == |chain| {
      assert chain[n..] == [];
    }
  }

  /** The cap is the limit asked for, but at least one and at most the page size: a page holds exactly that many items
      or all there are. */
  lemma PageForLimit<T, C>(fetch: C -> Option<T>, chain: seq<C>, limit: u32, maxPageSize: u32)
    requires maxPageSize >= 1
    ensures var held, found := |PageOf(fetch, chain, Clamp(limit, maxPageSize)).items|, |Scan(fetch, chain)|;
            && (limit == 0 ==> held == if found == 0 then 0 else 1)
            && (1 <= limit <= maxPageSize ==> held == if found <= limit then found else limit)
            && (limit > maxPageSize ==> held == if found <= maxPageSize then found else maxPageSize)
  {
    PageHoldsExactly(fetch, chain, Clamp(limit, maxPageSize));
  }

  /** The returned cursor is the head of what is left, which is again a chain: nothing is skipped or repeated. */
  lemma NextPageContinues<T, C>(advance: C -> Option<C>, fetch: C -> Option<T>, chain: seq<C>, cap: nat)
    requires Chain(advance, chain) && cap > 0
    ensures var rest := Rest(fetch, chain, cap);
            && chain == chain[..Visited(fetch, chain, cap)] + rest
            && |rest| < |chain|
            && (PageOf(fetch, chain, cap).nextCursor == None <==> rest == [])
            && (rest != [] ==> Chain(advance, rest) && PageOf(fetch, chain, cap).nextCursor == Some(rest[0]))
  {
  }

  /** Following `next_cursor` until there is none yields every item of the scan once and in order; no page is larger
      than the clamped limit, and every page but the last is full. */
  lemma {:induction false} PagesAreTheScan<T, C>(advance: C -> Option<C>, fetch: C -> Option<T>, chain: seq<C>,
                                                 cap: nat)
    requires Chain(advance, chain) && cap > 0
    ensures Items(Pages(fetch, chain, cap)) == Scan(fetch, chain)
    ensures var pages := Pages(fetch, chain, cap);
            && pages != []
            && (forall i :: 0 <= i < |pages| - 1 ==> |pages[i].items| == cap && pages[i].nextCursor.Some?)
            && |pages[|pages| - 1].items| <= cap && pages[|pages| - 1].nextCursor == None
    decreases |chain|
  {
    var rest, n := Rest(fetch, chain, cap), Visited(fetch, chain, cap);
    PageSize(fetch, chain, cap);
    NextPageContinues(advance, fetch, chain, cap);
    ScanAppend(fetch, chain[..n], rest);
    var later := Pages(fetch, rest, cap);
    assert Pages(fetch, chain, cap) == [PageOf(fetch, chain, cap)] + later;
    assert Pages(fetch, chain, cap)[1..] == later;
    if rest != [] {
      PagesAreTheScan(advance, fetch, rest, cap);
    }
  }
}
