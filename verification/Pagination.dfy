/**
 Reading all operations of a block range page by page from a server that may answer anything. A page
 is named by a block number and an operation id; ids are unsigned 64-bit numbers.
 */
module Pagination {
  import opened Wrappers
  import Sorting

  const ID_LIMIT: nat := 0x1_0000_0000_0000_0000

  /** One operation as the server sends it; `transaction` is `None` for a missing or all-zero id. */
  datatype Item = Item(id: nat, transaction: Option<string>, index: nat, isVirtual: bool, block: nat,
                       timestamp: string, kind: string, value: string)

  /** A page; a missing continuation is `None`, and zero means the same. */
  datatype Page = Page(items: seq<Item>, nextBlock: Option<nat>, nextId: Option<nat>)

  datatype PageError = Unavailable | InvalidResponse

  /** Where to read next; the first page names no operation. */
  datatype Key = Key(block: nat, id: Option<nat>)

  /** The server: its answer may depend on how often it has been asked. */
  type Server = (nat, Key) -> Result<Page, PageError>

  /** What the response parser lets through. */
  predicate IsWellFormed(page: Page) {
    && (page.nextId.Some? ==> page.nextId.value < ID_LIMIT)
    && forall i :: 0 <= i < |page.items| ==> page.items[i].id < ID_LIMIT
  }

  /** The page to read after this one, if there is one. */
  function NextKey(page: Page, last: nat): Option<Key> {
    if page.nextBlock.None? || page.nextBlock.value == 0 || page.nextId.None? || page.nextId.value == 0
       || page.nextBlock.value > last then None
    else Some(Key(page.nextBlock.value, page.nextId))
  }

  predicate IsAcceptable(item: Item, first: nat, last: nat) {
    first <= item.block <= last && (item.isVirtual || item.transaction.Some?)
  }

  // ---- Order --------------------------------------------------------------------------------------------

  predicate Precedes(a: Item, b: Item) {
    a.block < b.block || (a.block == b.block && a.index <= b.index)
  }

  function SortItems(s: seq<Item>): seq<Item> {
    Sorting.Sort(Precedes, s)
  }

  // ---- Collecting one page ------------------------------------------------------------------------------

  predicate AreDistinct(s: seq<Item>) {
    forall i, j :: 0 <= i < j < |s| ==> s[i].id != s[j].id
  }

  /** What a reader may rely on after some pages: in range, one per id, and exactly what the pages held. */
  predicate Gathered(collected: seq<Item>, pages: seq<Page>, first: nat, last: nat) {
    && AreDistinct(collected)
    && (forall i :: 0 <= i < |collected| ==> IsAcceptable(collected[i], first, last) && InSomePage(pages, collected[i]))
    && (forall p, k :: 0 <= p < |pages| && 0 <= k < |pages[p].items| ==> pages[p].items[k] in collected)
  }

  predicate InSomePage(pages: seq<Page>, item: Item) {
    exists p :: 0 <= p < |pages| && item in pages[p].items
  }

  /** The items can be added: all within the range, and no id stands for two contents. */
  predicate Joins(collected: seq<Item>, items: seq<Item>, first: nat, last: nat) {
    && (forall k :: 0 <= k < |items| ==> IsAcceptable(items[k], first, last))
    && (forall k, c :: 0 <= k < |items| && c in collected && c.id == items[k].id ==> c == items[k])
    && (forall j, k :: 0 <= j < k < |items| && items[j].id == items[k].id ==> items[j] == items[k])
  }

  /** Adds the items of a page; an item outside the range, or one id with two contents, is refused. */
  method CollectPage(collected: seq<Item>, page: Page, first: nat, last: nat, ghost pages: seq<Page>)
    returns (r: Result<seq<Item>, PageError>)
    requires Gathered(collected, pages, first, last)
    ensures r.Success? ==> Gathered(r.value, pages + [page], first, last)
    ensures r.Failure? ==> r.error == InvalidResponse
    ensures r.Success? <==> Joins(collected, page.items, first, last)
  {
    var all := collected;
    var i := 0;
    assert page.items[..0] == [];
    while i < |page.items|
      invariant i <= |page.items| && AreDistinct(all) && Joins(collected, page.items[..i], first, last)
      invariant forall c :: c in all <==> c in collected || c in page.items[..i]
    {
      var item := page.items[i];
      assert page.items[..i + 1] == page.items[..i] + [item];
      if item.block < first || item.block > last || (!item.isVirtual && item.transaction.None?) {
        assert !IsAcceptable(page.items[i], first, last);
        return Failure(InvalidResponse);
      }
      var previous := FindId(all, item.id);
      if previous.Some? && previous.value != item {
        Conflicts(collected, page.items, i, previous.value, first, last);
        return Failure(InvalidResponse);
      }
      OneMoreJoins(collected, all, page.items[..i], item, previous, first, last);
      if previous.None? {
        all := all + [item];
      }
      i := i + 1;
    }
    assert page.items[..i] == page.items;
    PageGathered(collected, all, pages, page, first, last);
    return Success(all);
  }

  /** An acceptable item whose id is new, or known with the same content, can be added. */
  lemma OneMoreJoins(collected: seq<Item>, all: seq<Item>, items: seq<Item>, item: Item, previous: Option<Item>,
                     first: nat, last: nat)
    requires AreDistinct(all) && Joins(collected, items, first, last) && IsAcceptable(item, first, last)
    requires forall c :: c in all <==> c in collected || c in items
    requires previous.Some? ==> previous.value in all && previous.value == item
    requires previous.None? ==> forall k :: 0 <= k < |all| ==> all[k].id != item.id
    ensures Joins(collected, items + [item], first, last)
    ensures previous.None? ==> AreDistinct(all + [item])
  {
    forall c | c in all && c.id == item.id ensures c == item {
      var k :| 0 <= k < |all| && all[k] == c;
      if previous.Some? {
        NoOther(all, item);
      }
    }
    forall j | 0 <= j < |items| && items[j].id == item.id ensures items[j] == item {
      assert items[j] in items;
      assert items[j] in all;
    }
    forall c | c in collected && c.id == item.id ensures c == item {
      assert c in all;
    }
  }

  method FindId(items: seq<Item>, id: nat) returns (found: Option<Item>)
    ensures found.Some? ==> found.value in items && found.value.id == id
    ensures found.None? ==> forall k :: 0 <= k < |items| ==> items[k].id != id
  {
    var i := 0;
    while i < |items|
      invariant i <= |items| && forall k :: 0 <= k < i ==> items[k].id != id
    {
      if items[i].id == id {
        return Some(items[i]);
      }
      i := i + 1;
    }
    return None;
  }

  lemma NoOther(all: seq<Item>, item: Item)
    requires AreDistinct(all) && item in all
    ensures forall c :: c in all && c.id == item.id ==> c == item
  {
    var i :| 0 <= i < |all| && all[i] == item;
    forall c | c in all && c.id == item.id ensures c == item {
      var j :| 0 <= j < |all| && all[j] == c;
      assert i == j;
    }
  }

  /** An id that was seen with another content keeps the page from being added. */
  lemma Conflicts(collected: seq<Item>, items: seq<Item>, i: nat, previous: Item, first: nat, last: nat)
    requires i < |items| && previous.id == items[i].id && previous != items[i]
    requires previous in collected || previous in items[..i]
    ensures !Joins(collected, items, first, last)
  {
    if previous in items[..i] {
      var j :| 0 <= j < i && items[..i][j] == previous;
      assert items[j] == previous;
    }
  }

  lemma PageGathered(collected: seq<Item>, all: seq<Item>, pages: seq<Page>, page: Page, first: nat, last: nat)
    requires Gathered(collected, pages, first, last) && AreDistinct(all)
    requires forall c :: c in all <==> c in collected || c in page.items
    requires forall k :: 0 <= k < |page.items| ==> IsAcceptable(page.items[k], first, last)
    ensures Gathered(all, pages + [page], first, last)
  {
    var more := pages + [page];
    forall i | 0 <= i < |all| ensures IsAcceptable(all[i], first, last) && InSomePage(more, all[i]) {
      assert all[i] in all;
      if all[i] in collected {
        var k :| 0 <= k < |collected| && collected[k] == all[i];
        assert InSomePage(pages, all[i]);
        var p :| 0 <= p < |pages| && all[i] in pages[p].items;
        assert all[i] in more[p].items;
      } else {
        assert all[i] in more[|pages|].items;
      }
    }
    forall p, k | 0 <= p < |more| && 0 <= k < |more[p].items| ensures more[p].items[k] in all {
      if p < |pages| {
        assert pages[p].items[k] in collected;
      } else {
        assert page.items[k] in page.items;
      }
    }
  }

  // ---- Walking the pages --------------------------------------------------------------------------------

  /** Every key a walk can visit. */
  ghost function AllKeys(first: nat, last: nat): set<Key> {
    {Key(first, None)} + set b: nat, i: nat | b <= last && i < ID_LIMIT :: Key(b, Some(i))
  }

  /** The pages are the server's answers along one walk: it starts at the first key and follows the continuations. */
  predicate IsWalk(server: Server, at: nat, first: nat, last: nat, keys: seq<Key>, pages: seq<Page>) {
    && |keys| == |pages|
    && (keys != [] ==> keys[0] == Key(first, None))
    && (forall k :: 0 <= k < |pages| ==> server(at + k, keys[k]) == Success(pages[k]) && IsWellFormed(pages[k]))
    && (forall k, m :: 0 <= k < |keys| && m == k + 1 && m < |keys| ==> NextKey(pages[k], last) == Some(keys[m]))
  }

  /** The walk has reached a page without continuation. */
  predicate IsComplete(pages: seq<Page>, last: nat) {
    pages != [] && NextKey(pages[|pages| - 1], last).None?
  }

  predicate Unlike(a: Item, b: Item) {
    a.id != b.id
  }

  /** Sorting changes neither what was gathered nor that ids are unique. */
  lemma SortedIsGathered(items: seq<Item>, pages: seq<Page>, first: nat, last: nat)
    requires Gathered(items, pages, first, last)
    ensures Gathered(SortItems(items), pages, first, last)
  {
    var s := SortItems(items);
    Sorting.SortPermutes(Precedes, items);
    assert Sorting.PairsOf(Unlike, items);
    Sorting.PairsPermute(Unlike, items, s);
    forall i, j | 0 <= i < j < |s| ensures s[i].id != s[j].id {
      assert Unlike(s[i], s[j]);
    }
    forall i | 0 <= i < |s| ensures IsAcceptable(s[i], first, last) && InSomePage(pages, s[i]) {
      assert s[i] in items;
      var k :| 0 <= k < |items| && items[k] == s[i];
    }
  }

  predicate AreNew(keys: seq<Key>) {
    forall i, j :: 0 <= i < j < |keys| ==> keys[i] != keys[j]
  }

  /** Where a walk stands: the pages read so far, what they held, and the key to read next. */
  ghost predicate Stands(server: Server, at: nat, first: nat, last: nat, keys: seq<Key>, pages: seq<Page>,
                         operations: seq<Item>, key: Key)
  {
    && IsWalk(server, at, first, last, keys, pages) && AreNew(keys) && Gathered(operations, pages, first, last)
    && (if keys == [] then key == Key(first, None) else NextKey(pages[|pages| - 1], last) == Some(key))
  }

  lemma WalkGrows(server: Server, at: nat, first: nat, last: nat, keys: seq<Key>, pages: seq<Page>, key: Key,
                  page: Page)
    requires IsWalk(server, at, first, last, keys, pages)
    requires if keys == [] then key == Key(first, None) else NextKey(pages[|pages| - 1], last) == Some(key)
    requires server(at + |keys|, key) == Success(page) && IsWellFormed(page)
    ensures IsWalk(server, at, first, last, keys + [key], pages + [page])
  {
  }

  lemma KeysStayNew(keys: seq<Key>, key: Key)
    requires AreNew(keys) && key !in keys
    ensures AreNew(keys + [key])
  {
  }

  lemma NextIsAKey(page: Page, first: nat, last: nat)
    requires IsWellFormed(page) && NextKey(page, last).Some?
    ensures NextKey(page, last).value in AllKeys(first, last)
  {
  }

  // ---- When it succeeds ---------------------------------------------------------------------------------

  /** Over all pages, no id stands for two contents. */
  predicate AreConsistent(pages: seq<Page>, first: nat, last: nat) {
    forall p :: 0 <= p < |pages| ==> FitsOthers(pages, p, first, last)
  }

  predicate FitsOthers(pages: seq<Page>, p: nat, first: nat, last: nat)
    requires p < |pages|
  {
    && (forall k :: 0 <= k < |pages[p].items| ==> IsAcceptable(pages[p].items[k], first, last))
    && (forall q, x, y :: 0 <= q < |pages| && x in pages[p].items && y in pages[q].items && x.id == y.id ==> x == y)
  }

  /** A complete walk without a repeated key whose pages agree with each other. */
  ghost predicate IsGoodWalk(server: Server, at: nat, first: nat, last: nat, keys: seq<Key>, pages: seq<Page>) {
    && IsWalk(server, at, first, last, keys, pages) && AreNew(keys) && IsComplete(pages, last)
    && AreConsistent(pages, first, last)
  }

  /** The server determines the walk: any other one that has not gone past its end begins it. */
  lemma {:induction false} WalksAgree(server: Server, at: nat, first: nat, last: nat, keys: seq<Key>, pages: seq<Page>,
                                      more: seq<Key>, morePages: seq<Page>, n: nat)
    requires IsWalk(server, at, first, last, keys, pages) && IsWalk(server, at, first, last, more, morePages)
    requires n <= |keys| && n <= |more|
    ensures keys[..n] == more[..n] && pages[..n] == morePages[..n]
  {
    if n > 0 {
      var m := n - 1;
      WalksAgree(server, at, first, last, keys, pages, more, morePages, m);
      if m > 0 {
        assert pages[m - 1] == pages[..m][m - 1] == morePages[..m][m - 1] == morePages[m - 1];
        assert NextKey(pages[m - 1], last) == Some(keys[m]) && NextKey(morePages[m - 1], last) == Some(more[m]);
      }
      assert keys[m] == more[m];
      assert server(at + m, keys[m]) == Success(pages[m]) && server(at + m, more[m]) == Success(morePages[m]);
      assert keys[..n] == keys[..m] + [keys[m]] && more[..n] == more[..m] + [more[m]];
      assert pages[..n] == pages[..m] + [pages[m]] && morePages[..n] == morePages[..m] + [morePages[m]];
    }
  }

  /** Every page read so far has a continuation, if there is a key to read next. */
  lemma PagesContinue(server: Server, at: nat, first: nat, last: nat, keys: seq<Key>, pages: seq<Page>, key: Key)
    requires IsWalk(server, at, first, last, keys, pages)
    requires if keys == [] then key == Key(first, None) else NextKey(pages[|pages| - 1], last) == Some(key)
    ensures forall k :: 0 <= k < |pages| ==> NextKey(pages[k], last).Some?
  {
    forall k | 0 <= k < |pages| ensures NextKey(pages[k], last).Some? {
      if k + 1 < |keys| {
        assert NextKey(pages[k], last) == Some(keys[k + 1]);
      }
    }
  }

  /** A walk that still has a key to read lies strictly inside a complete one. */
  lemma InsideGoodWalk(server: Server, at: nat, first: nat, last: nat, keys: seq<Key>, pages: seq<Page>, key: Key,
                       more: seq<Key>, morePages: seq<Page>)
    requires IsWalk(server, at, first, last, keys, pages)
    requires if keys == [] then key == Key(first, None) else NextKey(pages[|pages| - 1], last) == Some(key)
    requires IsWalk(server, at, first, last, more, morePages) && IsComplete(morePages, last)
    ensures |keys| < |more| && more[|keys|] == key
    ensures keys == more[..|keys|] && pages == morePages[..|keys|]
  {
    var n := if |keys| <= |more| then |keys| else |more|;
    WalksAgree(server, at, first, last, keys, pages, more, morePages, n);
    assert n > 0 ==> pages[..n][n - 1] == pages[n - 1] && morePages[..n][n - 1] == morePages[n - 1];
    PagesContinue(server, at, first, last, keys, pages, key);
    assert |keys| < |more|;
    assert keys == keys[..n] && pages == pages[..n];
    if n > 0 {
      assert pages[n - 1] == morePages[..n][n - 1];
      assert NextKey(morePages[n - 1], last) == Some(more[n]);
    }
  }

  /** The next page of a good walk can be added to what was gathered before it. */
  lemma GoodPageJoins(pages: seq<Page>, n: nat, gathered: seq<Item>, first: nat, last: nat)
    requires AreConsistent(pages, first, last) && n < |pages| && Gathered(gathered, pages[..n], first, last)
    ensures Joins(gathered, pages[n].items, first, last)
  {
    var items := pages[n].items;
    assert FitsOthers(pages, n, first, last);
    forall k, c | 0 <= k < |items| && c in gathered && c.id == items[k].id ensures c == items[k] {
      var i :| 0 <= i < |gathered| && gathered[i] == c;
      assert InSomePage(pages[..n], gathered[i]);
      var q :| 0 <= q < n && c in pages[..n][q].items;
      assert c in pages[q].items && items[k] in items;
    }
    forall j, k | 0 <= j < k < |items| && items[j].id == items[k].id ensures items[j] == items[k] {
      assert items[j] in items && items[k] in items;
    }
  }

  /** Where a good walk is possible, the page to read next is new, answered, well formed and can be added. */
  ghost predicate CannotFail(server: Server, at: nat, first: nat, last: nat, keys: seq<Key>, operations: seq<Item>,
                             key: Key)
  {
    && key !in keys && server(at + |keys|, key).Success? && IsWellFormed(server(at + |keys|, key).value)
    && Joins(operations, server(at + |keys|, key).value.items, first, last)
  }

  ghost predicate GoodWalkExists(server: Server, at: nat, first: nat, last: nat) {
    exists keys, pages :: IsGoodWalk(server, at, first, last, keys, pages)
  }

  lemma GoodWalkGoesOn(server: Server, at: nat, first: nat, last: nat, keys: seq<Key>, pages: seq<Page>,
                       operations: seq<Item>, key: Key)
    requires GoodWalkExists(server, at, first, last)
    requires Stands(server, at, first, last, keys, pages, operations, key)
    ensures CannotFail(server, at, first, last, keys, operations, key)
  {
    var more, morePages :| IsGoodWalk(server, at, first, last, more, morePages);
    InsideGoodWalk(server, at, first, last, keys, pages, key, more, morePages);
    var n := |keys|;
    assert server(at + n, more[n]) == Success(morePages[n]) && IsWellFormed(morePages[n]);
    GoodPageJoins(morePages, n, operations, first, last);
    assert forall i :: 0 <= i < n ==> more[..n][i] == more[i] != more[n];
  }

  /** Reads one page after the other; no page is read twice. */
  method WalkPages(server: Server, at: nat, first: nat, last: nat)
    returns (r: Result<seq<Item>, PageError>, ghost keys: seq<Key>, ghost pages: seq<Page>)
    ensures r.Success? ==>
              && IsWalk(server, at, first, last, keys, pages) && AreNew(keys) && IsComplete(pages, last)
              && Gathered(r.value, pages, first, last)
    ensures GoodWalkExists(server, at, first, last) ==> r.Success?
  {
    keys, pages := [], [];
    var operations: seq<Item> := [];
    var visited: set<Key> := {};
    var key := Key(first, None);
    var asked := at;
    while true
      invariant visited <= AllKeys(first, last) && key in AllKeys(first, last)
      invariant visited == set k | k in keys
      invariant asked == at + |keys| && Stands(server, at, first, last, keys, pages, operations, key)
      decreases AllKeys(first, last) - visited
    {
      if GoodWalkExists(server, at, first, last) {
        GoodWalkGoesOn(server, at, first, last, keys, pages, operations, key);
      }
      if key in visited {
        return Failure(InvalidResponse), keys, pages;
      }
      var answer := server(asked, key);
      if answer.Failure? || !IsWellFormed(answer.value) {
        return Failure(if answer.Failure? then answer.error else InvalidResponse), keys, pages;
      }
      var page := answer.value;
      r := CollectPage(operations, page, first, last, pages);
      if r.Failure? {
        return;
      }
      WalkGrows(server, at, first, last, keys, pages, key, page);
      KeysStayNew(keys, key);
      visited := visited + {key};
      keys, pages := keys + [key], pages + [page];
      operations := r.value;
      var next := NextKey(page, last);
      if next.None? {
        return;
      }
      NextIsAKey(page, first, last);
      key := next.value;
      asked := asked + 1;
    }
  }

  /**
   Reads all pages. It ends for every server, because no page is read twice and there are finitely
   many; on success it returns exactly the items of the pages of one complete walk, each id once, all
   within the range, in the order of block and index.
   */
  method GetOperations(server: Server, at: nat, first: nat, last: nat)
    returns (r: Result<seq<Item>, PageError>, ghost keys: seq<Key>, ghost pages: seq<Page>)
    ensures last < first ==> r == Failure(InvalidResponse)
    ensures r.Success? ==>
              && IsWalk(server, at, first, last, keys, pages) && AreNew(keys) && IsComplete(pages, last)
              && Gathered(r.value, pages, first, last) && Sorting.SortedBy(Precedes, r.value)
    ensures first <= last && GoodWalkExists(server, at, first, last) ==> r.Success?
  {
    if last < first {
      return Failure(InvalidResponse), [], [];
    }
    r, keys, pages := WalkPages(server, at, first, last);
    if r.Success? {
      Sorting.SortSorts(Precedes, r.value);
      SortedIsGathered(r.value, pages, first, last);
      r := Success(SortItems(r.value));
    }
  }
}
