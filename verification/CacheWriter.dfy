/** The writer's work on one cache: sort it, then write it to pages, starting new ones as they fill. */
module CacheWriter {
  import opened Measurements
  import opened PageLayout
  import opened PageAppend
  import opened Entries
  import opened Bloom
  import opened Caches
  import WriteWindow

  // ---- pages as the sequences of measurements in them; the last one is being written ----

  function Flatten(pages: seq<seq<Meas>>): seq<Meas> {
    if pages == [] then [] else Flatten(pages[..|pages| - 1]) + pages[|pages| - 1]
  }

  predicate Writable(pages: seq<seq<Meas>>, capacity: nat) {
    pages != [] && |pages[|pages| - 1]| <= capacity
  }

  /** How much of `todo` the page being written takes. */
  function Taken(pages: seq<seq<Meas>>, todo: seq<Meas>, capacity: nat): (k: nat)
    requires Writable(pages, capacity)
    ensures k <= |todo|
  {
    Min(capacity - |pages[|pages| - 1]|, |todo|)
  }

  /** The pages after one round: the last one extended, and a new one if not all was taken. */
  function PagesAfter(pages: seq<seq<Meas>>, todo: seq<Meas>, capacity: nat): (r: seq<seq<Meas>>)
    requires Writable(pages, capacity)
    ensures Writable(r, capacity)
  {
    var k := Taken(pages, todo, capacity);
    var last := |pages| - 1;
    pages[..last] + [pages[last] + todo[..k]] + if k == |todo| then [] else [[]]
  }

  lemma {:induction false} FlattenPush(pages: seq<seq<Meas>>, page: seq<Meas>)
    ensures Flatten(pages + [page]) == Flatten(pages) + page
  {
    assert (pages + [page])[..|pages|] == pages;
  }

  /** A round moves measurements from the work list to the pages and loses none, in order. */
  lemma {:induction false} RoundConserves(pages: seq<seq<Meas>>, todo: seq<Meas>, capacity: nat)
    requires Writable(pages, capacity)
    ensures Flatten(PagesAfter(pages, todo, capacity)) + todo[Taken(pages, todo, capacity)..] == Flatten(pages) + todo
  {
    var k := Taken(pages, todo, capacity);
    var last := |pages| - 1;
    var before, page := pages[..last], pages[last] + todo[..k];
    assert pages == before + [pages[last]];
    FlattenPush(before, pages[last]);
    FlattenPush(before, page);
    FlattenPush(before + [page], []);
    assert todo == todo[..k] + todo[k..];
    assert k == |todo| ==> PagesAfter(pages, todo, capacity) == before + [page];
  }

  // ---- how full the pages are ----

  ghost predicate AllFull(pages: seq<seq<Meas>>, capacity: nat) {
    forall i :: 0 <= i < |pages| ==> |pages[i]| == capacity
  }

  /** Every page but the last one is full. */
  ghost predicate FullBefore(pages: seq<seq<Meas>>, capacity: nat) {
    pages != [] && AllFull(pages[..|pages| - 1], capacity)
  }

  /** ... and the last one is not over-full, and empty only if it is the only one. */
  ghost predicate Packed(pages: seq<seq<Meas>>, capacity: nat) {
    Writable(pages, capacity) && FullBefore(pages, capacity) && (|pages| > 1 ==> pages[|pages| - 1] != [])
  }

  /** A round starts a new page only when the one before is full and there is something left for it. */
  lemma {:induction false} RoundFills(pages: seq<seq<Meas>>, todo: seq<Meas>, capacity: nat)
    requires Writable(pages, capacity) && FullBefore(pages, capacity)
    ensures FullBefore(PagesAfter(pages, todo, capacity), capacity)
    ensures Taken(pages, todo, capacity) == |todo| && (todo != [] || Packed(pages, capacity)) ==>
              Packed(PagesAfter(pages, todo, capacity), capacity)
  {
    var k, last := Taken(pages, todo, capacity), |pages| - 1;
    var before, page := pages[..last], pages[last] + todo[..k];
    if k == |todo| {
      assert PagesAfter(pages, todo, capacity) == before + [page];
      assert (before + [page])[..last] == before;
    } else {
      assert (before + [page] + [[]])[..last + 1] == before + [page];
    }
  }

  lemma {:induction false} FlattenFirst(pages: seq<seq<Meas>>)
    requires pages != []
    ensures Flatten(pages) == pages[0] + Flatten(pages[1..])
  {
    if |pages| == 1 {
      assert pages[..0] == [] && pages[1..] == [];
    } else {
      var last := |pages| - 1;
      FlattenFirst(pages[..last]);
      assert pages[1..][..last - 1] == pages[..last][1..];
    }
  }

  lemma {:induction false} MoreThanOnePage(pages: seq<seq<Meas>>, capacity: nat)
    requires Packed(pages, capacity) && |pages| > 1
    ensures |Flatten(pages)| > capacity && |pages[0]| == capacity && Packed(pages[1..], capacity)
  {
    FlattenFirst(pages);
    var rest, last := pages[1..], |pages| - 1;
    assert pages[..last][0] == pages[0];
    assert rest[..last - 1] == pages[..last][1..];
  }

  /** What was written determines the pages: there is one way to cut it into full pages and a rest. */
  lemma {:induction false} PackedUnique(a: seq<seq<Meas>>, b: seq<seq<Meas>>, capacity: nat)
    requires Packed(a, capacity) && Packed(b, capacity) && Flatten(a) == Flatten(b)
    ensures a == b
  {
    FlattenFirst(a);
    FlattenFirst(b);
    if |a| > 1 {
      MoreThanOnePage(a, capacity);
    }
    if |b| > 1 {
      MoreThanOnePage(b, capacity);
    }
    if |a| == 1 {
      assert a == [a[0]] && b == [b[0]];
      SameHead(a[0], b[0], Flatten(a[1..]), Flatten(b[1..]));
    } else {
      assert |b| > 1;
      SameHead(a[0], b[0], Flatten(a[1..]), Flatten(b[1..]));
      PackedUnique(a[1..], b[1..], capacity);
      assert a == [a[0]] + a[1..] && b == [b[0]] + b[1..];
    }
  }

  lemma SameHead(x: seq<Meas>, y: seq<Meas>, s: seq<Meas>, t: seq<Meas>)
    requires |x| == |y| && x + s == y + t
    ensures x == y && s == t
  {
    assert x == (x + s)[..|x|] && y == (y + t)[..|y|];
    assert s == (x + s)[|x|..] && t == (y + t)[|y|..];
  }

  // ---- the rounds of the write loop ----

  /** What is left to write after `k` rounds. */
  function LeftAfter(pages: seq<seq<Meas>>, todo: seq<Meas>, capacity: nat, k: nat): (left: seq<Meas>)
    requires Writable(pages, capacity)
    decreases k
  {
    if k == 0 then todo
    else LeftAfter(PagesAfter(pages, todo, capacity), todo[Taken(pages, todo, capacity)..], capacity, k - 1)
  }

  /** On pages with room for one measurement some number of rounds writes all: every second one makes progress. */
  lemma {:induction false} RoundsFinish(pages: seq<seq<Meas>>, todo: seq<Meas>, capacity: nat) returns (k: nat)
    requires Writable(pages, capacity) && capacity >= 1
    ensures LeftAfter(pages, todo, capacity, k) == []
    decreases |todo|, if |pages[|pages| - 1]| == capacity then 1 else 0
  {
    if todo == [] {
      k := 0;
    } else {
      var rest := todo[Taken(pages, todo, capacity)..];
      if rest == [] {
        k := 1;
        assert LeftAfter(PagesAfter(pages, todo, capacity), rest, capacity, 0) == [];
      } else {
        k := RoundsFinish(PagesAfter(pages, todo, capacity), rest, capacity);
        k := k + 1;
      }
    }
  }

  /** On pages without room no round writes anything. */
  lemma {:induction false} RoundsStuck(pages: seq<seq<Meas>>, todo: seq<Meas>, k: nat)
    requires Writable(pages, 0)
    ensures LeftAfter(pages, todo, 0, k) == todo
    decreases k
  {
    if k > 0 {
      assert todo[Taken(pages, todo, 0)..] == todo;
      RoundsStuck(PagesAfter(pages, todo, 0), todo, k - 1);
    }
  }

  /** The write loop ends if and only if a page has room for one measurement or there is nothing to write. */
  lemma {:induction false} LoopEndsIff(pages: seq<seq<Meas>>, todo: seq<Meas>, capacity: nat)
    requires Writable(pages, capacity)
    ensures (exists k: nat :: LeftAfter(pages, todo, capacity, k) == []) <==> capacity >= 1 || todo == []
  {
    if capacity >= 1 {
      var k := RoundsFinish(pages, todo, capacity);
    } else if exists k: nat :: LeftAfter(pages, todo, capacity, k) == [] {
      var k: nat :| LeftAfter(pages, todo, capacity, k) == [];
      RoundsStuck(pages, todo, k);
    } else {
      assert LeftAfter(pages, todo, capacity, 0) == todo;
    }
  }

  // ---- a closed page ----

  /** What is left of a page once it is closed: its bytes, header fields, window and index. */
  datatype PageFile = PageFile(bytes: seq<Byte>, writePos: nat, writeValuePos: nat, times: MinMax, filters: Filters,
                               window: seq<Meas>, index: seq<IndexRecord>)

  /** The file holds exactly `ms`, and its header and index describe them. */
  ghost predicate FileHolds(f: PageFile, ms: seq<Meas>) {
    && GoodSize(|f.bytes|) && f.writePos == |ms| <= Capacity(|f.bytes|)
    && AllStored(f.bytes, ms) && Fed(f.filters, ms)
    && Tiles(f.index, |ms|) && Bounds(f.times, ms) && AllSpan(f.index, ms)
  }

  ghost predicate AllHold(files: seq<PageFile>, closed: seq<seq<Meas>>) {
    && |files| == |closed|
    && forall i {:trigger FileHolds(files[i], closed[i])} :: 0 <= i < |files| ==> FileHolds(files[i], closed[i])
  }

  lemma {:induction false} AllHoldPush(files: seq<PageFile>, closed: seq<seq<Meas>>, f: PageFile, ms: seq<Meas>)
    requires AllHold(files, closed) && FileHolds(f, ms)
    ensures AllHold(files + [f], closed + [ms])
  {
  }

  /** Every closed page was given the window of all that was written up to its end. */
  ghost predicate WindowsOf(files: seq<PageFile>, closed: seq<seq<Meas>>) {
    && |files| == |closed|
    && forall i :: 0 <= i < |files| ==> files[i].window == WriteWindow.UpdatedAll([], Flatten(closed[..i + 1]))
  }

  lemma {:induction false} WindowsOfPush(files: seq<PageFile>, closed: seq<seq<Meas>>, f: PageFile, ms: seq<Meas>)
    requires WindowsOf(files, closed) && f.window == WriteWindow.UpdatedAll([], Flatten(closed + [ms]))
    ensures WindowsOf(files + [f], closed + [ms])
  {
    forall i | 0 <= i < |files + [f]|
      ensures (files + [f])[i].window == WriteWindow.UpdatedAll([], Flatten((closed + [ms])[..i + 1]))
    {
      if i < |files| {
        assert (closed + [ms])[..i + 1] == closed[..i + 1];
      } else {
        assert (closed + [ms])[..i + 1] == closed + [ms];
      }
    }
  }

  /** The file has all of the page: bytes, header fields, window and index records. */
  ghost predicate IsFileOf(f: PageFile, page: Page)
    reads page, page.raw
  {
    && f.bytes == page.raw[..] && f.writePos == page.writePos && f.writeValuePos == page.writeValuePos
    && f.times == page.times && f.filters == page.filters && f.window == page.window && f.index == page.index
  }

  method Close(page: Page) returns (f: PageFile)
    requires page.Valid() && page.TimesOk()
    ensures FileHolds(f, page.contents) && IsFileOf(f, page)
  {
    f := PageFile(page.raw[..], page.writePos, page.writeValuePos, page.times, page.filters, page.window, page.index);
  }

  class PageManager {
    const pageSize: nat
    var files: seq<PageFile>
    var cur: Page
    ghost var closed: seq<seq<Meas>>

    ghost predicate CurOk() reads this`cur, cur, cur.raw {
      && cur.Valid() && cur.TimesOk() && cur.raw.Length == pageSize
      && GoodSize(pageSize) && Capacity(pageSize) >= 1
    }

    /** The closed pages hold what they are to hold, are full, and were given the window of the history. */
    ghost predicate ClosedOk() reads this`files, this`closed {
      && AllHold(files, closed) && WindowsOf(files, closed)
      && GoodSize(pageSize) && AllFull(closed, Capacity(pageSize))
    }

    ghost predicate Valid() reads this`files, this`closed, this`cur, cur, cur.raw {
      ClosedOk() && CurOk() && cur.window == WriteWindow.UpdatedAll([], Flatten(Pages()))
    }

    /** What the pages hold, page by page. */
    ghost function Pages(): seq<seq<Meas>> reads this`closed, this`cur, cur`contents { closed + [cur.contents] }

    /** Every page but the current one is full. */
    lemma {:induction false} AreFull()
      requires Valid()
      ensures Writable(Pages(), Capacity(pageSize)) && FullBefore(Pages(), Capacity(pageSize))
    {
      assert Pages()[..|closed|] == closed;
    }

    /** The first createNewPage, without a page before. */
    constructor (size: nat)
      requires GoodSize(size) && Capacity(size) >= 1
      ensures Valid() && Pages() == [[]] && cur.window == [] && pageSize == size && fresh(cur) && fresh(cur.raw)
    {
      pageSize, files, closed := size, [], [];
      cur := new Page(size, []);
      FlattenPush([], []);
    }

    /** createNewPage: the full page is closed; the new one takes over its write window. */
    method CreateNewPage()
      requires Valid() && |cur.contents| == Capacity(pageSize)
      modifies this`files, this`closed, this`cur
      ensures Valid() && Pages() == old(Pages()) + [[]] && cur.window == old(cur.window)
      ensures fresh(cur) && fresh(cur.raw)
      ensures |files| == |old(files)| + 1 && files[..|old(files)|] == old(files)
      ensures IsFileOf(files[|files| - 1], old(cur))
    {
      ghost var pages := Pages();
      FlattenPush(pages, []);
      assert Flatten(pages) + [] == Flatten(pages);
      CloseCurrent();
      cur := new Page(pageSize, cur.window);
      assert Pages() == pages + [[]];
    }

    method CloseCurrent()
      requires Valid() && |cur.contents| == Capacity(pageSize)
      modifies this`files, this`closed
      ensures ClosedOk() && closed == old(closed) + [cur.contents]
      ensures |files| == |old(files)| + 1 && files[..|old(files)|] == old(files) && IsFileOf(files[|files| - 1], cur)
    {
      var f := Close(cur);
      AllHoldPush(files, closed, f, cur.contents);
      WindowsOfPush(files, closed, f, cur.contents);
      files, closed := files + [f], closed + [cur.contents];
    }

    /** The append to the current page. */
    method AppendCurrent(todo: seq<Meas>) returns (writed: nat)
      requires Valid() && AllEightBytes(todo) && SortedByTime(todo)
      modifies cur, cur.raw
      ensures Valid() && Writable(old(Pages()), Capacity(pageSize))
      ensures writed == Taken(old(Pages()), todo, Capacity(pageSize))
      ensures Pages() == old(Pages())[..|closed|] + [old(cur.contents) + todo[..writed]]
      ensures cur.window == WriteWindow.UpdatedAll(old(cur.window), todo[..writed])
    {
      ghost var contents, window := cur.contents, cur.window;
      assert Pages()[..|closed|] == closed;
      writed := cur.AppendBatch(todo);
      WindowFollowsPages(closed, contents, todo[..writed], window);
    }

    /** One round of the write loop: append to the current page, and start a new one if not all was taken. */
    method WriteRound(todo: seq<Meas>) returns (writed: nat)
      requires Valid() && AllEightBytes(todo) && SortedByTime(todo)
      modifies this`files, this`closed, this`cur, cur, cur.raw
      ensures Valid() && (cur == old(cur) || fresh(cur)) && (cur.raw == old(cur.raw) || fresh(cur.raw))
      ensures Writable(old(Pages()), Capacity(pageSize)) && writed == Taken(old(Pages()), todo, Capacity(pageSize))
      ensures Pages() == PagesAfter(old(Pages()), todo, Capacity(pageSize))
      ensures cur.window == WriteWindow.UpdatedAll(old(cur.window), todo[..writed])
    {
      writed := AppendCurrent(todo);
      if writed != |todo| {
        CreateNewPage();
      }
    }

    /** The write loop: it ends, and has extended the pages by exactly `output`, in order. */
    method WriteAll(output: seq<Meas>)
      requires Valid() && AllEightBytes(output) && SortedByTime(output)
      modifies this`files, this`closed, this`cur, cur, cur.raw
      ensures Valid() && (cur == old(cur) || fresh(cur)) && (cur.raw == old(cur.raw) || fresh(cur.raw))
      ensures Flatten(Pages()) == Flatten(old(Pages())) + output
      ensures old(Packed(Pages(), Capacity(pageSize))) ==> Packed(Pages(), Capacity(pageSize))
      ensures cur.window == WriteWindow.UpdatedAll(old(cur.window), output)
    {
      ghost var before, window := Flatten(Pages()), cur.window;
      var toWrite: nat := |output|;
      assert output[..0] == [] && output[0..] == output;
      while toWrite > 0
        invariant Valid() && (cur == old(cur) || fresh(cur)) && (cur.raw == old(cur.raw) || fresh(cur.raw))
        invariant toWrite <= |output|
        invariant Flatten(Pages()) + output[|output| - toWrite..] == before + output
        invariant cur.window == WriteWindow.UpdatedAll(window, output[..|output| - toWrite])
        invariant toWrite == 0 && old(Packed(Pages(), Capacity(pageSize))) ==> Packed(Pages(), Capacity(pageSize))
        decreases toWrite, if |cur.contents| == Capacity(pageSize) then 1 else 0
      {
        toWrite := WriteSome(output, toWrite, before, window);
      }
      assert output[|output|..] == [] && output[..|output|] == output;
    }

    /** A round of the write loop, as seen from its beginning: fewer are left, or the current page has room now. */
    method WriteSome(output: seq<Meas>, toWrite: nat, ghost before: seq<Meas>, ghost window: seq<Meas>)
      returns (left: nat)
      requires Valid() && AllEightBytes(output) && SortedByTime(output) && 0 < toWrite <= |output|
      requires Flatten(Pages()) + output[|output| - toWrite..] == before + output
      requires cur.window == WriteWindow.UpdatedAll(window, output[..|output| - toWrite])
      modifies this`files, this`closed, this`cur, cur, cur.raw
      ensures Valid() && (cur == old(cur) || fresh(cur)) && (cur.raw == old(cur.raw) || fresh(cur.raw))
      ensures left <= toWrite && (left == 0 ==> Packed(Pages(), Capacity(pageSize)))
      ensures left == toWrite ==> |old(cur.contents)| == Capacity(pageSize) && |cur.contents| < Capacity(pageSize)
      ensures Flatten(Pages()) + output[|output| - left..] == before + output
      ensures cur.window == WriteWindow.UpdatedAll(window, output[..|output| - left])
    {
      ghost var pages, done := Pages(), |output| - toWrite;
      var todo := output[|output| - toWrite..];
      SuffixOk(output, done);
      AreFull();
      var writed := WriteRound(todo);
      RoundConserves(pages, todo, Capacity(pageSize));
      RoundFills(pages, todo, Capacity(pageSize));
      left := toWrite - writed;
      RoundWindow(window, output, todo, done, writed, left);
    }
  }

  /** The window of all that was written, after the last page took some more. */
  lemma {:induction false} WindowFollowsPages(closed: seq<seq<Meas>>, page: seq<Meas>, more: seq<Meas>,
                                              window: seq<Meas>)
    requires window == WriteWindow.UpdatedAll([], Flatten(closed + [page]))
    ensures WriteWindow.UpdatedAll(window, more) == WriteWindow.UpdatedAll([], Flatten(closed + [page + more]))
  {
    FlattenPush(closed, page);
    FlattenPush(closed, page + more);
    assert Flatten(closed) + (page + more) == (Flatten(closed) + page) + more;
    WriteWindow.UpdatedAllConcat([], Flatten(closed + [page]), more);
  }

  lemma {:induction false} SuffixOk(ms: seq<Meas>, done: nat)
    requires done <= |ms| && AllEightBytes(ms) && SortedByTime(ms)
    ensures AllEightBytes(ms[done..]) && SortedByTime(ms[done..])
  {
  }

  lemma {:induction false} RoundWindow(window: seq<Meas>, output: seq<Meas>, todo: seq<Meas>,
                                       done: nat, k: nat, left: nat)
    requires done + k + left == |output| && todo == output[done..]
    ensures todo[k..] == output[|output| - left..]
    ensures WriteWindow.UpdatedAll(WriteWindow.UpdatedAll(window, output[..done]), todo[..k]) ==
            WriteWindow.UpdatedAll(window, output[..|output| - left])
  {
    WriteWindow.UpdatedAllConcat(window, output[..done], todo[..k]);
    assert todo[..k] == output[done..done + k];
    assert output[..done] + todo[..k] == output[..|output| - left];
  }

  /** The window is that of the history, if all its times are positive. */
  ghost predicate WindowFollows(window: seq<Meas>, history: seq<Meas>) {
    WriteWindow.PositiveTimes(history) ==> WriteWindow.WindowOf(window, history)
  }

  lemma {:induction false} WindowOfAll(window: seq<Meas>, history: seq<Meas>)
    requires window == WriteWindow.UpdatedAll([], history)
    ensures WindowFollows(window, history)
  {
    WriteWindow.EmptyWindow();
    assert [] + history == history;
    if WriteWindow.PositiveTimes(history) {
      WriteWindow.WindowOfHistory([], [], history);
    }
  }

  method SortCache(data: Cache) returns (ghost sorted: seq<Meas>)
    requires data.Valid() && AllEightBytes(data.Contents())
    modifies data.meases
    ensures data.Valid() && data.Contents() == sorted && AllEightBytes(sorted)
    ensures SortedByTime(sorted) && multiset(sorted) == multiset(old(data.Contents()))
  {
    SortByTime(data.meases, data.size);
    sorted := data.meases[..data.size];
    SameEightBytes(old(data.Contents()), sorted);
  }

  /** AsyncWriter::call */
  method Call(manager: PageManager, data: Cache) returns (ghost sorted: seq<Meas>)
    requires manager.Valid() && data.Valid() && AllEightBytes(data.Contents())
    modifies manager`files, manager`closed, manager`cur, manager.cur, manager.cur.raw
    modifies data, data.meases
    ensures manager.Valid() && data.Valid() && data.Contents() == [] && !data.sync
    ensures manager.cur == old(manager.cur) || fresh(manager.cur)
    ensures manager.cur.raw == old(manager.cur.raw) || fresh(manager.cur.raw)
    ensures SortedByTime(sorted) && multiset(sorted) == multiset(old(data.Contents()))
    ensures Flatten(manager.Pages()) == Flatten(old(manager.Pages())) + sorted
    ensures old(Packed(manager.Pages(), Capacity(manager.pageSize))) ==>
              Packed(manager.Pages(), Capacity(manager.pageSize))
    ensures manager.cur.window == WriteWindow.UpdatedAll(old(manager.cur.window), sorted)
    ensures WindowFollows(manager.cur.window, Flatten(manager.Pages()))
  {
    sorted := SortCache(data);
    manager.WriteAll(data.meases[..data.size]);
    WindowOfAll(manager.cur.window, Flatten(manager.Pages()));
    Release(manager, data);
  }

  /** The cache is cleared and no longer synchronised; the pages do not notice. */
  method Release(ghost manager: PageManager, data: Cache)
    requires manager.Valid() && data.Valid()
    modifies data`size, data`index, data`sync
    ensures manager.Valid() && manager.Pages() == old(manager.Pages()) && manager.cur.window == old(manager.cur.window)
    ensures data.Valid() && data.Contents() == [] && !data.sync
  {
    data.Clear();
    data.sync := false;
  }

  lemma {:induction false} SameEightBytes(a: seq<Meas>, b: seq<Meas>)
    requires multiset(a) == multiset(b) && AllEightBytes(a)
    ensures AllEightBytes(b)
  {
    forall i | 0 <= i < |b|
      ensures EightBytes(b[i])
    {
      assert b[i] in multiset(b);
      assert b[i] in multiset(a);
    }
  }

  // ---- a whole run ----

  lemma {:induction false} KeptAll(ms: seq<Meas>, young: seq<bool>)
    requires |ms| <= |young| && forall i :: 0 <= i < |ms| ==> young[i]
    ensures Kept(ms, young) == ms
  {
    if ms != [] {
      KeptAll(ms[..|ms| - 1], young);
      assert ms == ms[..|ms| - 1] + [ms[|ms| - 1]];
    }
  }

  /** A cache filled with measurements none of which is too old. */
  method FilledCache(ms: seq<Meas>) returns (cache: Cache)
    ensures fresh(cache) && fresh(cache.meases) && cache.Valid() && cache.Contents() == ms
  {
    cache := new Cache(|ms|);
    var young := seq(|ms|, _ => true);
    var res := cache.AppendBatch(ms, young);
    assert ms[..|ms|] == ms;
    KeptAll(ms, young);
  }

  /** `sorted` holds each batch in time order. */
  ghost predicate SortedEach(batches: seq<seq<Meas>>, sorted: seq<seq<Meas>>) {
    && |sorted| == |batches|
    && forall i :: 0 <= i < |batches| ==> SortedByTime(sorted[i]) && multiset(sorted[i]) == multiset(batches[i])
  }

  lemma {:induction false} SortedEachPush(batches: seq<seq<Meas>>, i: nat, sorted: seq<seq<Meas>>, s: seq<Meas>)
    requires i < |batches| && SortedEach(batches[..i], sorted) && SortedByTime(s) && multiset(s) == multiset(batches[i])
    ensures SortedEach(batches[..i + 1], sorted + [s])
  {
  }

  /**
   A new storage that writes any number of caches: its pages hold the caches one after the other, each
   in time order, and the current page's window is that of all of them.
   */
  method WriteHistory(size: nat, batches: seq<seq<Meas>>) returns (manager: PageManager, ghost sorted: seq<seq<Meas>>)
    requires GoodSize(size) && Capacity(size) >= 1 && forall i :: 0 <= i < |batches| ==> AllEightBytes(batches[i])
    ensures fresh(manager) && manager.Valid() && SortedEach(batches, sorted)
    ensures manager.pageSize == size && Packed(manager.Pages(), Capacity(size))
    ensures ClosedFollow(manager.files, manager.closed)
    ensures Flatten(manager.Pages()) == Flatten(sorted) && WindowFollows(manager.cur.window, Flatten(sorted))
  {
    manager := new PageManager(size);
    sorted := [];
    FlattenPush([], []);
    WindowOfAll([], []);
    for i := 0 to |batches|
      invariant fresh(manager) && fresh(manager.cur) && fresh(manager.cur.raw) && manager.Valid()
      invariant manager.pageSize == size && Packed(manager.Pages(), Capacity(size))
      invariant SortedEach(batches[..i], sorted)
      invariant Flatten(manager.Pages()) == Flatten(sorted) && WindowFollows(manager.cur.window, Flatten(sorted))
    {
      ghost var s := WriteNext(manager, batches[i], Flatten(sorted));
      FlattenPush(sorted, s);
      SortedEachPush(batches, i, sorted, s);
      sorted := sorted + [s];
    }
    assert batches[..|batches|] == batches;
    ClosedWindows(manager.files, manager.closed);
  }

  /** The window of every closed page is that of all that was written up to its end. */
  ghost predicate ClosedFollow(files: seq<PageFile>, closed: seq<seq<Meas>>) {
    && |files| == |closed|
    && forall i :: 0 <= i < |files| ==> WindowFollows(files[i].window, Flatten(closed[..i + 1]))
  }

  lemma {:induction false} ClosedWindows(files: seq<PageFile>, closed: seq<seq<Meas>>)
    requires WindowsOf(files, closed)
    ensures ClosedFollow(files, closed)
  {
    forall i | 0 <= i < |files|
      ensures WindowFollows(files[i].window, Flatten(closed[..i + 1]))
    {
      WindowOfAll(files[i].window, Flatten(closed[..i + 1]));
    }
  }

  method WriteNext(manager: PageManager, batch: seq<Meas>, ghost history: seq<Meas>) returns (ghost s: seq<Meas>)
    requires manager.Valid() && AllEightBytes(batch)
    requires Flatten(manager.Pages()) == history
    modifies manager`files, manager`closed, manager`cur, manager.cur, manager.cur.raw
    ensures manager.Valid() && SortedByTime(s) && multiset(s) == multiset(batch)
    ensures manager.cur == old(manager.cur) || fresh(manager.cur)
    ensures manager.cur.raw == old(manager.cur.raw) || fresh(manager.cur.raw)
    ensures Flatten(manager.Pages()) == history + s && WindowFollows(manager.cur.window, history + s)
    ensures old(Packed(manager.Pages(), Capacity(manager.pageSize))) ==>
              Packed(manager.Pages(), Capacity(manager.pageSize))
  {
    var cache := FilledCache(batch);
    s := Call(manager, cache);
  }
}
