/** The page split of `multi_page_heatmap`: a long matrix is cut into pages of `n_per_page`
    rows, each drawn with its own title and output path. Drawing is left to the renderer; the
    model returns the pages it would draw. */
module Paging {
  import opened Outcomes
  import opened Text
  import opened Arithmetic

  // ---------------------------------------------------------------- Python integer division

  /** Python's `a % b`: the remainder takes the sign of the divisor, lying in `[0, b)` for a
      positive divisor and in `(b, 0]` for a negative one. */
  function FloorMod(a: int, b: int): (r: int)
    requires b != 0
    ensures b > 0 ==> 0 <= r < b
    ensures b < 0 ==> b < r <= 0
  {
    if b > 0 then a % b
    else if a % (-b) == 0 then 0
    else a % (-b) + b
  }

  /** Python's `a // b`, the quotient rounded toward negative infinity: together with `a % b`
      it meets Python's definition `a == (a // b) * b + a % b`. */
  function FloorDiv(a: int, b: int): (q: int)
    requires b != 0
    ensures a == q * b + FloorMod(a, b)
  {
    if b > 0 then a / b
    else
      var d := -b;
      assert a == (a / d) * d + a % d;
      Neg(a / d, d);
      if a % d == 0 then
        Neg(-(a / d), -d);
        assert (-(a / d)) * b == (a / d) * d;
        -(a / d)
      else
        Distribute(a / d + 1, d);
        Neg(-(a / d) - 1, -d);
        assert (-(a / d) - 1) * b == (a / d + 1) * d;
        -(a / d) - 1
  }

  /** `len(data) // n_per_page`, plus one when the division leaves a remainder. */
  function PageCount(len: nat, n: int): (count: int)
    requires n != 0
    ensures n < 0 ==> count <= 0
    ensures n > 0 ==> count >= 0 && (count == 0 <==> len == 0)
  {
    assert n < 0 && len > 0 ==> FloorDiv(len, n) <= -1;
    FloorDiv(len, n) + if FloorMod(len, n) != 0 then 1 else 0
  }

  // ---------------------------------------------------------------- chunks

  function Flatten<T>(chunks: seq<seq<T>>): seq<T> {
    if chunks == [] then [] else chunks[0] + Flatten(chunks[1..])
  }

  /** The reference split: `n` rows at a time, the remainder on a last, shorter chunk. */
  function Chunks<T>(data: seq<T>, n: nat): (chunks: seq<seq<T>>)
    requires n > 0
    ensures chunks == [] <==> data == []
    ensures forall k :: 0 <= k < |chunks| ==> 0 < |chunks[k]| <= n
    ensures forall k :: 0 <= k < |chunks| - 1 ==> |chunks[k]| == n
    decreases |data|
  {
    if |data| <= n then (if data == [] then [] else [data])
    else
      var rest := Chunks(data[n..], n);
      assert data == data[..n] + data[n..];
      [data[..n]] + rest
  }

  /** Put back together, the chunks are the data. */
  lemma {:induction false} ChunksFlatten<T>(data: seq<T>, n: nat)
    requires n > 0
    ensures Flatten(Chunks(data, n)) == data
    decreases |data|
  {
    if |data| > n {
      ChunksFlatten(data[n..], n);
      var chunks := Chunks(data, n);
      assert chunks[0] == data[..n] && chunks[1..] == Chunks(data[n..], n);
      assert data == data[..n] + data[n..];
    } else if data != [] {
      assert Chunks(data, n) == [data];
      assert Flatten([data]) == data + Flatten([]);
    }
  }

  /** There are as many chunks as `multi_page_heatmap` counts pages. */
  lemma {:induction false} ChunkCount<T>(data: seq<T>, n: nat)
    requires n > 0
    ensures |Chunks(data, n)| == PageCount(|data|, n)
    decreases |data|
  {
    if |data| > n {
      ChunkCount(data[n..], n);
      PageCountStep(|data|, n);
    } else if data != [] {
      PageCountOne(|data|, n);
    }
  }

  lemma PageCountOne(len: nat, n: nat)
    requires 0 < len <= n
    ensures PageCount(len, n) == 1
  {
    if len == n {
      ModUnique(len, 1, 0, n);
    } else {
      ModUnique(len, 0, len, n);
    }
  }

  lemma PageCountStep(len: nat, n: nat)
    requires 0 < n < len
    ensures PageCount(len, n) == PageCount(len - n, n) + 1
  {
    var q, r := (len - n) / n, (len - n) % n;
    assert len - n == q * n + r;
    Distribute(q + 1, n);
    ModUnique(len, q + 1, r, n);
  }

  /** The first row of chunk `k`: `k` full chunks come before it. */
  function ChunkStart(n: nat, k: nat): nat {
    if k == 0 then 0 else ChunkStart(n, k - 1) + n
  }

  lemma {:induction false} ChunkStartIsProduct(n: nat, k: nat)
    ensures ChunkStart(n, k) == n * k
  {
    if k > 0 {
      ChunkStartIsProduct(n, k - 1);
      MulStep(n, k);
    }
  }

  /** `chunk` is the run of `data` that starts at row `lo`. */
  ghost predicate Placed<T>(data: seq<T>, chunk: seq<T>, lo: nat) {
    lo + |chunk| <= |data| && chunk == data[lo .. lo + |chunk|]
  }

  lemma PlacedAfterDrop<T>(data: seq<T>, n: nat, chunk: seq<T>, lo: nat)
    requires n <= |data| && Placed(data[n..], chunk, lo)
    ensures Placed(data, chunk, lo + n)
  {
    assert data[n..][lo .. lo + |chunk|] == data[lo + n .. lo + n + |chunk|];
  }

  /** A split longer than one chunk is its first full chunk, then the split of the rest. */
  lemma ChunksStep<T>(data: seq<T>, n: nat)
    requires 0 < n < |data|
    ensures Chunks(data, n) == [data[..n]] + Chunks(data[n..], n)
  {
  }

  /** Chunk `k` starts `k` full chunks into the data; the last one ends with the data. */
  lemma {:induction false} ChunkAt<T>(data: seq<T>, n: nat, k: nat)
    requires n > 0 && k < |Chunks(data, n)|
    ensures Placed(data, Chunks(data, n)[k], ChunkStart(n, k))
    ensures k == |Chunks(data, n)| - 1 ==> ChunkStart(n, k) + |Chunks(data, n)[k]| == |data|
    decreases k
  {
    if |data| <= n {
      assert Chunks(data, n) == [data];
    } else {
      ChunksStep(data, n);
      var rest := Chunks(data[n..], n);
      if k > 0 {
        assert Chunks(data, n)[k] == rest[k - 1];
        ChunkAt(data[n..], n, k - 1);
        PlacedAfterDrop(data, n, rest[k - 1], ChunkStart(n, k - 1));
      }
    }
  }

  lemma MulStep(n: nat, k: nat)
    requires k > 0
    ensures n * k == n + n * (k - 1)
  {
    Distribute(k, n);
  }

  // ---------------------------------------------------------------- pages

  /** One page of the heatmap: its number, its rows, its title and output path. */
  datatype Page<T> = Page(number: nat, rows: seq<T>, title: string, outfile: Option<string>)

  /** The error raised before any page is drawn. */
  datatype PagingError =
    | ZeroDivision    // `n_per_page == 0`
    | MissingTitle    // the default `common_title=None` has no `replace`

  /** `"Page {page} of {n_pages}"`. */
  function PageLabel(page: int, total: int): string {
    "Page " + ShowInt(page) + " of " + ShowInt(total)
  }

  /** `"_{page}_of_{n_pages}.png"`. */
  function OutfileSuffix(page: int, total: int): string {
    "_" + ShowInt(page) + "_of_" + ShowInt(total) + ".png"
  }

  /** The output path: only a non-empty prefix asks for a file. */
  function Outfile(prefix: Option<string>, page: int, total: int): (path: Option<string>)
    ensures path.Some? <==> prefix.Some? && prefix.value != []
  {
    if prefix.Some? && prefix.value != [] then Some(prefix.value + OutfileSuffix(page, total)) else None
  }

  /** The page drawn from rows `rows`: the placeholder `<page>` of the title is replaced by the
      page label. */
  function MakePage<T>(page: nat, total: int, rows: seq<T>, title: string, prefix: Option<string>): Page<T> {
    Page(page, rows, ReplaceAll(title, "<page>", PageLabel(page, total)), Outfile(prefix, page, total))
  }

  /** What `multi_page_heatmap` produces: the pages of the reference split, numbered from 1. */
  function Pages<T>(data: seq<T>, n: int, title: Option<string>, prefix: Option<string>): (r: Result<seq<Page<T>>, PagingError>)
    ensures r == Failure(ZeroDivision) <==> n == 0
    ensures r == Failure(MissingTitle) <==> n > 0 && data != [] && title.None?
    ensures n < 0 || (n > 0 && data == []) ==> r == Success([])
    ensures r.Success? && n > 0 ==> |r.value| == PageCount(|data|, n)
  {
    if n == 0 then Failure(ZeroDivision)
    else if n < 0 then Success([])
    else
      var chunks := Chunks(data, n);
      ChunkCount(data, n);
      if chunks == [] then Success([])
      else if title.None? then Failure(MissingTitle)
      else Success(PageList(chunks, title.value, prefix))
  }

  /** The pages of a split: chunk `k` on page `k + 1`. */
  function PageList<T>(chunks: seq<seq<T>>, title: string, prefix: Option<string>): seq<Page<T>> {
    seq(|chunks|, k requires 0 <= k < |chunks| => MakePage(k + 1, |chunks|, chunks[k], title, prefix))
  }

  /** The rows `multi_page_heatmap` slices for page `page` are chunk `page - 1`. */
  lemma PageSlice<T>(data: seq<T>, n: nat, page: nat)
    requires n > 0 && 1 <= page <= |Chunks(data, n)|
    ensures var lower, upper, chunk := n * (page - 1), n * page, Chunks(data, n)[page - 1];
      && lower <= |data|
      && (page != |Chunks(data, n)| ==> lower <= upper <= |data| && data[lower..upper] == chunk)
      && (page == |Chunks(data, n)| ==> data[lower..] == chunk)
  {
    var chunks := Chunks(data, n);
    var chunk := chunks[page - 1];
    ChunkAt(data, n, page - 1);
    ChunkStartIsProduct(n, page - 1);
    var lo := n * (page - 1);
    assert Placed(data, chunk, lo);
    if page != |chunks| {
      assert |chunk| == n;
      MulStep(n, page);
      assert n * page == lo + n;
    } else {
      assert lo + |chunk| == |data|;
      assert data[lo..] == data[lo .. lo + |chunk|];
    }
  }

  /** A prefix grows by the next element. */
  lemma TakeOneMore<T>(s: seq<T>, i: nat)
    requires i < |s|
    ensures s[..i + 1] == s[..i] + [s[i]]
  {
  }

  /** With a positive page size, rows to show and a title, the pages are those of the split. */
  lemma PagesValue<T>(data: seq<T>, n: int, title: Option<string>, prefix: Option<string>)
    requires n > 0 && data != [] && title.Some?
    ensures Pages(data, n, title, prefix) == Success(PageList(Chunks(data, n), title.value, prefix))
  {
  }

  /** `multi_page_heatmap`: counts the pages with Python's integer division, slices rows
      `n * (page - 1)` to `n * page` for each page but the last, which takes the rest, and builds
      each page's title and output path. */
  method MultiPageHeatmap<T>(data: seq<T>, nPerPage: int, commonTitle: Option<string>, outfilePrefix: Option<string>)
    returns (r: Result<seq<Page<T>>, PagingError>)
    ensures r == Pages(data, nPerPage, commonTitle, outfilePrefix)
  {
    if nPerPage == 0 {
      return Failure(ZeroDivision);
    }
    var nPages := CountPages(|data|, nPerPage);
    if nPages < 1 {
      return Success([]);
    }
    ChunkCount(data, nPerPage);
    var pages: seq<Page<T>> := [];
    var page := 1;
    while page <= nPages
      invariant 1 <= page <= nPages + 1
      invariant commonTitle.None? ==> page == 1 && pages == []
      invariant commonTitle.Some? ==>
        pages == PageList(Chunks(data, nPerPage), commonTitle.value, outfilePrefix)[..page - 1]
    {
      if commonTitle.None? {
        return Failure(MissingTitle);
      }
      var next := BuildPage(data, nPerPage, nPages, page, commonTitle.value, outfilePrefix);
      TakeOneMore(PageList(Chunks(data, nPerPage), commonTitle.value, outfilePrefix), page - 1);
      pages := pages + [next];
      page := page + 1;
    }
    ghost var all := PageList(Chunks(data, nPerPage), commonTitle.value, outfilePrefix);
    assert all[..nPages] == all;
    PagesValue(data, nPerPage, commonTitle, outfilePrefix);
    return Success(pages);
  }

  /** `n_pages`: the quotient, plus one for a remainder. */
  method CountPages(len: nat, nPerPage: int) returns (nPages: int)
    requires nPerPage != 0
    ensures nPages == PageCount(len, nPerPage)
  {
    nPages := FloorDiv(len, nPerPage);
    if FloorMod(len, nPerPage) != 0 {
      nPages := nPages + 1;
    }
  }

  /** One page: rows `n * (page - 1)` up to `n * page`, or to the end on the last page, with
      `<page>` in the title replaced by `Page <page> of <pages>` and, for a non-empty prefix, the
      output path `prefix_<page>_of_<pages>.png`. */
  method BuildPage<T>(data: seq<T>, nPerPage: int, nPages: int, page: int, commonTitle: string, outfilePrefix: Option<string>)
    returns (p: Page<T>)
    requires nPerPage > 0 && nPages == |Chunks(data, nPerPage)| && 1 <= page <= nPages
    ensures p == PageList(Chunks(data, nPerPage), commonTitle, outfilePrefix)[page - 1]
  {
    PageSlice(data, nPerPage, page);
    var lower := nPerPage * (page - 1);
    var upper := nPerPage * page;
    var slice;
    if page != nPages {
      slice := data[lower..upper];
    } else {
      slice := data[lower..];
    }
    var title := ReplaceAll(commonTitle, "<page>", PageLabel(page, nPages));
    var outfile := if outfilePrefix.Some? && outfilePrefix.value != [] then Some(outfilePrefix.value + OutfileSuffix(page, nPages)) else None;
    p := Page(page, slice, title, outfile);
  }

  // ---------------------------------------------------------------- what the pages promise

  /** With a positive page size, the pages hold every row once and in order: put back together
      they are the data, every page but the last is full, and the last holds between one row and
      a full page. */
  lemma PagesCover<T>(data: seq<T>, n: int, title: Option<string>, prefix: Option<string>)
    requires n > 0 && Pages(data, n, title, prefix).Success?
    ensures var pages := Pages(data, n, title, prefix).value;
      && Flatten(seq(|pages|, k requires 0 <= k < |pages| => pages[k].rows)) == data
      && (forall k :: 0 <= k < |pages| ==> pages[k].number == k + 1 && 0 < |pages[k].rows| <= n)
      && (forall k :: 0 <= k < |pages| - 1 ==> |pages[k].rows| == n)
  {
    var pages := Pages(data, n, title, prefix).value;
    PagesRows(data, n, title, prefix);
    var rows := seq(|pages|, k requires 0 <= k < |pages| => pages[k].rows);
    assert rows == Chunks(data, n);
    ChunksFlatten(data, n);
  }

  /** Page `k + 1` shows chunk `k` of the reference split. */
  lemma PagesRows<T>(data: seq<T>, n: int, title: Option<string>, prefix: Option<string>)
    requires n > 0 && Pages(data, n, title, prefix).Success?
    ensures var pages := Pages(data, n, title, prefix).value;
      && |pages| == |Chunks(data, n)|
      && forall k :: 0 <= k < |pages| ==> pages[k].number == k + 1 && pages[k].rows == Chunks(data, n)[k]
  {
    var chunks := Chunks(data, n);
    if chunks != [] {
      var expected := PageList(chunks, title.value, prefix);
      assert Pages(data, n, title, prefix) == Success(expected);
      forall k | 0 <= k < |expected| ensures expected[k].number == k + 1 && expected[k].rows == chunks[k] {
        assert expected[k] == MakePage(k + 1, |chunks|, chunks[k], title.value, prefix);
      }
    }
  }

  /** A title without the placeholder is the same on every page, and with a non-empty prefix
      every page gets the file `prefix_<page>_of_<pages>.png`. */
  lemma PagesTitles<T>(data: seq<T>, n: int, title: Option<string>, prefix: Option<string>)
    requires Pages(data, n, title, prefix).Success?
    ensures var pages := Pages(data, n, title, prefix).value;
      && (pages != [] ==> title.Some?)
      && (title.Some? ==> forall k :: 0 <= k < |pages| ==>
            pages[k].title == ReplaceAll(title.value, "<page>", PageLabel(k + 1, |pages|)))
      && (title.Some? && !Contains(title.value, "<page>") ==> forall k :: 0 <= k < |pages| ==> pages[k].title == title.value)
      && (prefix.Some? && prefix.value != [] ==> forall k :: 0 <= k < |pages| ==>
            pages[k].outfile == Some(prefix.value + OutfileSuffix(k + 1, |pages|)))
      && ((prefix.None? || prefix.value == []) ==> forall k :: 0 <= k < |pages| ==> pages[k].outfile.None?)
  {
    if title.Some? && !Contains(title.value, "<page>") {
      var pages := Pages(data, n, title, prefix).value;
      forall k | 0 <= k < |pages| ensures pages[k].title == title.value {
        ReplaceAbsent(title.value, "<page>", PageLabel(k + 1, |pages|));
      }
    }
  }
}
