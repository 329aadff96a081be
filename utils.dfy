/**
 * The helpers of common/utils.py: the two response envelopes, the upload path and the two
 * upload validators, and the page selection of `paginate_queryset` over Django's paginator.
 */
module Utils {
  import opened Wrappers
  import opened Text
  import opened Json

  // ---------------------------------------------------------------------------------------
  // ResponseHelper

  /** `success_response(data, message)`: a `data` entry only for truthy data. */
  function SuccessResponse(data: Value, message: string): (r: map<string, Value>)
    ensures "success" in r && r["success"] == Bool(true)
    ensures "message" in r && r["message"] == Str(message)
    ensures "data" in r <==> Truthy(data)
    ensures "data" in r ==> r["data"] == data
    ensures r.Keys <= {"success", "message", "data"}
  {
    var response := map["success" := Bool(true), "message" := Str(message)];
    if Truthy(data) then response["data" := data] else response
  }

  /** `error_response(message, errors)`: an `errors` entry only for truthy errors. */
  function ErrorResponse(message: string, errors: Value): (r: map<string, Value>)
    ensures "success" in r && r["success"] == Bool(false)
    ensures "message" in r && r["message"] == Str(message)
    ensures "errors" in r <==> Truthy(errors)
    ensures "errors" in r ==> r["errors"] == errors
    ensures r.Keys <= {"success", "message", "errors"}
  {
    var response := map["success" := Bool(false), "message" := Str(message)];
    if Truthy(errors) then response["errors" := errors] else response
  }

  /**
   * The two envelopes can always be told apart, and a caller gets back what it passed: the
   * payload when it was truthy, and no entry (so `None` through `.get`) when it was not.
   */
  lemma ResponsesRoundTrip(data: Value, errors: Value, message: string)
    ensures SuccessResponse(data, message)["success"] != ErrorResponse(message, errors)["success"]
    ensures Get(SuccessResponse(data, message), "data", Null) == (if Truthy(data) then data else Null)
    ensures Get(ErrorResponse(message, errors), "errors", Null) == (if Truthy(errors) then errors else Null)
  {
  }

  // ---------------------------------------------------------------------------------------
  // FileUploadHelper

  /** The last index of `c` in `s`, or -1: Python's `s.rfind(c)`. */
  function RFind(s: string, c: char): (r: int)
    ensures -1 <= r < |s|
    ensures r >= 0 ==> s[r] == c
    ensures forall j :: r < j < |s| ==> s[j] != c
  {
    if |s| == 0 then -1
    else if s[|s| - 1] == c then |s| - 1
    else RFind(s[..|s| - 1], c)
  }

  /** `get_upload_path`: the model name with an `s`, a slash, then the file name. */
  function UploadPath(modelName: string, filename: string): (path: string)
    ensures |path| == |modelName| + 2 + |filename|
    ensures path[..|modelName| + 2] == modelName + "s/"
    ensures '/' !in filename ==> Basename(path) == filename
  {
    if '/' !in filename then
      BasenameAfterSlash(modelName + "s", filename);
      assert modelName + "s/" + filename == modelName + "s" + "/" + filename;
      modelName + "s/" + filename
    else
      modelName + "s/" + filename
  }

  /** The final path component: what follows the last slash. */
  function Basename(path: string): string {
    path[RFind(path, '/') + 1..]
  }

  /** A slash-free name is the last component of any path that ends with a slash and the name. */
  lemma BasenameAfterSlash(dir: string, name: string)
    requires '/' !in name
    ensures Basename(dir + "/" + name) == name
  {
    var path := dir + "/" + name;
    var i := |dir|;
    assert path[i] == '/';
    assert forall j :: i < j < |path| ==> path[j] == name[j - i - 1];
    assert RFind(path, '/') == i;
  }

  predicate HasNonDot(p: string, lo: int, hi: int)
    requires 0 <= lo <= hi <= |p|
  {
    exists i :: lo <= i < hi && p[i] != '.'
  }

  /**
   * `os.path.splitext(p)[1]`: from the last dot on, provided that dot is inside the last path
   * component and is not part of that component's leading dots; otherwise empty.
   */
  function Extension(p: string): (ext: string)
    ensures ext == [] || (ext[0] == '.' && '.' !in ext[1..] && '/' !in ext)
    ensures |ext| <= |p| && ext == p[|p| - |ext|..]
  {
    var sepIndex := RFind(p, '/');
    var dotIndex := RFind(p, '.');
    if dotIndex > sepIndex && HasNonDot(p, sepIndex + 1, dotIndex) then
      assert forall j :: 0 <= j < |p[dotIndex..]| ==> p[dotIndex..][j] == p[dotIndex + j];
      p[dotIndex..]
    else []
  }

  /** A name `stem.e` without slashes, whose stem is not all dots, has the extension `.e`. */
  lemma ExtensionOfName(stem: string, e: string)
    requires '/' !in stem && '/' !in e && '.' !in e
    requires exists i :: 0 <= i < |stem| && stem[i] != '.'
    ensures Extension(stem + "." + e) == "." + e
  {
    var p := stem + "." + e;
    var d := |stem|;
    assert p[d] == '.';
    assert forall j :: d < j < |p| ==> p[j] == e[j - d - 1];
    assert RFind(p, '.') == d;
    assert forall j :: 0 <= j < |p| ==> p[j] != '/' by {
      forall j | 0 <= j < |p| ensures p[j] != '/' {
        if j < d { assert p[j] == stem[j]; } else if j > d { assert p[j] == e[j - d - 1]; }
      }
    }
    var i :| 0 <= i < |stem| && stem[i] != '.';
    assert p[i] == stem[i];
    assert HasNonDot(p, 0, d);
    assert p[d..] == "." + e;
  }

  /** A name made only of dots after its last slash (such as `.bashrc`'s hidden-file form) has none. */
  lemma HiddenFileHasNoExtension(name: string)
    requires '/' !in name && '.' !in name
    ensures Extension("." + name) == ""
  {
    var p := "." + name;
    assert forall j :: 0 <= j < |p| ==> p[j] != '/' by {
      forall j | 0 <= j < |p| ensures p[j] != '/' {
        if j > 0 { assert p[j] == name[j - 1]; }
      }
    }
    assert forall j :: 0 < j < |p| ==> p[j] != '.' by {
      forall j | 0 < j < |p| ensures p[j] != '.' { assert p[j] == name[j - 1]; }
    }
    assert p[0] == '.';
    assert RFind(p, '.') == 0;
  }

  const BytesPerMegabyte := 1024 * 1024

  /** `validate_file_size`: a file larger than the limit is refused; one exactly at it passes. */
  function ValidateFileSize(size: int, maxSizeMb: int): (r: Result<bool, string>)
    ensures r.Ok? <==> size <= maxSizeMb * BytesPerMegabyte
    ensures r.Ok? ==> r.value
    ensures r.Err? ==> r.error == "File size exceeds " + IntToDecimal(maxSizeMb) + "MB limit"
  {
    if size > maxSizeMb * 1024 * 1024 then Err("File size exceeds " + IntToDecimal(maxSizeMb) + "MB limit")
    else Ok(true)
  }

  /** A size that passes keeps passing when the file shrinks or the limit grows. */
  lemma FileSizeMonotone(size1: int, size2: int, max1: int, max2: int)
    requires size2 <= size1 && max1 <= max2
    requires ValidateFileSize(size1, max1).Ok?
    ensures ValidateFileSize(size2, max2).Ok?
  {
  }

  /** `validate_file_type`: the lower-cased extension (dot included) must be an allowed type. */
  function ValidateFileType(name: string, allowedTypes: seq<string>): (r: Result<bool, string>)
    ensures r.Ok? <==> Lower(Extension(name)) in allowedTypes
    ensures r.Ok? ==> r.value
    ensures r.Err? ==> r.error == "File type " + Lower(Extension(name)) + " not allowed"
  {
    var fileExtension := Lower(Extension(name));
    if fileExtension !in allowedTypes then Err("File type " + fileExtension + " not allowed")
    else Ok(true)
  }

  /** `report.PDF` passes a `.pdf` allow-list, whatever the case of its extension. */
  lemma UpperCaseExtensionAccepted()
    ensures ValidateFileType("report.PDF", [".pdf", ".png"]).Ok?
  {
    assert "report"[0] != '.';
    ExtensionOfName("report", "PDF");
    assert "report" + "." + "PDF" == "report.PDF";
    assert Lower(".PDF") == ".pdf";
  }

  // ---------------------------------------------------------------------------------------
  // PaginationHelper

  /** The page argument: something `int()` accepts, or something it does not. */
  datatype PageArg = PageNumber(n: int) | NotAnInteger

  /** The paginator's page count: at least one, and just enough pages for all items. */
  function NumPages(count: nat, pageSize: nat): (n: nat)
    requires pageSize > 0
    ensures n >= 1
  {
    var hits := if count == 0 then 1 else count;
    (hits + pageSize - 1) / pageSize
  }

  /** `n` pages hold all the items (at least one "hit" even with none), and `n - 1` would not. */
  lemma NumPagesBounds(count: nat, pageSize: nat)
    requires pageSize > 0
    ensures var n := NumPages(count, pageSize);
      (n - 1) * pageSize < (if count == 0 then 1 else count) <= n * pageSize
  {
    var hits := if count == 0 then 1 else count;
    var n := NumPages(count, pageSize);
    var rest := (hits + pageSize - 1) % pageSize;
    assert n * pageSize + rest == hits + pageSize - 1;
    MulSucc(n - 1, pageSize);
  }

  /** The items of page `number`: the `number`-th run of `pageSize` items, the last one shorter. */
  function PageItems<T>(items: seq<T>, number: nat, pageSize: nat): seq<T>
    requires pageSize > 0 && 1 <= number <= NumPages(|items|, pageSize)
  {
    PageBottom(|items|, number, pageSize);
    var bottom := (number - 1) * pageSize;
    var top := if bottom + pageSize >= |items| then |items| else bottom + pageSize;
    items[bottom..top]
  }

  /**
   * The page `paginate_queryset` shows: a non-integer falls back to page 1, and a number outside
   * 1..num_pages (zero and negatives included) falls back to the last page.
   */
  function SelectPage(page: PageArg, numPages: nat): (number: nat)
    requires numPages >= 1
    ensures 1 <= number <= numPages
    ensures page.NotAnInteger? ==> number == 1
    ensures page.PageNumber? && 1 <= page.n <= numPages ==> number == page.n
    ensures page.PageNumber? && (page.n < 1 || page.n > numPages) ==> number == numPages
  {
    match page
    case NotAnInteger => 1
    case PageNumber(n) => if n < 1 || n > numPages then numPages else n
  }

  /** The `data` page and the `pagination` block. */
  datatype Paginated<T> = Paginated(
    items: seq<T>, currentPage: nat, totalPages: nat, totalItems: nat, hasNext: bool, hasPrevious: bool)

  function Paginate<T>(items: seq<T>, page: PageArg, pageSize: nat): (r: Paginated<T>)
    requires pageSize > 0
    ensures r.totalPages == NumPages(|items|, pageSize) && r.totalItems == |items|
    ensures 1 <= r.currentPage <= r.totalPages
    ensures r.currentPage == SelectPage(page, r.totalPages)
    ensures r.items == PageItems(items, r.currentPage, pageSize)
    ensures r.hasNext <==> r.currentPage < r.totalPages
    ensures r.hasPrevious <==> r.currentPage > 1
  {
    var numPages := NumPages(|items|, pageSize);
    var number := SelectPage(page, numPages);
    Paginated(PageItems(items, number, pageSize), number, numPages, |items|, number < numPages, number > 1)
  }

  /** Every page but the last is full; the last holds the remainder (at least one item, if any). */
  lemma PageSizes<T>(items: seq<T>, number: nat, pageSize: nat)
    requires pageSize > 0 && 1 <= number <= NumPages(|items|, pageSize)
    ensures number < NumPages(|items|, pageSize) ==> |PageItems(items, number, pageSize)| == pageSize
    ensures number == NumPages(|items|, pageSize) ==>
      |PageItems(items, number, pageSize)| == |items| - (number - 1) * pageSize
    ensures |items| > 0 ==> |PageItems(items, number, pageSize)| > 0
  {
    var n := NumPages(|items|, pageSize);
    var bottom := (number - 1) * pageSize;
    NumPagesBounds(|items|, pageSize);
    MulSucc(number - 1, pageSize);
    assert bottom + pageSize == number * pageSize;
    if number < n {
      MulMonotone(number, n - 1, pageSize);
      assert bottom + pageSize < |items|;
    } else {
      assert bottom + pageSize >= |items|;
      assert |items| > 0 ==> bottom < |items|;
    }
  }

  lemma MulSucc(a: nat, c: nat)
    ensures (a + 1) * c == a * c + c
  {
  }

  /** Pages 1..k, concatenated. */
  function PagesUpTo<T>(items: seq<T>, k: nat, pageSize: nat): seq<T>
    requires pageSize > 0 && k <= NumPages(|items|, pageSize)
  {
    if k == 0 then [] else PagesUpTo(items, k - 1, pageSize) + PageItems(items, k, pageSize)
  }

  lemma MulMonotone(a: nat, b: nat, c: nat)
    requires a <= b
    ensures a * c <= b * c
  {
  }

  /** The items before page `k` (1-based) all exist, and page `k` ends `pageSize` further on. */
  lemma PageBottom(count: nat, k: nat, pageSize: nat)
    requires pageSize > 0 && 1 <= k <= NumPages(count, pageSize)
    ensures (k - 1) * pageSize <= count
    ensures (k - 1) * pageSize + pageSize == k * pageSize
  {
    NumPagesBounds(count, pageSize);
    MulMonotone(k - 1, NumPages(count, pageSize) - 1, pageSize);
    MulSucc(k - 1, pageSize);
  }

  /** Where the first `k` pages end: after `k` full pages, or at the last item. */
  function PagesEnd(count: nat, k: nat, pageSize: nat): (end: nat)
    ensures end <= count
  {
    if k * pageSize <= count then k * pageSize else count
  }

  lemma {:induction false} PagesUpToPrefix<T>(items: seq<T>, k: nat, pageSize: nat)
    requires pageSize > 0 && k <= NumPages(|items|, pageSize)
    ensures PagesUpTo(items, k, pageSize) == items[..PagesEnd(|items|, k, pageSize)]
  {
    if k > 0 {
      PageBottom(|items|, k, pageSize);
      PagesUpToPrefix(items, k - 1, pageSize);
      var bottom := (k - 1) * pageSize;
      var top := if bottom + pageSize >= |items| then |items| else bottom + pageSize;
      assert PagesEnd(|items|, k - 1, pageSize) == bottom;
      assert PagesEnd(|items|, k, pageSize) == top;
      SliceJoin(items, bottom, top);
    }
  }

  lemma SliceJoin<T>(s: seq<T>, i: nat, j: nat)
    requires i <= j <= |s|
    ensures s[..i] + s[i..j] == s[..j]
  {
  }

  /** The pages, in order, are exactly the items: none lost, none repeated, none reordered. */
  lemma PagesPartitionItems<T>(items: seq<T>, pageSize: nat)
    requires pageSize > 0
    ensures PagesUpTo(items, NumPages(|items|, pageSize), pageSize) == items
  {
    var n := NumPages(|items|, pageSize);
    PagesUpToPrefix(items, n, pageSize);
    NumPagesBounds(|items|, pageSize);
    assert PagesEnd(|items|, n, pageSize) == |items|;
  }

  /**
   * Twenty-five items at ten per page make three pages: the first is full with a next page and no
   * previous one, the third holds five with a previous page and no next one, and any page number
   * out of range (0 included) shows the third.
   */
  lemma TwentyFiveItems<T>(items: seq<T>)
    requires |items| == 25
    ensures var first := Paginate(items, PageNumber(1), 10);
      first.totalPages == 3 && |first.items| == 10 && first.hasNext && !first.hasPrevious
    ensures var last := Paginate(items, PageNumber(3), 10);
      last.currentPage == 3 && |last.items| == 5 && !last.hasNext && last.hasPrevious
    ensures Paginate(items, PageNumber(0), 10).currentPage == 3
    ensures Paginate(items, PageNumber(99), 10).currentPage == 3
    ensures Paginate(items, NotAnInteger, 10).currentPage == 1
  {
    assert NumPages(25, 10) == 3;
  }
}
