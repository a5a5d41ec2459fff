/** Loosely typed Python values as they arrive from the scraping backend
    (decoded JSON) or from a DataFrame row, with Python's truthiness,
    hashability, `dict.get` and `or`. */
module Records {

  /** A Python value. `VNum` stands for `int`, `float` and `bool` alike
      (`True == 1`, `False == 0`, `1 == 1.0` in Python, and so here). */
  datatype Value =
    | VNone
    | VStr(s: string)
    | VNum(x: real)
    | VList(items: seq<Value>)
    | VDict(entries: map<string, Value>)

  /** A raw record or a DataFrame row: a `dict` with string keys. */
  type Record = map<string, Value>

  /** `bool(v)` in Python. */
  predicate Truthy(v: Value)
  {
    match v
    case VNone => false
    case VStr(s) => s != ""
    case VNum(x) => x != 0.0
    case VList(items) => items != []
    case VDict(entries) => entries != map[]
  }

  /** Whether `v` may be put in a `set`: lists and dicts raise `TypeError`. */
  predicate Hashable(v: Value)
  {
    !v.VList? && !v.VDict?
  }

  /** Python's `a or b`: `a` when it is truthy, otherwise `b`. */
  function Or(a: Value, b: Value): (r: Value)
    ensures Truthy(r) <==> Truthy(a) || Truthy(b)
    ensures Truthy(a) ==> r == a
    ensures !Truthy(a) ==> r == b
  {
    if Truthy(a) then a else b
  }

  /** `d.get(k, default)`: the stored value, even a falsy one, when `k` is present. */
  function GetOr(d: Record, k: string, default: Value): Value
  {
    if k in d then d[k] else default
  }

  /** `d.get(k)`: `None` when `k` is absent. */
  function Get(d: Record, k: string): Value
  {
    GetOr(d, k, VNone)
  }

  /** `ad.get("pageName") or ad.get("page_name")`: the page name of a raw ad
      record, read the same way by both front ends. `pageName` wins when it
      is truthy; `page_name` is read only when `pageName` is absent or falsy. */
  function PageOf(ad: Record): Value
  {
    Or(Get(ad, "pageName"), Get(ad, "page_name"))
  }

  /** The precedence of the two keys: a truthy `pageName` is the page,
      otherwise `page_name` is, and the page is truthy exactly when one of
      the two is. */
  lemma PageOfPrecedence(ad: Record)
    ensures Truthy(PageOf(ad)) <==> Truthy(Get(ad, "pageName")) || Truthy(Get(ad, "page_name"))
    ensures "pageName" in ad && Truthy(ad["pageName"]) ==> PageOf(ad) == ad["pageName"]
    ensures !Truthy(Get(ad, "pageName")) ==> PageOf(ad) == Get(ad, "page_name")
  {
  }

  /** A row of the cleaned ads table: `{"page_name", "page_url", "ad_text"}`. */
  datatype AdRow = AdRow(pageName: Value, pageUrl: Value, adText: Value)
}
