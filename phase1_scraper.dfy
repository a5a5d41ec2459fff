/** `clean_ads` of Phase1_scraper.py: turns the raw ad records returned by
    the ads-library scraper into one row per page, keeping the first record
    seen for each page name. There is no `try` in `clean_ads`, so a record
    of an unexpected shape makes the whole call raise; here that is an
    `Err` naming the record and the failing operation. */
module Phase1Scraper {
  import opened Wrappers
  import opened PyStrings
  import opened Records
  import opened FirstSeen

  /** Prefix of the page URL synthesised from a page name. */
  const UrlPrefix: string := "https://www.facebook.com/"

  /** Stored in place of an ad text that is empty once stripped. */
  const NotAvailable: string := "N/A"

  /** The operation that raises on a malformed record. */
  datatype Fault =
    | PageHasNoReplace  // `page.replace` on a truthy page that is not a str
    | SnapshotHasNoGet  // `snapshot.get` on a truthy snapshot that is not a dict
    | BodyHasNoGet      // `body.get` on a truthy body that is not a dict
    | PageUnhashable    // `page not in seen` on a list or dict page
    | TextHasNoStrip    // `ad_text.strip()` on a text that is not a str

  /** The exception escaping `clean_ads`, raised while handling `data[index]`. */
  datatype Failure = Failure(index: nat, fault: Fault)

  /** What lines 42-52 compute for every record, before the duplicate test. */
  datatype Fields = Fields(page: Value, url: Value, text: Value)

  /** Page, URL and raw text of one record (lines 42-52). */
  function ExtractFields(ad: Record): (r: Result<Fields, Fault>)
    ensures r.Ok? ==> r.value.page == PageOf(ad)
    ensures r.Err? ==> r.error in {PageHasNoReplace, SnapshotHasNoGet, BodyHasNoGet}
  {
    var page := PageOf(ad);
    var url := Get(ad, "pageUrl");
    if !Truthy(url) && Truthy(page) && !page.VStr? then Err(PageHasNoReplace)
    else
      var url := if !Truthy(url) && Truthy(page) then VStr(UrlPrefix + RemoveSpaces(page.s)) else url;
      var text := GetOr(ad, "adText", VStr(""));
      if Truthy(text) then Ok(Fields(page, url, text))
      else
        var snapshot := Or(Get(ad, "snapshot"), VDict(map[]));
        if !snapshot.VDict? then Err(SnapshotHasNoGet)
        else
          var body := Or(Get(snapshot.entries, "body"), VDict(map[]));
          if !body.VDict? then Err(BodyHasNoGet)
          else Ok(Fields(page, url, GetOr(body.entries, "text", VStr(""))))
  }

  /** `ad.get("snapshot") or {}` (line 50). */
  function SnapshotOr(ad: Record): Value
  {
    Or(Get(ad, "snapshot"), VDict(map[]))
  }

  /** `snapshot.get("body") or {}` (line 51). */
  function BodyOr(snapshot: Value): Value
    requires snapshot.VDict?
  {
    Or(Get(snapshot.entries, "body"), VDict(map[]))
  }

  /** `page.replace` is called on a page that has no such method: the
      record has no truthy `pageUrl` and a truthy page that is not a str. */
  predicate PageRaises(ad: Record)
  {
    !Truthy(Get(ad, "pageUrl")) && Truthy(PageOf(ad)) && !PageOf(ad).VStr?
  }

  /** `get` is called on a snapshot or body that is not a dict: `adText` is
      falsy and the snapshot, or the body inside a dict snapshot, is a
      truthy non-dict. */
  predicate NestingRaises(ad: Record)
  {
    && !Truthy(GetOr(ad, "adText", VStr("")))
    && (!SnapshotOr(ad).VDict? || !BodyOr(SnapshotOr(ad)).VDict?)
  }

  /** The text that reaches `.strip()` on line 58 is a str: a truthy
      `adText`, or else the `text` of the nested body. */
  predicate TextIsStr(ad: Record)
    requires !NestingRaises(ad)
  {
    var adText := GetOr(ad, "adText", VStr(""));
    if Truthy(adText) then adText.VStr?
    else GetOr(BodyOr(SnapshotOr(ad)).entries, "text", VStr("")).VStr?
  }

  /** Lines 42-52 raise exactly on a bad page or a bad nesting, and then
      with the fault of the operation that fails first. */
  lemma ExtractFieldsRaises(ad: Record)
    ensures ExtractFields(ad).Err? <==> PageRaises(ad) || NestingRaises(ad)
    ensures PageRaises(ad) ==> ExtractFields(ad) == Err(PageHasNoReplace)
    ensures !PageRaises(ad) && NestingRaises(ad) && !SnapshotOr(ad).VDict? ==> ExtractFields(ad) == Err(SnapshotHasNoGet)
    ensures !PageRaises(ad) && NestingRaises(ad) && SnapshotOr(ad).VDict? ==> ExtractFields(ad) == Err(BodyHasNoGet)
  {
  }

  /** What lines 42-52 produce for a record that does not raise there: the
      page, a truthy `pageUrl` or else (for a truthy page) the synthesised
      URL, and a truthy `adText` or else the nested body's `text`. */
  lemma ExtractFieldsValue(ad: Record)
    requires !PageRaises(ad) && !NestingRaises(ad)
    ensures ExtractFields(ad).Ok?
    ensures var f, url, adText := ExtractFields(ad).value, Get(ad, "pageUrl"), GetOr(ad, "adText", VStr(""));
      && f.page == PageOf(ad)
      && (Truthy(url) || !Truthy(PageOf(ad)) ==> f.url == url)
      && (!Truthy(url) && Truthy(PageOf(ad)) ==> f.url == VStr(UrlPrefix + RemoveSpaces(PageOf(ad).s)))
      && (Truthy(adText) ==> f.text == adText)
      && (!Truthy(adText) ==> f.text == GetOr(BodyOr(SnapshotOr(ad)).entries, "text", VStr("")))
  {
  }

  /** Python's `t or "N/A"` on a str. */
  function OrNotAvailable(t: string): string
  {
    if t == "" then NotAvailable else t
  }

  /** The row appended for a first-seen page (lines 55-59). */
  function RowOf(f: Fields): (row: AdRow)
    requires f.text.VStr?
    ensures row.adText.VStr? && row.adText.s != "" && Trimmed(row.adText.s)
  {
    StripSpec(f.text.s);
    AdRow(f.page, f.url, VStr(OrNotAvailable(Strip(f.text.s))))
  }

  /** The row a record yields when it is the first with its page name, if
      handling it does not raise. */
  function RowFor(ad: Record): (r: Option<AdRow>)
    ensures r.Some? ==> r.value.pageName == PageOf(ad)
    ensures r.Some? ==> r.value.adText.VStr? && r.value.adText.s != "" && Trimmed(r.value.adText.s)
    ensures r.Some? && Truthy(Get(ad, "pageUrl")) ==> r.value.pageUrl == Get(ad, "pageUrl")
    ensures r.Some? && Truthy(PageOf(ad)) && !Truthy(Get(ad, "pageUrl")) ==>
      PageOf(ad).VStr? && r.value.pageUrl == VStr(UrlPrefix + RemoveSpaces(PageOf(ad).s))
  {
    match ExtractFields(ad)
    case Ok(f) => if f.text.VStr? then Some(RowOf(f)) else None
    case Err(_) => None
  }

  /** A record yields a row exactly when lines 42-52 do not raise and the
      text that reaches `.strip()` is a str. */
  lemma RowForIff(ad: Record)
    ensures RowFor(ad).Some? <==> !PageRaises(ad) && !NestingRaises(ad) && TextIsStr(ad)
  {
    ExtractFieldsRaises(ad);
    if !PageRaises(ad) && !NestingRaises(ad) { ExtractFieldsValue(ad); }
  }

  /** Handling a record raises exactly on a bad page, a bad nesting, a
      truthy unhashable page, or, for a page not yet seen, a text that is not
      a str. */
  lemma RaisesOnIff(ad: Record, first: bool)
    ensures RaisesOn(ad, first) <==>
      || PageRaises(ad)
      || NestingRaises(ad)
      || (Truthy(PageOf(ad)) && !Hashable(PageOf(ad)))
      || (first && Truthy(PageOf(ad)) && !TextIsStr(ad))
  {
    ExtractFieldsRaises(ad);
    RowForIff(ad);
  }

  /** A record whose page is falsy or a str and whose `adText` is a
      non-empty str never raises, and yields the row of its page, its URL
      and its stripped text. */
  lemma WellFormedAdKept(ad: Record, first: bool)
    requires !Truthy(PageOf(ad)) || PageOf(ad).VStr?
    requires var adText := GetOr(ad, "adText", VStr("")); adText.VStr? && adText.s != ""
    ensures !RaisesOn(ad, first)
    ensures RowFor(ad).Some?
    ensures RowFor(ad).value.adText == VStr(OrNotAvailable(Strip(GetOr(ad, "adText", VStr("")).s)))
  {
    RaisesOnIff(ad, first);
    RowForIff(ad);
  }

  /** The dedup key of a record: its page when that is truthy. */
  function PageKey(ad: Record): Option<Value>
  {
    var page := PageOf(ad);
    if Truthy(page) then Some(page) else None
  }

  ghost function PageKeys(data: seq<Record>): (keys: seq<Option<Value>>)
    ensures |keys| == |data|
  {
    seq(|data|, i requires 0 <= i < |data| => PageKey(data[i]))
  }

  /** Indices of the records that are first with their page name. */
  ghost function FirstPages(data: seq<Record>): seq<nat>
  {
    FirstIndices(PageKeys(data), AllKept(|data|))
  }

  /** Handling record `ad` raises, `first` telling whether its page is not
      yet in `seen`: a malformed page, snapshot or body (checked for every
      record), a truthy unhashable page, or a text that is not a str on a
      page seen for the first time. */
  predicate RaisesOn(ad: Record, first: bool)
  {
    || ExtractFields(ad).Err?
    || (Truthy(PageOf(ad)) && (!Hashable(PageOf(ad)) || (first && RowFor(ad).None?)))
  }

  /** Handling `data[i]` raises. */
  ghost predicate RaisesAt(data: seq<Record>, i: int)
    requires 0 <= i < |data|
  {
    RaisesOn(data[i], IsFirst(PageKeys(data), i))
  }

  /** `rows` holds one row per page name, built from its first record, in
      the order in which the page names first occur. */
  ghost predicate FromFirstOccurrences(data: seq<Record>, rows: seq<AdRow>)
  {
    var fi := FirstPages(data);
    && |rows| == |fi|
    && forall k :: 0 <= k < |rows| ==> fi[k] < |data| && RowFor(data[fi[k]]) == Some(rows[k])
  }

  /** The local variables `seen` and `clean` of the loop. */
  datatype State = State(seen: set<Value>, rows: seq<AdRow>)

  /** One iteration of the loop (lines 42-60). */
  function Step(st: State, ad: Record): Result<State, Fault>
  {
    match ExtractFields(ad)
    case Err(fault) => Err(fault)
    case Ok(f) =>
      if !Truthy(f.page) then Ok(st)
      else if !Hashable(f.page) then Err(PageUnhashable)
      else if f.page in st.seen then Ok(st)
      else if !f.text.VStr? then Err(TextHasNoStrip)
      else Ok(State(st.seen + {f.page}, st.rows + [RowOf(f)]))
  }

  /** The loop state after the records of `data`, or the exception raised. */
  function CleanPrefix(data: seq<Record>): Result<State, Failure>
  {
    if data == [] then Ok(State({}, []))
    else
      var n := |data| - 1;
      match CleanPrefix(data[..n])
      case Err(e) => Err(e)
      case Ok(st) =>
        match Step(st, data[n])
        case Err(fault) => Err(Failure(n, fault))
        case Ok(st') => Ok(st')
  }

  /** The result of `clean_ads(data)` as a table of rows. */
  function CleanAdsSpec(data: seq<Record>): Result<seq<AdRow>, Failure>
  {
    match CleanPrefix(data)
    case Ok(st) => Ok(st.rows)
    case Err(e) => Err(e)
  }

  /** One iteration raises exactly when `RaisesOn` says so, and otherwise
      appends the record's row when its page is truthy and not yet seen. */
  lemma StepCases(st: State, ad: Record)
    ensures var first := PageKey(ad).Some? && PageOf(ad) !in st.seen;
      && (Step(st, ad).Err? <==> RaisesOn(ad, first))
      && (Step(st, ad).Ok? ==>
            Step(st, ad).value ==
              if first then State(st.seen + {PageOf(ad)}, st.rows + [RowFor(ad).value]) else st)
  {
  }

  /** Whether a record raises depends only on the records up to it. */
  lemma RaisesAtPrefix(data: seq<Record>, n: nat, i: nat)
    requires i < n <= |data|
    ensures RaisesAt(data[..n], i) == RaisesAt(data, i)
  {
    var keys, pk := PageKeys(data), PageKeys(data[..n]);
    assert data[..n][i] == data[i];
    assert forall j :: 0 <= j <= i ==> pk[j] == keys[j];
    assert IsFirst(pk, i) == IsFirst(keys, i);
  }

  /** The first-occurrence indices grow by the last record exactly when it is
      the first with its page name. */
  lemma FirstPagesSnoc(data: seq<Record>)
    requires data != []
    ensures var n := |data| - 1;
      && PageKeys(data)[..n] == PageKeys(data[..n])
      && FirstPages(data) == FirstPages(data[..n]) + (if IsFirst(PageKeys(data), n) then [n] else [])
  {
    var n := |data| - 1;
    assert PageKeys(data)[..n] == PageKeys(data[..n]);
    assert AllKept(n + 1)[..n] == AllKept(n);
  }

  /** The loop invariant carried over one more record that does not raise. */
  lemma OkSnoc(data: seq<Record>, st: State)
    requires data != []
    requires var n := |data| - 1;
      && st.seen == Seen(PageKeys(data[..n]))
      && FromFirstOccurrences(data[..n], st.rows)
    ensures var n := |data| - 1;
      && (Step(st, data[n]).Err? <==> RaisesAt(data, n))
      && (Step(st, data[n]).Ok? ==>
            && Step(st, data[n]).value.seen == Seen(PageKeys(data))
            && FromFirstOccurrences(data, Step(st, data[n]).value.rows))
  {
    var n := |data| - 1;
    var p := data[..n];
    var keys := PageKeys(data);
    FirstPagesSnoc(data);
    IsFirstLast(keys);
    var first := PageKey(data[n]).Some? && PageOf(data[n]) !in st.seen;
    assert first == IsFirst(keys, n);
    StepCases(st, data[n]);
    if Step(st, data[n]).Ok? {
      var st' := Step(st, data[n]).value;
      assert keys == PageKeys(p) + [PageKey(data[n])];
      SeenSnoc(PageKeys(p), PageKey(data[n]));
      var fi := FirstPages(data);
      forall k | 0 <= k < |st'.rows| ensures fi[k] < |data| && RowFor(data[fi[k]]) == Some(st'.rows[k]) {
        if k < |st.rows| {
          assert fi[k] == FirstPages(p)[k];
          assert p[fi[k]] == data[fi[k]];
        }
      }
    }
  }

  /** What the loop computes: it raises exactly when some record raises,
      and then at the first such record; otherwise `seen` holds every truthy
      page and the rows are built from the first occurrences, in order. */
  lemma {:induction false} CleanPrefixMeaning(data: seq<Record>)
    ensures CleanPrefix(data).Ok? <==> forall i :: 0 <= i < |data| ==> !RaisesAt(data, i)
    ensures CleanPrefix(data).Ok? ==>
      && CleanPrefix(data).value.seen == Seen(PageKeys(data))
      && FromFirstOccurrences(data, CleanPrefix(data).value.rows)
    ensures CleanPrefix(data).Err? ==>
      var e := CleanPrefix(data).error;
      && e.index < |data| && RaisesAt(data, e.index)
      && forall j :: 0 <= j < e.index ==> !RaisesAt(data, j)
  {
    if data != [] {
      var n := |data| - 1;
      var p := data[..n];
      CleanPrefixMeaning(p);
      forall i | 0 <= i < n ensures RaisesAt(p, i) == RaisesAt(data, i) {
        RaisesAtPrefix(data, n, i);
      }
      if CleanPrefix(p).Ok? {
        OkCaseSnoc(data);
      } else {
        ErrSnoc(data);
      }
    }
  }

  /** One more record after a prefix that did not raise: the result raises
      exactly when that record does, and otherwise the invariant carries over. */
  lemma OkCaseSnoc(data: seq<Record>)
    requires data != []
    requires var p := data[..|data| - 1];
      && CleanPrefix(p).Ok?
      && CleanPrefix(p).value.seen == Seen(PageKeys(p))
      && FromFirstOccurrences(p, CleanPrefix(p).value.rows)
      && forall i :: 0 <= i < |p| ==> !RaisesAt(p, i)
    requires forall i :: 0 <= i < |data| - 1 ==> RaisesAt(data[..|data| - 1], i) == RaisesAt(data, i)
    ensures CleanPrefix(data).Ok? <==> forall i :: 0 <= i < |data| ==> !RaisesAt(data, i)
    ensures CleanPrefix(data).Ok? ==>
      && CleanPrefix(data).value.seen == Seen(PageKeys(data))
      && FromFirstOccurrences(data, CleanPrefix(data).value.rows)
    ensures CleanPrefix(data).Err? ==>
      var e := CleanPrefix(data).error;
      && e.index < |data| && RaisesAt(data, e.index)
      && forall j :: 0 <= j < e.index ==> !RaisesAt(data, j)
  {
    OkSnoc(data, CleanPrefix(data[..|data| - 1]).value);
  }

  /** Once a prefix has raised, one more record leaves the exception as it
      is, and the first raising record stays the first. */
  lemma ErrSnoc(data: seq<Record>)
    requires data != []
    requires var p := data[..|data| - 1];
      && CleanPrefix(p).Err?
      && CleanPrefix(p).error.index < |p| && RaisesAt(p, CleanPrefix(p).error.index)
      && forall j :: 0 <= j < CleanPrefix(p).error.index ==> !RaisesAt(p, j)
    requires forall i :: 0 <= i < |data| - 1 ==> RaisesAt(data[..|data| - 1], i) == RaisesAt(data, i)
    ensures CleanPrefix(data) == CleanPrefix(data[..|data| - 1])
    ensures var e := CleanPrefix(data).error;
      && e.index < |data| && RaisesAt(data, e.index)
      && forall j :: 0 <= j < e.index ==> !RaisesAt(data, j)
  {
  }

  /** `clean_ads` (lines 37-61), the DataFrame being its list of rows. */
  method CleanAds(data: seq<Record>) returns (r: Result<seq<AdRow>, Failure>)
    ensures r == CleanAdsSpec(data)
    ensures r.Ok? <==> forall i :: 0 <= i < |data| ==> !RaisesAt(data, i)
    ensures r.Ok? ==> FromFirstOccurrences(data, r.value)
    ensures r.Err? ==>
      && r.error.index < |data| && RaisesAt(data, r.error.index)
      && forall j :: 0 <= j < r.error.index ==> !RaisesAt(data, j)
  {
    var seen: set<Value> := {};
    var clean: seq<AdRow> := [];
    var i := 0;
    while i < |data|
      invariant 0 <= i <= |data|
      invariant CleanPrefix(data[..i]) == Ok(State(seen, clean))
    {
      assert data[..i + 1][..i] == data[..i];
      var ad := data[i];
      var fault: Option<Fault> := None;
      var page := PageOf(ad);
      var url := Get(ad, "pageUrl");
      if !Truthy(url) && Truthy(page) {
        if !page.VStr? {
          fault := Some(PageHasNoReplace);
        } else {
          url := VStr(UrlPrefix + RemoveSpaces(page.s));
        }
      }
      var adText := GetOr(ad, "adText", VStr(""));
      if fault == None && !Truthy(adText) {
        var snapshot := SnapshotOr(ad);
        if !snapshot.VDict? {
          fault := Some(SnapshotHasNoGet);
        } else {
          var body := BodyOr(snapshot);
          if !body.VDict? {
            fault := Some(BodyHasNoGet);
          } else {
            adText := GetOr(body.entries, "text", VStr(""));
          }
        }
      }
      if fault == None && Truthy(page) {
        if !Hashable(page) {
          fault := Some(PageUnhashable);
        } else if page !in seen {
          if !adText.VStr? {
            fault := Some(TextHasNoStrip);
          } else {
            clean := clean + [AdRow(page, url, VStr(OrNotAvailable(Strip(adText.s))))];
            seen := seen + {page};
          }
        }
      }
      if fault.Some? {
        r := Err(Failure(i, fault.value));
        ErrPersists(data, i + 1);
        CleanPrefixMeaning(data);
        return;
      }
      i := i + 1;
    }
    assert data[..i] == data;
    r := Ok(clean);
    CleanPrefixMeaning(data);
  }

  /** Once a prefix raises, the whole input raises the same exception. */
  lemma {:induction false} ErrPersists(data: seq<Record>, m: nat)
    requires m <= |data| && CleanPrefix(data[..m]).Err?
    ensures CleanPrefix(data) == CleanPrefix(data[..m])
    decreases |data| - m
  {
    if m < |data| {
      assert data[..m + 1][..m] == data[..m];
      ErrPersists(data, m + 1);
    } else {
      assert data[..m] == data;
    }
  }

  /** Where the stored text comes from: `adText` when truthy, otherwise
      `snapshot.body.text`, a missing or falsy snapshot or body counting as
      an empty dict; the stored text is that text stripped, or "N/A". */
  lemma RowText(ad: Record)
    requires RowFor(ad).Some?
    ensures var adText := GetOr(ad, "adText", VStr(""));
      var stored := RowFor(ad).value.adText.s;
      && (Truthy(adText) ==> adText.VStr? && stored == OrNotAvailable(Strip(adText.s)))
      && (!Truthy(adText) && !Truthy(Get(ad, "snapshot")) ==> stored == NotAvailable)
      && (!Truthy(adText) && Truthy(Get(ad, "snapshot")) ==>
            var snapshot := Get(ad, "snapshot");
            && snapshot.VDict?
            && (!Truthy(Get(snapshot.entries, "body")) ==> stored == NotAvailable)
            && (Truthy(Get(snapshot.entries, "body")) ==>
                  var body := Get(snapshot.entries, "body");
                  var text := GetOr(body.entries, "text", VStr(""));
                  body.VDict? && text.VStr? && stored == OrNotAvailable(Strip(text.s))))
  {
  }

  /** The rows of a successful `clean_ads` are exactly one per first
      occurrence of a truthy page name, built from that record, in input
      order: `rows[k]` comes from record `origin[k]`, the origins increase,
      and every first occurrence is some row's origin. */
  lemma CleanAdsRows(data: seq<Record>, rows: seq<AdRow>)
    requires CleanAdsSpec(data) == Ok(rows)
    ensures var origin := FirstPages(data);
      && |rows| == |origin|
      && (forall k :: 0 <= k < |rows| ==>
            origin[k] < |data| && IsFirst(PageKeys(data), origin[k]) && RowFor(data[origin[k]]) == Some(rows[k]))
      && (forall a, b :: 0 <= a < b < |rows| ==> origin[a] < origin[b])
      && (forall i :: 0 <= i < |data| && IsFirst(PageKeys(data), i) ==> i in origin)
  {
    CleanPrefixMeaning(data);
    FirstIndicesCharacterized(PageKeys(data), AllKept(|data|));
  }

  /** No two rows share a page name. */
  lemma CleanAdsPageNamesDistinct(data: seq<Record>, rows: seq<AdRow>)
    requires CleanAdsSpec(data) == Ok(rows)
    ensures forall a, b :: 0 <= a < |rows| && 0 <= b < |rows| && a != b ==> rows[a].pageName != rows[b].pageName
  {
    CleanAdsRows(data, rows);
    FirstKeysDistinct(PageKeys(data), AllKept(|data|));
    var origin := FirstPages(data);
    forall a, b | 0 <= a < |rows| && 0 <= b < |rows| && a != b
      ensures rows[a].pageName != rows[b].pageName
    {
      assert PageKeys(data)[origin[a]] != PageKeys(data)[origin[b]];
    }
  }

  /** Every record with a truthy page name is represented by the row of its
      page name. */
  lemma CleanAdsCoversPages(data: seq<Record>, rows: seq<AdRow>)
    requires CleanAdsSpec(data) == Ok(rows)
    ensures forall i :: 0 <= i < |data| && Truthy(PageOf(data[i])) ==>
      exists k :: 0 <= k < |rows| && rows[k].pageName == PageOf(data[i])
  {
    CleanAdsRows(data, rows);
    var origin, keys := FirstPages(data), PageKeys(data);
    forall i | 0 <= i < |data| && Truthy(PageOf(data[i]))
      ensures exists k :: 0 <= k < |rows| && rows[k].pageName == PageOf(data[i])
    {
      assert keys[i] == Some(PageOf(data[i]));
      var f := FirstWithKey(keys, i);
      assert f in origin;
      var k :| 0 <= k < |origin| && origin[k] == f;
      assert rows[k].pageName == PageOf(data[f]);
    }
  }

  /** The table has one row per distinct truthy page name, so it is never
      longer than the input. */
  lemma CleanAdsCount(data: seq<Record>, rows: seq<AdRow>)
    requires CleanAdsSpec(data) == Ok(rows)
    ensures |rows| == |set i | 0 <= i < |data| && Truthy(PageOf(data[i])) :: PageOf(data[i])| <= |data|
  {
    CleanAdsRows(data, rows);
    FirstIndicesCount(PageKeys(data), AllKept(|data|));
    var keys := PageKeys(data);
    var pages := set i | 0 <= i < |data| && Truthy(PageOf(data[i])) :: PageOf(data[i]);
    forall x | x in pages ensures x in Seen(keys) {
      var i :| 0 <= i < |data| && Truthy(PageOf(data[i])) && PageOf(data[i]) == x;
      assert keys[i] == Some(x);
    }
    forall x | x in Seen(keys) ensures x in pages {
      var i :| 0 <= i < |keys| && keys[i].Some? && keys[i].value == x;
      assert Truthy(PageOf(data[i]));
    }
    assert Seen(keys) == pages;
  }

  /** Each row's page name is the truthy page name of its record, so a
      record without `pageName` and `page_name` yields nothing; every stored
      text is non-empty and has no surrounding whitespace; a truthy `pageUrl`
      is kept, otherwise the URL is the www prefix followed by the page name
      without its spaces. */
  lemma CleanAdsRowFields(data: seq<Record>, rows: seq<AdRow>)
    requires CleanAdsSpec(data) == Ok(rows)
    ensures var origin := FirstPages(data);
      && |origin| == |rows|
      && forall k :: 0 <= k < |rows| ==>
        && origin[k] < |data|
        && rows[k].pageName == PageOf(data[origin[k]]) && Truthy(rows[k].pageName)
        && rows[k].adText.VStr? && rows[k].adText.s != "" && Trimmed(rows[k].adText.s)
        && (Truthy(Get(data[origin[k]], "pageUrl")) ==> rows[k].pageUrl == Get(data[origin[k]], "pageUrl"))
        && (!Truthy(Get(data[origin[k]], "pageUrl")) ==>
              rows[k].pageName.VStr? && rows[k].pageUrl == VStr(UrlPrefix + RemoveSpaces(rows[k].pageName.s)))
  {
    CleanAdsRows(data, rows);
    var origin, keys := FirstPages(data), PageKeys(data);
    forall k | 0 <= k < |rows| ensures Truthy(PageOf(data[origin[k]])) {
      assert keys[origin[k]].Some?;
    }
  }
}
