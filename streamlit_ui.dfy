/** The two loops of streamlit_UI.py: the cleaning loop of `scrape_meta_ads`
    (Phase 1) and `enrich_facebook_pages` (Phase 2). The Apify calls around
    them are left out, except for the page-scraper call that Phase 2 makes
    once per page, which is the parameter `lookup`. `st.warning` messages
    are collected, in order, in a list of `Warning`s. */
module StreamlitUI {
  import opened Wrappers
  import opened PyStrings
  import opened Records
  import opened FirstSeen

  /** Prefix of the Phase 1 page URL (no `www.`). */
  const BareUrlPrefix: string := "https://facebook.com/"

  /** Prefix of the URL handed to the page scraper in Phase 2. */
  const WwwUrlPrefix: string := "https://www.facebook.com/"

  /** A message shown with `st.warning`. */
  datatype Warning =
    | InvalidSnapshot(page: Value)  // `snapshot` is not a dict
    | InvalidBody(page: Value)      // `body` is not a dict
    | AdFailed(page: Value)         // an exception while handling one ad
    | ScrapeFailed(url: string)     // an exception while enriching one page

  // ---------------------------------------------------------------------
  // Phase 1: the cleaning loop of `scrape_meta_ads`
  // ---------------------------------------------------------------------

  /** The key under which `seen` admits an ad: a truthy page that can be
      hashed (for a list or dict page, `page in seen` raises). */
  function ScrapeKey(ad: Record): Option<Value>
  {
    var page := PageOf(ad);
    if Truthy(page) && Hashable(page) then Some(page) else None
  }

  ghost function ScrapeKeys(items: seq<Record>): (keys: seq<Option<Value>>)
    ensures |keys| == |items|
  {
    seq(|items|, i requires 0 <= i < |items| => ScrapeKey(items[i]))
  }

  /** The text lookup for an admitted ad (lines 54-64): either the text with
      the warnings it produced, or the exception of `.strip()` on a nested
      text that is not a str. */
  datatype TextOutcome = Text(text: Value, warnings: seq<Warning>) | TextRaised

  function ExtractText(ad: Record, page: Value): (r: TextOutcome)
    ensures Truthy(GetOr(ad, "adText", VStr(""))) ==> r == Text(GetOr(ad, "adText", VStr("")), [])
  {
    var adText := GetOr(ad, "adText", VStr(""));
    if Truthy(adText) then Text(adText, [])
    else
      var snapshot := GetOr(ad, "snapshot", VDict(map[]));
      if !snapshot.VDict? then Text(adText, [InvalidSnapshot(page)])
      else
        var body := GetOr(snapshot.entries, "body", VDict(map[]));
        if !body.VDict? then Text(adText, [InvalidBody(page)])
        else
          var text := GetOr(body.entries, "text", VStr(""));
          if !text.VStr? then TextRaised else Text(VStr(Strip(text.s)), [])
  }

  /** What an ad whose page has just been added to `seen` contributes. */
  datatype Admitted = Admitted(row: Option<AdRow>, warnings: seq<Warning>)

  /** Lines 53-73 for an admitted ad: the row, unless extracting the text or
      `page.replace` raises, in which case the exception becomes a warning. */
  function Admit(ad: Record): (a: Admitted)
    ensures a.row.Some? ==>
      && a.row.value.pageName == PageOf(ad) && PageOf(ad).VStr?
      && a.row.value.pageUrl == VStr(BareUrlPrefix + RemoveSpaces(PageOf(ad).s))
    ensures a.row.None? ==> AdFailed(PageOf(ad)) in a.warnings
  {
    var page := PageOf(ad);
    match ExtractText(ad, page)
    case TextRaised => Admitted(None, [AdFailed(page)])
    case Text(text, ws) =>
      if !page.VStr? then Admitted(None, ws + [AdFailed(page)])
      else Admitted(Some(AdRow(page, VStr(BareUrlPrefix + RemoveSpaces(page.s)), text)), ws)
  }

  /** An admitted ad yields no row exactly when `page.replace` fails on a
      page that is not a str, or when its nested `text`, read through a
      dict snapshot and a dict body, is not a str and `.strip()` fails. */
  lemma AdmitFailsIff(ad: Record)
    ensures var adText, snapshot := GetOr(ad, "adText", VStr("")), GetOr(ad, "snapshot", VDict(map[]));
      Admit(ad).row.None? <==>
        || !PageOf(ad).VStr?
        || (&& !Truthy(adText) && snapshot.VDict?
            && GetOr(snapshot.entries, "body", VDict(map[])).VDict?
            && !GetOr(GetOr(snapshot.entries, "body", VDict(map[])).entries, "text", VStr("")).VStr?)
  {
  }

  /** A snapshot that is not a dict is reported and does not stop the ad:
      its falsy `adText` is kept unchanged (lines 57, 63-64). */
  lemma AdmitInvalidSnapshot(ad: Record)
    requires !Truthy(GetOr(ad, "adText", VStr("")))
    requires !GetOr(ad, "snapshot", VDict(map[])).VDict?
    ensures var page := PageOf(ad);
      && Admit(ad).warnings[0] == InvalidSnapshot(page)
      && (page.VStr? ==>
            Admit(ad) == Admitted(Some(AdRow(page, VStr(BareUrlPrefix + RemoveSpaces(page.s)), GetOr(ad, "adText", VStr("")))), [InvalidSnapshot(page)]))
      && (!page.VStr? ==> Admit(ad) == Admitted(None, [InvalidSnapshot(page), AdFailed(page)]))
  {
  }

  /** A body that is not a dict inside a dict snapshot is reported and does
      not stop the ad: its falsy `adText` is kept unchanged (lines 58-62). */
  lemma AdmitInvalidBody(ad: Record)
    requires !Truthy(GetOr(ad, "adText", VStr("")))
    requires var snapshot := GetOr(ad, "snapshot", VDict(map[]));
      snapshot.VDict? && !GetOr(snapshot.entries, "body", VDict(map[])).VDict?
    ensures var page := PageOf(ad);
      && Admit(ad).warnings[0] == InvalidBody(page)
      && (page.VStr? ==>
            Admit(ad) == Admitted(Some(AdRow(page, VStr(BareUrlPrefix + RemoveSpaces(page.s)), GetOr(ad, "adText", VStr("")))), [InvalidBody(page)]))
      && (!page.VStr? ==> Admit(ad) == Admitted(None, [InvalidBody(page), AdFailed(page)]))
  {
  }

  /** Only the nested text is stripped: with a falsy `adText`, a dict
      snapshot and body and a str `text`, the row of a str page stores that
      text stripped, and nothing is reported (lines 55-60, 66-70). */
  lemma AdmitNestedText(ad: Record)
    requires !Truthy(GetOr(ad, "adText", VStr("")))
    requires var snapshot := GetOr(ad, "snapshot", VDict(map[]));
      && snapshot.VDict? && GetOr(snapshot.entries, "body", VDict(map[])).VDict?
      && GetOr(GetOr(snapshot.entries, "body", VDict(map[])).entries, "text", VStr("")).VStr?
    requires PageOf(ad).VStr?
    ensures var body := GetOr(GetOr(ad, "snapshot", VDict(map[])).entries, "body", VDict(map[]));
      && Admit(ad).row.Some? && Admit(ad).warnings == []
      && Admit(ad).row.value.adText == VStr(Strip(GetOr(body.entries, "text", VStr("")).s))
  {
  }

  /** Whether each ad, if admitted, yields a row. */
  ghost function Admits(items: seq<Record>): (keep: seq<bool>)
    ensures |keep| == |items|
  {
    seq(|items|, i requires 0 <= i < |items| => Admit(items[i]).row.Some?)
  }

  /** Indices of the ads that are first with their page and yield a row. */
  ghost function ScrapeOrigins(items: seq<Record>): seq<nat>
  {
    FirstIndices(ScrapeKeys(items), Admits(items))
  }

  /** The local variables `seen` and `clean`, and the warnings shown. */
  datatype ScrapeState = ScrapeState(seen: set<Value>, rows: seq<AdRow>, warnings: seq<Warning>)

  /** One iteration of the loop (lines 46-73). */
  function ScrapeStep(st: ScrapeState, ad: Record): ScrapeState
  {
    var page := PageOf(ad);
    if !Truthy(page) then st
    else if !Hashable(page) then st.(warnings := st.warnings + [AdFailed(page)])
    else if page in st.seen then st
    else
      var a := Admit(ad);
      ScrapeState(st.seen + {page}, st.rows + (if a.row.Some? then [a.row.value] else []), st.warnings + a.warnings)
  }

  /** The loop state after the ads of `items`. */
  function ScrapePrefix(items: seq<Record>): ScrapeState
  {
    if items == [] then ScrapeState({}, [], [])
    else ScrapeStep(ScrapePrefix(items[..|items| - 1]), items[|items| - 1])
  }

  /** `rows` holds one row per admitted ad that did not fail, in order. */
  ghost predicate FromAdmitted(items: seq<Record>, rows: seq<AdRow>)
  {
    var origin := ScrapeOrigins(items);
    && |rows| == |origin|
    && forall k :: 0 <= k < |rows| ==> origin[k] < |items| && Admit(items[origin[k]]).row == Some(rows[k])
  }

  /** The first-occurrence indices grow by the last ad exactly when it is the
      first with its page and yields a row. */
  lemma ScrapeOriginsSnoc(items: seq<Record>)
    requires items != []
    ensures var n := |items| - 1;
      && ScrapeKeys(items)[..n] == ScrapeKeys(items[..n])
      && ScrapeOrigins(items) ==
           ScrapeOrigins(items[..n]) + (if IsFirst(ScrapeKeys(items), n) && Admit(items[n]).row.Some? then [n] else [])
  {
    var n := |items| - 1;
    assert ScrapeKeys(items)[..n] == ScrapeKeys(items[..n]);
    assert Admits(items)[..n] == Admits(items[..n]);
  }

  /** The loop invariant: `seen` holds every truthy hashable page met so far,
      including those of ads that then failed, and the rows are those of the
      first occurrences that did not fail. */
  lemma {:induction false} ScrapePrefixMeaning(items: seq<Record>)
    ensures ScrapePrefix(items).seen == Seen(ScrapeKeys(items))
    ensures FromAdmitted(items, ScrapePrefix(items).rows)
  {
    if items != [] {
      var n := |items| - 1;
      var p := items[..n];
      ScrapePrefixMeaning(p);
      var keys := ScrapeKeys(items);
      var st := ScrapePrefix(p);
      ScrapeOriginsSnoc(items);
      IsFirstLast(keys);
      assert keys == ScrapeKeys(p) + [ScrapeKey(items[n])];
      SeenSnoc(ScrapeKeys(p), ScrapeKey(items[n]));
      var st' := ScrapePrefix(items);
      var origin := ScrapeOrigins(items);
      forall k | 0 <= k < |st'.rows| ensures origin[k] < |items| && Admit(items[origin[k]]).row == Some(st'.rows[k]) {
        if k < |st.rows| {
          assert origin[k] == ScrapeOrigins(p)[k];
          assert p[origin[k]] == items[origin[k]];
        }
      }
    }
  }

  /** The body of the `try` (lines 53-70) for an ad whose page has just
      been added to `seen`, with its `except` (lines 71-73). */
  method AdmitAd(ad: Record, page: Value) returns (row: Option<AdRow>, warnings: seq<Warning>)
    requires page == PageOf(ad)
    ensures Admitted(row, warnings) == Admit(ad)
  {
    warnings := [];
    var failed := false;
    var adText := GetOr(ad, "adText", VStr(""));
    if !Truthy(adText) {
      var snapshot := GetOr(ad, "snapshot", VDict(map[]));
      if snapshot.VDict? {
        var body := GetOr(snapshot.entries, "body", VDict(map[]));
        if body.VDict? {
          var text := GetOr(body.entries, "text", VStr(""));
          if text.VStr? {
            adText := VStr(Strip(text.s));
          } else {
            failed := true;
          }
        } else {
          warnings := warnings + [InvalidBody(page)];
        }
      } else {
        warnings := warnings + [InvalidSnapshot(page)];
      }
    }
    if !failed && !page.VStr? {
      failed := true;
    }
    if failed {
      row := None;
      warnings := warnings + [AdFailed(page)];
    } else {
      row := Some(AdRow(page, VStr(BareUrlPrefix + RemoveSpaces(page.s)), adText));
    }
  }

  /** The cleaning loop of `scrape_meta_ads` (lines 43-73) over the items of
      the ads-library dataset. Every exception is caught per ad, so the loop
      always completes. */
  method CleanScrapedAds(items: seq<Record>) returns (rows: seq<AdRow>, warnings: seq<Warning>)
    ensures rows == ScrapePrefix(items).rows && warnings == ScrapePrefix(items).warnings
    ensures FromAdmitted(items, rows)
  {
    var seen: set<Value> := {};
    rows, warnings := [], [];
    var i := 0;
    while i < |items|
      invariant 0 <= i <= |items|
      invariant ScrapePrefix(items[..i]) == ScrapeState(seen, rows, warnings)
    {
      assert items[..i + 1][..i] == items[..i];
      var ad := items[i];
      var page := PageOf(ad);
      if !Truthy(page) {
        // `continue`
      } else if !Hashable(page) {
        warnings := warnings + [AdFailed(page)];
      } else if page !in seen {
        seen := seen + {page};
        var row, ws := AdmitAd(ad, page);
        if row.Some? {
          rows := rows + [row.value];
        }
        warnings := warnings + ws;
      }
      i := i + 1;
    }
    assert items[..i] == items;
    ScrapePrefixMeaning(items);
  }

  /** The rows of the cleaning loop are exactly one per first occurrence of
      a truthy hashable page whose handling did not fail, built from that
      ad, in input order. */
  lemma ScrapeRows(items: seq<Record>)
    ensures var rows, origin := ScrapePrefix(items).rows, ScrapeOrigins(items);
      && |rows| == |origin|
      && (forall k :: 0 <= k < |rows| ==>
            && origin[k] < |items| && IsFirst(ScrapeKeys(items), origin[k])
            && Admit(items[origin[k]]).row == Some(rows[k]))
      && (forall a, b :: 0 <= a < b < |rows| ==> origin[a] < origin[b])
      && (forall i :: 0 <= i < |items| && IsFirst(ScrapeKeys(items), i) && Admit(items[i]).row.Some? ==> i in origin)
  {
    ScrapePrefixMeaning(items);
    FirstIndicesCharacterized(ScrapeKeys(items), Admits(items));
  }

  /** No two rows share a page name. */
  lemma ScrapePageNamesDistinct(items: seq<Record>)
    ensures var rows := ScrapePrefix(items).rows;
      forall a, b :: 0 <= a < |rows| && 0 <= b < |rows| && a != b ==> rows[a].pageName != rows[b].pageName
  {
    ScrapeRows(items);
    FirstKeysDistinct(ScrapeKeys(items), Admits(items));
    var rows, origin := ScrapePrefix(items).rows, ScrapeOrigins(items);
    forall a, b | 0 <= a < |rows| && 0 <= b < |rows| && a != b
      ensures rows[a].pageName != rows[b].pageName
    {
      assert ScrapeKeys(items)[origin[a]] != ScrapeKeys(items)[origin[b]];
    }
  }

  /** An ad that is first with its page but fails still leaves its page in
      `seen`: no row at all carries that page, whatever later ads hold. */
  lemma ScrapeFailureSuppressesPage(items: seq<Record>, i: int)
    requires IsFirst(ScrapeKeys(items), i) && Admit(items[i]).row.None?
    ensures forall k :: 0 <= k < |ScrapePrefix(items).rows| ==> ScrapePrefix(items).rows[k].pageName != PageOf(items[i])
  {
    ScrapeRows(items);
    var rows, origin, keys := ScrapePrefix(items).rows, ScrapeOrigins(items), ScrapeKeys(items);
    forall k | 0 <= k < |rows| ensures rows[k].pageName != PageOf(items[i]) {
      assert origin[k] != i;
      assert keys[origin[k]] != keys[i] by {
        if origin[k] < i { assert IsFirst(keys, i); } else { assert IsFirst(keys, origin[k]); }
      }
      assert keys[origin[k]] == Some(rows[k].pageName);
    }
  }

  /** Row fields: the page name is the ad's truthy str page name; the URL is
      always the bare prefix followed by the page name without spaces,
      whatever `pageUrl` the ad holds; a truthy `adText` is stored as is,
      unstripped. */
  lemma ScrapeRowFields(items: seq<Record>)
    ensures var rows, origin := ScrapePrefix(items).rows, ScrapeOrigins(items);
      && |origin| == |rows|
      && forall k :: 0 <= k < |rows| ==>
        && origin[k] < |items|
        && rows[k].pageName == PageOf(items[origin[k]]) && rows[k].pageName.VStr? && rows[k].pageName.s != ""
        && rows[k].pageUrl == VStr(BareUrlPrefix + RemoveSpaces(rows[k].pageName.s))
        && (Truthy(GetOr(items[origin[k]], "adText", VStr(""))) ==>
              rows[k].adText == GetOr(items[origin[k]], "adText", VStr("")))
  {
    ScrapeRows(items);
    var rows, origin, keys := ScrapePrefix(items).rows, ScrapeOrigins(items), ScrapeKeys(items);
    forall k | 0 <= k < |rows| ensures Truthy(PageOf(items[origin[k]])) {
      assert keys[origin[k]].Some?;
    }
  }

  /** The warnings only grow as the loop proceeds. */
  lemma {:induction false} ScrapeWarningsGrow(items: seq<Record>, m: nat)
    requires m <= |items|
    ensures ScrapePrefix(items[..m]).warnings <= ScrapePrefix(items).warnings
    decreases |items| - m
  {
    if m < |items| {
      ScrapeWarningsGrow(items, m + 1);
      assert items[..m + 1][..m] == items[..m];
    } else {
      assert items[..m] == items;
    }
  }

  /** One iteration warns about a truthy page that is unhashable, or that is
      new and yields no row. */
  lemma ScrapeStepWarns(st: ScrapeState, ad: Record)
    requires Truthy(PageOf(ad))
    requires !Hashable(PageOf(ad)) || (PageOf(ad) !in st.seen && Admit(ad).row.None?)
    ensures AdFailed(PageOf(ad)) in ScrapeStep(st, ad).warnings
  {
  }

  /** Before ad `i` is handled, its truthy hashable page is missing from
      `seen` exactly when ad `i` is the first with that page. */
  lemma ScrapeSeenBefore(items: seq<Record>, i: int)
    requires 0 <= i < |items| && ScrapeKey(items[i]).Some?
    ensures (PageOf(items[i]) !in ScrapePrefix(items[..i]).seen) == IsFirst(ScrapeKeys(items), i)
  {
    var q := items[..i + 1];
    var page := PageOf(items[i]);
    assert ScrapePrefix(items[..i]).seen == Seen(ScrapeKeys(q)[..i]) by {
      assert q[..i] == items[..i];
      ScrapePrefixMeaning(items[..i]);
      assert ScrapeKeys(q)[..i] == ScrapeKeys(items[..i]);
    }
    assert IsFirst(ScrapeKeys(q), i) <==> page !in Seen(ScrapeKeys(q)[..i]) by {
      IsFirstLast(ScrapeKeys(q));
      assert ScrapeKeys(q)[i] == Some(page);
    }
    assert IsFirst(ScrapeKeys(q), i) == IsFirst(ScrapeKeys(items), i) by {
      assert forall j :: 0 <= j <= i ==> ScrapeKeys(q)[j] == ScrapeKeys(items)[j];
    }
  }

  /** Every ad with a truthy page that is unhashable, or that is first with
      its page and yields no row, is reported by a warning naming its page. */
  lemma ScrapeFailuresWarned(items: seq<Record>, i: int)
    requires 0 <= i < |items| && Truthy(PageOf(items[i]))
    requires !Hashable(PageOf(items[i])) || (IsFirst(ScrapeKeys(items), i) && Admit(items[i]).row.None?)
    ensures AdFailed(PageOf(items[i])) in ScrapePrefix(items).warnings
  {
    ScrapeWarnsAt(items, i);
    ScrapeWarningStays(items, i + 1, AdFailed(PageOf(items[i])));
  }

  /** A warning shown after the first `m` ads is still shown at the end. */
  lemma ScrapeWarningStays(items: seq<Record>, m: nat, w: Warning)
    requires m <= |items|
    requires w in ScrapePrefix(items[..m]).warnings
    ensures w in ScrapePrefix(items).warnings
  {
    ScrapeWarningsGrow(items, m);
    InPrefix(ScrapePrefix(items[..m]).warnings, ScrapePrefix(items).warnings, w);
  }

  /** The iteration for ad `i` itself emits the warning. */
  lemma ScrapeWarnsAt(items: seq<Record>, i: int)
    requires 0 <= i < |items| && Truthy(PageOf(items[i]))
    requires !Hashable(PageOf(items[i])) || (IsFirst(ScrapeKeys(items), i) && Admit(items[i]).row.None?)
    ensures AdFailed(PageOf(items[i])) in ScrapePrefix(items[..i + 1]).warnings
  {
    if Hashable(PageOf(items[i])) {
      assert ScrapeKey(items[i]) == Some(PageOf(items[i]));
      ScrapeSeenBefore(items, i);
    }
    ScrapeStepWarns(ScrapePrefix(items[..i]), items[i]);
    ScrapePrefixSnoc(items, i);
  }

  /** The state after `i + 1` ads is one step from the state after `i`. */
  lemma ScrapePrefixSnoc(items: seq<Record>, i: int)
    requires 0 <= i < |items|
    ensures ScrapePrefix(items[..i + 1]) == ScrapeStep(ScrapePrefix(items[..i]), items[i])
  {
    assert items[..i + 1][..i] == items[..i];
  }

  /** What a prefix of a list holds, the list holds. */
  lemma InPrefix<T>(w: seq<T>, v: seq<T>, x: T)
    requires x in w && w <= v
    ensures x in v
  {
    var j :| 0 <= j < |w| && w[j] == x;
    assert v[j] == x;
  }

  /** Records that agree on every key except `pageUrl`. */
  ghost predicate SameButPageUrl(a: Record, b: Record)
  {
    a - {"pageUrl"} == b - {"pageUrl"}
  }

  lemma SameButPageUrlGet(a: Record, b: Record, k: string)
    requires SameButPageUrl(a, b) && k != "pageUrl"
    ensures (k in a <==> k in b) && (k in a ==> a[k] == b[k])
  {
    assert k in a <==> k in a - {"pageUrl"};
    assert k in b <==> k in b - {"pageUrl"};
    if k in a { assert a[k] == (a - {"pageUrl"})[k]; assert (b - {"pageUrl"})[k] == b[k]; }
  }

  /** Phase 1 never reads `pageUrl`: inputs that differ only there give the
      same rows and warnings. */
  lemma {:induction false} ScrapeIgnoresPageUrl(items: seq<Record>, items': seq<Record>)
    requires |items| == |items'|
    requires forall i :: 0 <= i < |items| ==> SameButPageUrl(items[i], items'[i])
    ensures ScrapePrefix(items') == ScrapePrefix(items)
  {
    if items != [] {
      var n := |items| - 1;
      ScrapeIgnoresPageUrl(items[..n], items'[..n]);
      AdmitIgnoresPageUrl(items[n], items'[n]);
    }
  }

  /** One ad: handling it does not read `pageUrl`. */
  lemma AdmitIgnoresPageUrl(a: Record, b: Record)
    requires SameButPageUrl(a, b)
    ensures PageOf(a) == PageOf(b) && Admit(a) == Admit(b)
  {
    SameButPageUrlGet(a, b, "pageName");
    SameButPageUrlGet(a, b, "page_name");
    SameButPageUrlGet(a, b, "adText");
    SameButPageUrlGet(a, b, "snapshot");
  }

  // ---------------------------------------------------------------------
  // Phase 2: `enrich_facebook_pages`
  // ---------------------------------------------------------------------

  /** The reply of the page-scraper actor for one page URL: the items of its
      dataset, or an exception raised by the actor call or the dataset read. */
  datatype Lookup = Fetched(items: seq<Record>) | LookupFailed

  /** A row of the enriched table (lines 101-110). */
  datatype EnrichedRow = EnrichedRow(
    pageName: string, pageUrl: string,
    website: Value, email: Value, phone: Value, category: Value, bio: Value, address: Value)

  /** `row.get("page_name", "").strip()` (line 87); `None` when the cell is
      not a str, so that `.strip()` raises. */
  function StrippedPage(row: Record): (r: Option<string>)
  {
    var cell := GetOr(row, "page_name", VStr(""));
    if cell.VStr? then Some(Strip(cell.s)) else None
  }

  /** Whether `row.get("page_name", "")` is a str, so that `.strip()` succeeds. */
  predicate PageNameIsStr(row: Record)
  {
    StrippedPage(row).Some?
  }

  /** The key under which `seen` admits a row: its non-empty stripped page name. */
  function EnrichKey(row: Record): Option<string>
  {
    match StrippedPage(row)
    case Some(page) => if page != "" then Some(page) else None
    case None => None
  }

  ghost function EnrichKeys(df: seq<Record>): (keys: seq<Option<string>>)
    ensures |keys| == |df|
  {
    seq(|df|, i requires 0 <= i < |df| => EnrichKey(df[i]))
  }

  /** The URL handed to the page scraper (line 92). */
  function PageUrl(page: string): (url: string)
  {
    WwwUrlPrefix + RemoveSpaces(page)
  }

  /** The six fields copied from the first item, `""` when absent (lines 101-110). */
  function Merge(page: string, data: Record): EnrichedRow
  {
    EnrichedRow(page, PageUrl(page),
      GetOr(data, "website", VStr("")), GetOr(data, "email", VStr("")), GetOr(data, "phone", VStr("")),
      GetOr(data, "category", VStr("")), GetOr(data, "bio", VStr("")), GetOr(data, "address", VStr("")))
  }

  /** Whether the lookup gives a row: it returned at least one item. */
  predicate Yields(reply: Lookup)
  {
    reply.Fetched? && reply.items != []
  }

  /** The enriched row for a page admitted for the first time: present
      when the lookup returned items. */
  function EnrichedFor(page: string, lookup: string -> Lookup): Option<EnrichedRow>
  {
    var reply := lookup(PageUrl(page));
    if Yields(reply) then Some(Merge(page, reply.items[0])) else None
  }

  /** The enriched row a DataFrame row yields when it is admitted. */
  function EnrichedRowFor(row: Record, lookup: string -> Lookup): Option<EnrichedRow>
  {
    match EnrichKey(row)
    case Some(page) => EnrichedFor(page, lookup)
    case None => None
  }

  /** Whether each row, if admitted, yields an enriched row. */
  ghost function Enriches(df: seq<Record>, lookup: string -> Lookup): (keep: seq<bool>)
    ensures |keep| == |df|
  {
    seq(|df|, i requires 0 <= i < |df| => EnrichedRowFor(df[i], lookup).Some?)
  }

  /** Indices of the rows that are first with their page name and enriched. */
  ghost function EnrichOrigins(df: seq<Record>, lookup: string -> Lookup): seq<nat>
  {
    FirstIndices(EnrichKeys(df), Enriches(df, lookup))
  }

  /** The local variables `seen` and `enriched`, and the warnings shown. */
  datatype EnrichState = EnrichState(seen: set<string>, rows: seq<EnrichedRow>, warnings: seq<Warning>)

  /** One iteration (lines 87-112); `None` when `.strip()` raises, which
      nothing in the function catches. */
  function EnrichStep(st: EnrichState, row: Record, lookup: string -> Lookup): Option<EnrichState>
  {
    match StrippedPage(row)
    case None => None
    case Some(page) =>
      if page == "" || page in st.seen then Some(st)
      else
        var seen := st.seen + {page};
        match lookup(PageUrl(page))
        case LookupFailed => Some(EnrichState(seen, st.rows, st.warnings + [ScrapeFailed(PageUrl(page))]))
        case Fetched(items) =>
          if items == [] then Some(st.(seen := seen))
          else Some(EnrichState(seen, st.rows + [Merge(page, items[0])], st.warnings))
  }

  /** The loop state after the rows of `df`, or the index of the row whose
      `page_name` raised. */
  function EnrichPrefix(df: seq<Record>, lookup: string -> Lookup): Result<EnrichState, nat>
  {
    if df == [] then Ok(EnrichState({}, [], []))
    else
      var n := |df| - 1;
      match EnrichPrefix(df[..n], lookup)
      case Err(i) => Err(i)
      case Ok(st) =>
        match EnrichStep(st, df[n], lookup)
        case None => Err(n)
        case Some(st') => Ok(st')
  }

  /** `rows` holds one enriched row per first occurrence of a page name whose
      lookup returned items, merged from the first item, in order. */
  ghost predicate FromEnriched(df: seq<Record>, lookup: string -> Lookup, rows: seq<EnrichedRow>)
  {
    var origin := EnrichOrigins(df, lookup);
    && |rows| == |origin|
    && forall k :: 0 <= k < |rows| ==> origin[k] < |df| && EnrichedRowFor(df[origin[k]], lookup) == Some(rows[k])
  }

  /** One iteration, in terms of keys: it raises exactly when `page_name` is
      not a str, and otherwise admits the row's key when it is new, adding
      the merged row when the lookup returns items. */
  lemma EnrichStepCases(st: EnrichState, row: Record, lookup: string -> Lookup)
    ensures EnrichStep(st, row, lookup).None? <==> !PageNameIsStr(row)
    ensures EnrichStep(st, row, lookup).Some? ==>
      var st' := EnrichStep(st, row, lookup).value;
      var key := EnrichKey(row);
      var first := key.Some? && key.value !in st.seen;
      && st'.seen == st.seen + (if key.Some? then {key.value} else {})
      && st'.rows == st.rows + (if first && EnrichedRowFor(row, lookup).Some? then [EnrichedRowFor(row, lookup).value] else [])
  {
    match StrippedPage(row)
    case None =>
    case Some(page) =>
      if page != "" && page !in st.seen {
        match lookup(PageUrl(page))
        case LookupFailed =>
        case Fetched(items) =>
      }
  }

  lemma EnrichOriginsSnoc(df: seq<Record>, lookup: string -> Lookup)
    requires df != []
    ensures var n := |df| - 1;
      && EnrichKeys(df)[..n] == EnrichKeys(df[..n])
      && EnrichOrigins(df, lookup) ==
           EnrichOrigins(df[..n], lookup) + (if IsFirst(EnrichKeys(df), n) && Enriches(df, lookup)[n] then [n] else [])
  {
    var n := |df| - 1;
    assert EnrichKeys(df)[..n] == EnrichKeys(df[..n]);
    assert Enriches(df, lookup)[..n] == Enriches(df[..n], lookup);
  }

  /** The loop invariant carried over one more row that does not raise. */
  lemma EnrichOkSnoc(df: seq<Record>, lookup: string -> Lookup, st: EnrichState)
    requires df != []
    requires var n := |df| - 1;
      && st.seen == Seen(EnrichKeys(df[..n]))
      && FromEnriched(df[..n], lookup, st.rows)
    requires EnrichStep(st, df[|df| - 1], lookup).Some?
    ensures var st' := EnrichStep(st, df[|df| - 1], lookup).value;
      && st'.seen == Seen(EnrichKeys(df))
      && FromEnriched(df, lookup, st'.rows)
  {
    var n := |df| - 1;
    var p := df[..n];
    var keys := EnrichKeys(df);
    var st' := EnrichStep(st, df[n], lookup).value;
    var key := EnrichKey(df[n]);
    var first := key.Some? && key.value !in st.seen;
    assert keys[..n] == EnrichKeys(p) && keys[n] == key by {
      EnrichOriginsSnoc(df, lookup);
    }
    assert first == IsFirst(keys, n) by {
      IsFirstLast(keys);
    }
    assert st'.seen == Seen(keys) by {
      EnrichStepCases(st, df[n], lookup);
      assert keys == keys[..n] + [keys[n]];
      SeenSnoc(keys[..n], keys[n]);
    }
    var origin, before := EnrichOrigins(df, lookup), EnrichOrigins(p, lookup);
    var added := first && EnrichedRowFor(df[n], lookup).Some?;
    assert origin == before + (if added then [n] else []) by {
      EnrichOriginsSnoc(df, lookup);
    }
    assert st'.rows == st.rows + (if added then [EnrichedRowFor(df[n], lookup).value] else []) by {
      EnrichStepCases(st, df[n], lookup);
    }
    forall k | 0 <= k < |st'.rows| ensures origin[k] < |df| && EnrichedRowFor(df[origin[k]], lookup) == Some(st'.rows[k]) {
      if k < |st.rows| {
        assert origin[k] == before[k];
        assert p[origin[k]] == df[origin[k]];
      }
    }
  }

  /** When the loop raises: exactly when some row's `page_name` is not a
      str, and then at the first such row. */
  lemma {:induction false} EnrichPrefixRaises(df: seq<Record>, lookup: string -> Lookup)
    ensures EnrichPrefix(df, lookup).Ok? <==> forall i :: 0 <= i < |df| ==> PageNameIsStr(df[i])
    ensures EnrichPrefix(df, lookup).Err? ==>
      var i := EnrichPrefix(df, lookup).error;
      && i < |df| && !PageNameIsStr(df[i])
      && forall j :: 0 <= j < i ==> PageNameIsStr(df[j])
  {
    if df != [] {
      var n := |df| - 1;
      var p := df[..n];
      EnrichPrefixRaises(p, lookup);
      assert forall j :: 0 <= j < n ==> p[j] == df[j];
      match EnrichPrefix(p, lookup)
      case Err(e) =>
      case Ok(st) =>
        EnrichStepCases(st, df[n], lookup);
    }
  }

  /** What the loop computes when it does not raise: `seen` holds every
      non-empty stripped page name and the rows are those of the first
      occurrences whose lookup returned items. */
  lemma {:induction false} EnrichPrefixMeaning(df: seq<Record>, lookup: string -> Lookup)
    ensures EnrichPrefix(df, lookup).Ok? ==>
      && EnrichPrefix(df, lookup).value.seen == Seen(EnrichKeys(df))
      && FromEnriched(df, lookup, EnrichPrefix(df, lookup).value.rows)
  {
    if df != [] {
      var n := |df| - 1;
      var p := df[..n];
      EnrichPrefixMeaning(p, lookup);
      if EnrichPrefix(p, lookup).Ok? {
        var st := EnrichPrefix(p, lookup).value;
        if EnrichStep(st, df[n], lookup).Some? {
          EnrichOkSnoc(df, lookup, st);
        }
      }
    }
  }

  /** Once a prefix raises, the whole input raises at the same row. */
  lemma {:induction false} EnrichErrPersists(df: seq<Record>, lookup: string -> Lookup, m: nat)
    requires m <= |df| && EnrichPrefix(df[..m], lookup).Err?
    ensures EnrichPrefix(df, lookup) == EnrichPrefix(df[..m], lookup)
    decreases |df| - m
  {
    if m < |df| {
      assert df[..m + 1][..m] == df[..m];
      EnrichErrPersists(df, lookup, m + 1);
    } else {
      assert df[..m] == df;
    }
  }

  /** The result of `enrich_facebook_pages`: the enriched rows with the
      warnings shown, or the index of the row whose `page_name` raised. */
  datatype Enrichment = Enrichment(rows: seq<EnrichedRow>, warnings: seq<Warning>)

  function EnrichSpec(df: seq<Record>, lookup: string -> Lookup): Result<Enrichment, nat>
  {
    match EnrichPrefix(df, lookup)
    case Ok(st) => Ok(Enrichment(st.rows, st.warnings))
    case Err(i) => Err(i)
  }

  /** `enrich_facebook_pages` (lines 83-113), the DataFrame being its list of
      rows and the page-scraper call being `lookup`. */
  method EnrichFacebookPages(df: seq<Record>, lookup: string -> Lookup) returns (r: Result<Enrichment, nat>)
    ensures r == EnrichSpec(df, lookup)
    ensures r.Ok? <==> forall i :: 0 <= i < |df| ==> PageNameIsStr(df[i])
    ensures r.Ok? ==> FromEnriched(df, lookup, r.value.rows)
    ensures r.Err? ==>
      && r.error < |df| && !PageNameIsStr(df[r.error])
      && forall j :: 0 <= j < r.error ==> PageNameIsStr(df[j])
  {
    var enriched: seq<EnrichedRow> := [];
    var warnings: seq<Warning> := [];
    var seen: set<string> := {};
    var i := 0;
    while i < |df|
      invariant 0 <= i <= |df|
      invariant EnrichPrefix(df[..i], lookup) == Ok(EnrichState(seen, enriched, warnings))
    {
      assert df[..i + 1][..i] == df[..i];
      var row := df[i];
      var cell := GetOr(row, "page_name", VStr(""));
      if !cell.VStr? {
        r := Err(i);
        EnrichErrPersists(df, lookup, i + 1);
        EnrichPrefixRaises(df, lookup);
        return;
      }
      var page := Strip(cell.s);
      if page != "" && page !in seen {
        seen := seen + {page};
        var fbUrl := WwwUrlPrefix + RemoveSpaces(page);
        var reply := lookup(fbUrl);
        match reply
        case LookupFailed =>
          warnings := warnings + [ScrapeFailed(fbUrl)];
        case Fetched(result) =>
          if result != [] {
            var data := result[0];
            enriched := enriched + [EnrichedRow(page, fbUrl,
              GetOr(data, "website", VStr("")), GetOr(data, "email", VStr("")), GetOr(data, "phone", VStr("")),
              GetOr(data, "category", VStr("")), GetOr(data, "bio", VStr("")), GetOr(data, "address", VStr("")))];
          }
      }
      i := i + 1;
    }
    assert df[..i] == df;
    r := Ok(Enrichment(enriched, warnings));
    EnrichPrefixRaises(df, lookup);
    EnrichPrefixMeaning(df, lookup);
  }

  /** The lookup URL is the `www.` prefix followed by the page name with its
      spaces removed: no space follows the prefix, and a page name without
      spaces is used verbatim. */
  lemma PageUrlShape(page: string)
    ensures var url := PageUrl(page);
      && |url| >= |WwwUrlPrefix| && url[..|WwwUrlPrefix|] == WwwUrlPrefix
      && ' ' !in url[|WwwUrlPrefix|..]
      && (' ' !in page ==> url == WwwUrlPrefix + page)
  {
    RemoveSpacesSpec(page);
    assert PageUrl(page)[|WwwUrlPrefix|..] == RemoveSpaces(page);
  }

  /** Distinct page names can share a lookup URL: the spaces are dropped,
      so `a + " " + b` and `a + b` (say "Acme Co" and "AcmeCo") are two
      pages, two lookups and possibly two rows, all for the same URL. */
  lemma PageUrlCollision(a: string, b: string)
    ensures a + " " + b != a + b && PageUrl(a + " " + b) == PageUrl(a + b)
  {
    assert |a + " " + b| != |a + b|;
    RemoveSpacesAppend(a + " ", b);
    RemoveSpacesAppend(a, " ");
    RemoveSpacesAppend(a, b);
    assert RemoveSpaces(" ") == [] by {
      assert " "[1..] == [];
    }
  }

  /** The enriched rows, row by row: each comes from the first row with its
      stripped page name, in input order, and every such first row whose
      lookup returned items has one. */
  lemma EnrichRows(df: seq<Record>, lookup: string -> Lookup, st: EnrichState)
    requires EnrichPrefix(df, lookup) == Ok(st)
    ensures var rows, origin := st.rows, EnrichOrigins(df, lookup);
      && |rows| == |origin|
      && (forall k :: 0 <= k < |rows| ==>
            && origin[k] < |df| && IsFirst(EnrichKeys(df), origin[k])
            && EnrichedRowFor(df[origin[k]], lookup) == Some(rows[k]))
      && (forall a, b :: 0 <= a < b < |rows| ==> origin[a] < origin[b])
      && (forall i :: 0 <= i < |df| && IsFirst(EnrichKeys(df), i) && EnrichedRowFor(df[i], lookup).Some? ==> i in origin)
  {
    EnrichPrefixMeaning(df, lookup);
    FirstIndicesCharacterized(EnrichKeys(df), Enriches(df, lookup));
  }

  /** At most one enriched row per stripped page name. */
  lemma EnrichPageNamesDistinct(df: seq<Record>, lookup: string -> Lookup, st: EnrichState)
    requires EnrichPrefix(df, lookup) == Ok(st)
    ensures forall a, b :: 0 <= a < |st.rows| && 0 <= b < |st.rows| && a != b ==> st.rows[a].pageName != st.rows[b].pageName
  {
    EnrichRows(df, lookup, st);
    FirstKeysDistinct(EnrichKeys(df), Enriches(df, lookup));
    var rows, origin, keys := st.rows, EnrichOrigins(df, lookup), EnrichKeys(df);
    forall a, b | 0 <= a < |rows| && 0 <= b < |rows| && a != b
      ensures rows[a].pageName != rows[b].pageName
    {
      assert keys[origin[a]] != keys[origin[b]];
      assert keys[origin[a]] == Some(rows[a].pageName);
      assert keys[origin[b]] == Some(rows[b].pageName);
    }
  }

  /** The row made for an admitted page: present exactly when the lookup
      returned items, named after the page, keyed on the URL built from it,
      with the six fields of the first item and `""` for a missing key. */
  lemma EnrichedForFields(page: string, lookup: string -> Lookup)
    ensures var url := WwwUrlPrefix + RemoveSpaces(page);
      && (EnrichedFor(page, lookup).Some? <==> Yields(lookup(url)))
      && (EnrichedFor(page, lookup).Some? ==>
        var row, item := EnrichedFor(page, lookup).value, lookup(url).items[0];
        && row.pageName == page && row.pageUrl == url
        && row.website == (if "website" in item then item["website"] else VStr(""))
        && row.email == (if "email" in item then item["email"] else VStr(""))
        && row.phone == (if "phone" in item then item["phone"] else VStr(""))
        && row.category == (if "category" in item then item["category"] else VStr(""))
        && row.bio == (if "bio" in item then item["bio"] else VStr(""))
        && row.address == (if "address" in item then item["address"] else VStr("")))
  {
  }

  /** The input row an enriched row comes from. */
  lemma EnrichRowOrigin(df: seq<Record>, lookup: string -> Lookup, st: EnrichState, k: int) returns (i: nat)
    requires EnrichPrefix(df, lookup) == Ok(st) && 0 <= k < |st.rows|
    ensures i < |df| && EnrichedRowFor(df[i], lookup) == Some(st.rows[k])
  {
    EnrichRows(df, lookup, st);
    i := EnrichOrigins(df, lookup)[k];
  }

  /** Each enriched row: its page name is the non-empty stripped
      `page_name` of an input row, and it is the row made for that page. */
  lemma EnrichRowFields(df: seq<Record>, lookup: string -> Lookup, st: EnrichState, k: int)
    requires EnrichPrefix(df, lookup) == Ok(st) && 0 <= k < |st.rows|
    ensures var row := st.rows[k];
      && row.pageName != [] && Trimmed(row.pageName)
      && (exists i :: 0 <= i < |df| && EnrichKey(df[i]) == Some(row.pageName))
      && EnrichedFor(row.pageName, lookup) == Some(row)
  {
    var i := EnrichRowOrigin(df, lookup, st, k);
    var row := st.rows[k];
    assert EnrichKey(df[i]).Some? && EnrichedFor(EnrichKey(df[i]).value, lookup) == Some(row);
    var page := EnrichKey(df[i]).value;
    assert row.pageName == page by {
      EnrichedForFields(page, lookup);
    }
    assert page != [] && Trimmed(page) by {
      StripSpec(GetOr(df[i], "page_name", VStr("")).s);
    }
    assert 0 <= i < |df| && EnrichKey(df[i]) == Some(row.pageName);
  }

  /** A page name of the input whose lookup returned items has a row. */
  lemma EnrichYieldGivesRow(df: seq<Record>, lookup: string -> Lookup, st: EnrichState, i: int) returns (k: nat)
    requires EnrichPrefix(df, lookup) == Ok(st)
    requires 0 <= i < |df| && EnrichKey(df[i]).Some? && Yields(lookup(PageUrl(EnrichKey(df[i]).value)))
    ensures k < |st.rows| && st.rows[k].pageName == EnrichKey(df[i]).value
  {
    var keys, origin := EnrichKeys(df), EnrichOrigins(df, lookup);
    var page := EnrichKey(df[i]).value;
    var f := FirstWithKey(keys, i);
    assert EnrichKey(df[f]) == Some(page);
    EnrichRows(df, lookup, st);
    assert f in origin;
    k :| 0 <= k < |origin| && origin[k] == f;
  }

  /** Failure isolation: a page name of the input gets a row exactly when
      its own lookup returned items, whatever the lookups of the other pages
      did. */
  lemma EnrichRowIffYields(df: seq<Record>, lookup: string -> Lookup, st: EnrichState, i: int)
    requires EnrichPrefix(df, lookup) == Ok(st)
    requires 0 <= i < |df| && EnrichKey(df[i]).Some?
    ensures var page := EnrichKey(df[i]).value;
      (exists k :: 0 <= k < |st.rows| && st.rows[k].pageName == page) <==> Yields(lookup(PageUrl(page)))
  {
    var page := EnrichKey(df[i]).value;
    if Yields(lookup(PageUrl(page))) {
      var k := EnrichYieldGivesRow(df, lookup, st, i);
    }
    if k :| 0 <= k < |st.rows| && st.rows[k].pageName == page {
      EnrichRowFields(df, lookup, st, k);
    }
  }

  /** Every warning names the URL of a page whose lookup failed, and every
      page admitted into `seen` whose lookup failed has one. */
  ghost predicate WarnsFailures(st: EnrichState, lookup: string -> Lookup)
  {
    forall w :: w in st.warnings <==>
      w.ScrapeFailed? && exists page :: page in st.seen && lookup(PageUrl(page)).LookupFailed? && w.url == PageUrl(page)
  }

  lemma EnrichStepWarns(st: EnrichState, row: Record, lookup: string -> Lookup)
    requires WarnsFailures(st, lookup) && EnrichStep(st, row, lookup).Some?
    ensures WarnsFailures(EnrichStep(st, row, lookup).value, lookup)
  {
    var st' := EnrichStep(st, row, lookup).value;
    var page := StrippedPage(row).value;
    if page != "" && page !in st.seen {
      forall w ensures w in st'.warnings <==>
        w.ScrapeFailed? && exists p :: p in st'.seen && lookup(PageUrl(p)).LookupFailed? && w.url == PageUrl(p)
      {
        if w.ScrapeFailed? && lookup(PageUrl(page)).LookupFailed? && w.url == PageUrl(page) {
          assert w == ScrapeFailed(PageUrl(page));
          assert w in st'.warnings;
        }
      }
    }
  }

  lemma {:induction false} EnrichPrefixWarns(df: seq<Record>, lookup: string -> Lookup)
    ensures EnrichPrefix(df, lookup).Ok? ==> WarnsFailures(EnrichPrefix(df, lookup).value, lookup)
  {
    if df != [] {
      var n := |df| - 1;
      EnrichPrefixWarns(df[..n], lookup);
      if EnrichPrefix(df[..n], lookup).Ok? && EnrichStep(EnrichPrefix(df[..n], lookup).value, df[n], lookup).Some? {
        EnrichStepWarns(EnrichPrefix(df[..n], lookup).value, df[n], lookup);
      }
    }
  }

  /** A lookup that raises for one page costs that page its row and nothing
      else: a warning names its URL, and the loop goes on. */
  lemma EnrichFailureWarned(df: seq<Record>, lookup: string -> Lookup, st: EnrichState, i: int)
    requires EnrichPrefix(df, lookup) == Ok(st)
    requires 0 <= i < |df| && EnrichKey(df[i]).Some? && lookup(PageUrl(EnrichKey(df[i]).value)).LookupFailed?
    ensures ScrapeFailed(PageUrl(EnrichKey(df[i]).value)) in st.warnings
  {
    EnrichPrefixWarns(df, lookup);
    EnrichPrefixMeaning(df, lookup);
    var page := EnrichKey(df[i]).value;
    assert EnrichKeys(df)[i] == Some(page);
    assert page in st.seen;
  }

  /** Rows that agree on `page_name` (absent counting as `""`). */
  ghost predicate SamePageName(a: Record, b: Record)
  {
    GetOr(a, "page_name", VStr("")) == GetOr(b, "page_name", VStr(""))
  }

  /** The result depends on nothing but the `page_name` column: in
      particular not on the input's `page_url`. */
  lemma {:induction false} EnrichReadsOnlyPageName(df: seq<Record>, df': seq<Record>, lookup: string -> Lookup)
    requires |df| == |df'| && forall i :: 0 <= i < |df| ==> SamePageName(df[i], df'[i])
    ensures EnrichPrefix(df, lookup) == EnrichPrefix(df', lookup)
  {
    if df != [] {
      var n := |df| - 1;
      EnrichReadsOnlyPageName(df[..n], df'[..n], lookup);
      assert StrippedPage(df[n]) == StrippedPage(df'[n]) by {
        assert SamePageName(df[n], df'[n]);
      }
    }
  }
}
