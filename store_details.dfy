/**
 * `parse_store_details`: turns one store page into a store record, or into
 * nothing when the page is empty or carries no store name. HTML parsing is
 * not modelled: the page is given as the answers of the lookups the scraper
 * makes on the parsed document.
 */
module StoreDetails {
  import opened Wrappers
  import opened Text
  import opened Sorting

  /** An `<a>` element: its CSS classes and its `href` attribute, if any. */
  datatype Anchor = Anchor(classes: seq<string>, href: Option<string>)

  /**
   * A `<td>` cell of the hours table: its whole text, and the text of the
   * first `<span class="week-hours">` inside it, if there is one.
   */
  datatype Cell = Cell(text: string, weekHours: Option<string>)

  /** A `<tr>` row of the hours table, with its `<td>` cells in order. */
  datatype Row = Row(cells: seq<Cell>)

  /**
   * What the scraper finds on a parsed page. For each single element, the
   * element's raw text, or `None` when the element is absent.
   */
  datatype Page = Page(
    name: Option<string>,                 // <h1 id="store-name">
    addressLine1: Option<string>,         // <div id="store-address-line-1">
    addressLine2: Option<string>,         // <div id="store-address-line-2">
    phone: Option<string>,                // <a id="phone-no">
    anchors: seq<Anchor>,                 // every <a>, in document order
    hoursTable: Option<seq<Row>>,         // rows of <table id="store-hours-table">
    servicesDesktop: Option<seq<string>>  // texts of `div.service > div` in the first div.store-services-desktop
  )

  /** One store as the scraper outputs it. */
  datatype StoreRecord = StoreRecord(
    url: string,
    name: string,
    addressLine1: Option<string>,
    addressLine2: Option<string>,
    phone: Option<string>,
    directionsUrl: Option<string>,
    hours: map<string, string>,
    services: seq<string>
  )

  const ExternalClass := "external"
  const MapsDomain := "maps.google.com"

  /**
   * The inner helper `get_text`: the stripped text of a found element, and
   * `None` for a missing one (a found element is always truthy).
   */
  function GetText(element: Option<string>): (r: Option<string>)
    ensures r.Some? <==> element.Some?
    ensures r.Some? ==> |r.value| <= |element.value|
    ensures r.Some? && r.value != "" ==> !IsSpace(r.value[0]) && !IsSpace(r.value[|r.value| - 1])
    ensures r.Some? ==> (r.value == "" <==> AllSpace(element.value))
    ensures r.Some? ==> TrimmedSliceOf(element.value, r.value)
  {
    if element.Some? then
      StripEmpty(element.value);
      StripIsSlice(element.value);
      Some(Strip(element.value))
    else
      None
  }

  /** The text of a field is usable as a store name. */
  predicate HasName(page: Page) {
    var name := GetText(page.name);
    name.Some? && name.value != ""
  }

  // ---------------------------------------------------------------- directions

  /** An anchor with class `external` whose non-empty `href` mentions the map service. */
  predicate IsDirections(a: Anchor) {
    ExternalClass in a.classes && a.href.Some? && a.href.value != "" && Contains(a.href.value, MapsDomain)
  }

  /** Anchor `i` is the first directions anchor. */
  predicate FirstDirectionsAt(anchors: seq<Anchor>, i: int) {
    0 <= i < |anchors| && IsDirections(anchors[i]) && forall k :: 0 <= k < i ==> !IsDirections(anchors[k])
  }

  /** The `href` of the first directions anchor, as `soup.find(...)['href']`, or `None`. */
  function FirstDirections(anchors: seq<Anchor>): (r: Option<string>)
    ensures r.None? <==> forall i :: 0 <= i < |anchors| ==> !IsDirections(anchors[i])
    ensures r.Some? ==> exists i :: FirstDirectionsAt(anchors, i) && anchors[i].href == r
  {
    if anchors == [] then None
    else if IsDirections(anchors[0]) then
      assert FirstDirectionsAt(anchors, 0);
      anchors[0].href
    else
      var r := FirstDirections(anchors[1..]);
      assert forall i :: 0 < i < |anchors| ==> anchors[i] == anchors[1..][i - 1];
      if r.Some? then
        var i :| FirstDirectionsAt(anchors[1..], i) && anchors[1..][i].href == r;
        assert FirstDirectionsAt(anchors, i + 1);
        r
      else
        r
  }

  /** A directions link found is a link to the map service. */
  lemma DirectionsMentionMaps(anchors: seq<Anchor>)
    ensures FirstDirections(anchors).Some? ==> Contains(FirstDirections(anchors).value, MapsDomain)
  {
    if FirstDirections(anchors).Some? {
      var i :| FirstDirectionsAt(anchors, i) && anchors[i].href == FirstDirections(anchors);
    }
  }

  // ---------------------------------------------------------------- hours

  /**
   * The (day, hours) pair one table row contributes: only a row of exactly
   * two cells whose stripped day text and stripped `week-hours` text are
   * both non-empty contributes.
   */
  function RowEntry(row: Row): (e: Option<(string, string)>)
    ensures e.Some? <==> (|row.cells| == 2 && row.cells[1].weekHours.Some?
      && Strip(row.cells[0].text) != "" && Strip(row.cells[1].weekHours.value) != "")
    ensures e.Some? ==> e.value == (Strip(row.cells[0].text), Strip(row.cells[1].weekHours.value))
  {
    if |row.cells| != 2 then None
    else
      var day := GetText(Some(row.cells[0].text));
      var time := GetText(row.cells[1].weekHours);
      if day.Some? && day.value != "" && time.Some? && time.value != "" then Some((day.value, time.value))
      else None
  }

  /** Row `row` contributes an entry for `day`. */
  predicate GivesDay(row: Row, day: string) {
    RowEntry(row).Some? && RowEntry(row).value.0 == day
  }

  /** The `hours` dictionary the rows build, later rows overwriting earlier ones. */
  function HoursOf(rows: seq<Row>): (m: map<string, string>)
    ensures forall d :: d in m ==> d != "" && m[d] != ""
  {
    if rows == [] then map[]
    else
      var m := HoursOf(rows[..|rows| - 1]);
      var e := RowEntry(rows[|rows| - 1]);
      if e.Some? then m[e.value.0 := e.value.1] else m
  }

  /** Adding one more row to the table applies that row's entry, if any, on top. */
  lemma HoursOfNextRow(rows: seq<Row>, i: int)
    requires 0 <= i < |rows|
    ensures RowEntry(rows[i]).None? ==> HoursOf(rows[..i + 1]) == HoursOf(rows[..i])
    ensures RowEntry(rows[i]).Some? ==>
      HoursOf(rows[..i + 1]) == HoursOf(rows[..i])[RowEntry(rows[i]).value.0 := RowEntry(rows[i]).value.1]
  {
    assert rows[..i + 1][..i] == rows[..i];
  }

  /** Builds `hours` from the optional hours table, row by row. */
  method CollectHours(table: Option<seq<Row>>) returns (hours: map<string, string>)
    ensures table.None? ==> hours == map[]
    ensures table.Some? ==> hours == HoursOf(table.value)
  {
    hours := map[];
    if table.Some? {
      var rows := table.value;
      for i := 0 to |rows|
        invariant hours == HoursOf(rows[..i])
      {
        HoursOfNextRow(rows, i);
        var cols := rows[i].cells;
        if |cols| == 2 {
          var day := GetText(Some(cols[0].text));
          var time := GetText(cols[1].weekHours);
          if day.Some? && day.value != "" && time.Some? && time.value != "" {
            assert RowEntry(rows[i]) == Some((day.value, time.value));
            hours := hours[day.value := time.value];
          } else {
            assert RowEntry(rows[i]).None?;
          }
        } else {
          assert RowEntry(rows[i]).None?;
        }
      }
      assert rows[..|rows|] == rows;
    }
  }

  /** The last row adds its own day, if it contributes one, to the days of the rows before it. */
  lemma HoursLastRow(rows: seq<Row>, day: string)
    requires rows != []
    ensures day in HoursOf(rows) <==> day in HoursOf(rows[..|rows| - 1]) || GivesDay(rows[|rows| - 1], day)
  {
  }

  /** A day is a key of `hours` exactly when some row contributes an entry for it. */
  lemma {:induction false} HoursKeys(rows: seq<Row>, day: string)
    ensures day in HoursOf(rows) <==> exists i :: 0 <= i < |rows| && GivesDay(rows[i], day)
  {
    if rows != [] {
      var init := rows[..|rows| - 1];
      HoursKeys(init, day);
      HoursLastRow(rows, day);
      if i :| 0 <= i < |init| && GivesDay(init[i], day) {
        assert rows[i] == init[i];
      }
      if i :| 0 <= i < |rows| - 1 && GivesDay(rows[i], day) {
        assert init[i] == rows[i];
      }
    }
  }

  /** The hours kept for a day are those of the last row that contributes that day. */
  lemma {:induction false} HoursLastRowWins(rows: seq<Row>, i: int)
    requires 0 <= i < |rows| && RowEntry(rows[i]).Some?
    requires forall j :: i < j < |rows| ==> !GivesDay(rows[j], RowEntry(rows[i]).value.0)
    ensures RowEntry(rows[i]).value.0 in HoursOf(rows)
    ensures HoursOf(rows)[RowEntry(rows[i]).value.0] == RowEntry(rows[i]).value.1
  {
    var n := |rows| - 1;
    var init := rows[..n];
    var day, time := RowEntry(rows[i]).value.0, RowEntry(rows[i]).value.1;
    assert rows[..n + 1] == rows;
    HoursOfNextRow(rows, n);
    var before := HoursOf(init);
    var last := RowEntry(rows[n]);
    if i == n {
      assert HoursOf(rows) == before[day := time];
    } else {
      assert init[i] == rows[i];
      forall j | i < j < |init|
        ensures !GivesDay(init[j], day)
      {
        assert init[j] == rows[j];
      }
      HoursLastRowWins(init, i);
      assert day in before && before[day] == time;
      assert !GivesDay(rows[n], day);
      if last.Some? {
        assert HoursOf(rows) == before[last.value.0 := last.value.1];
        assert last.value.0 != day;
      } else {
        assert HoursOf(rows) == before;
      }
    }
  }

  // ---------------------------------------------------------------- services

  /** The service names in container order: each text stripped, empty results dropped. */
  function ServiceNames(texts: seq<string>): (r: seq<string>)
    ensures |r| <= |texts|
    ensures forall k :: 0 <= k < |r| ==> r[k] != ""
  {
    if texts == [] then []
    else
      var name := Strip(texts[|texts| - 1]);
      ServiceNames(texts[..|texts| - 1]) + (if name != "" then [name] else [])
  }

  /** A name is listed exactly when it is the non-empty stripped text of some element. */
  lemma {:induction false} ServiceNamesMembership(texts: seq<string>, x: string)
    ensures x in ServiceNames(texts) <==> x != "" && exists i :: 0 <= i < |texts| && Strip(texts[i]) == x
  {
    if texts != [] {
      var init := texts[..|texts| - 1];
      ServiceNamesMembership(init, x);
      if i :| 0 <= i < |init| && Strip(init[i]) == x {
        assert texts[i] == init[i];
      }
      if i :| 0 <= i < |texts| - 1 && Strip(texts[i]) == x {
        assert init[i] == texts[i];
      }
    }
  }

  /** One more element adds its stripped text, unless that is empty. */
  lemma ServiceNamesNext(texts: seq<string>, i: int)
    requires 0 <= i < |texts|
    ensures ServiceNames(texts[..i + 1]) == ServiceNames(texts[..i]) + (if Strip(texts[i]) != "" then [Strip(texts[i])] else [])
  {
    assert texts[..i + 1][..i] == texts[..i];
  }

  /** Builds `services` from the desktop container, then sorts it. */
  method CollectServices(container: Option<seq<string>>) returns (services: seq<string>)
    ensures container.None? ==> services == []
    ensures container.Some? ==> multiset(services) == multiset(ServiceNames(container.value))
    ensures SortedBy(services, AsKey)
    ensures forall x :: x in services ==>
      x != "" && container.Some? && exists i :: 0 <= i < |container.value| && Strip(container.value[i]) == x
  {
    var names: seq<string> := [];
    if container.Some? {
      var texts := container.value;
      for i := 0 to |texts|
        invariant names == ServiceNames(texts[..i])
      {
        ServiceNamesNext(texts, i);
        var name := GetText(Some(texts[i]));
        if name.value != "" {
          names := names + [name.value];
        }
      }
      assert texts[..|texts|] == texts;
    }
    services := Sorted(names);
    forall x | x in services
      ensures x != "" && container.Some? && exists i :: 0 <= i < |container.value| && Strip(container.value[i]) == x
    {
      assert x in multiset(names);
      ServiceNamesMembership(container.value, x);
    }
  }

  /** The names of two containers add up to the names of both in sequence. */
  lemma {:induction false} ServiceNamesAppend(a: seq<string>, b: seq<string>)
    ensures ServiceNames(a + b) == ServiceNames(a) + ServiceNames(b)
    decreases |b|
  {
    if b == [] {
      assert a + b == a;
    } else {
      var init := b[..|b| - 1];
      assert (a + b)[..|a + b| - 1] == a + init;
      ServiceNamesAppend(a, init);
    }
  }

  /** Which names are listed, and how often, depends only on the elements and not on their order. */
  lemma {:induction false} ServiceNamesPermutation(a: seq<string>, b: seq<string>)
    requires multiset(a) == multiset(b)
    ensures multiset(ServiceNames(a)) == multiset(ServiceNames(b))
    decreases |a|
  {
    if a != [] {
      var init, x := a[..|a| - 1], a[|a| - 1];
      assert a == init + [x];
      assert x in multiset(b);
      var k :| 0 <= k < |b| && b[k] == x;
      var p, q := b[..k], b[k + 1..];
      assert b == p + [x] + q;
      assert multiset(init) + multiset{x} == multiset(p + q) + multiset{x} by {
        assert multiset(a) == multiset(init) + multiset{x};
        assert multiset(b) == multiset(p) + multiset{x} + multiset(q);
        assert multiset(p + q) == multiset(p) + multiset(q);
      }
      CancelElement(multiset(init), multiset(p + q), x);
      ServiceNamesPermutation(init, p + q);
      ServiceNamesAppend(init, [x]);
      ServiceNamesAppend(p + [x], q);
      ServiceNamesAppend(p, [x]);
      ServiceNamesAppend(p, q);
      var n := ServiceNames([x]);
      calc {
        multiset(ServiceNames(a));
        multiset(ServiceNames(init) + n);
        multiset(ServiceNames(init)) + multiset(n);
        multiset(ServiceNames(p + q)) + multiset(n);
        multiset(ServiceNames(p) + ServiceNames(q)) + multiset(n);
        multiset(ServiceNames(p) + n + ServiceNames(q));
        multiset(ServiceNames(b));
      }
    }
  }

  /**
   * The sorted services list does not depend on the order of the elements in
   * the container: two containers holding the same texts give the same list.
   */
  lemma ServicesOrderFree(a: seq<string>, b: seq<string>, sa: seq<string>, sb: seq<string>)
    requires multiset(a) == multiset(b)
    requires SortedBy(sa, AsKey) && multiset(sa) == multiset(ServiceNames(a))
    requires SortedBy(sb, AsKey) && multiset(sb) == multiset(ServiceNames(b))
    ensures sa == sb
  {
    ServiceNamesPermutation(a, b);
    SortedUnique(sa, sb, AsKey);
  }

  // ---------------------------------------------------------------- the record

  /**
   * Models `parse_store_details(html_content, url)`: `None` for an empty or
   * missing page and for a page without a usable store name; otherwise the
   * record of the page's fields.
   */
  method ParseStoreDetails(html: Option<string>, page: Page, url: string) returns (r: Option<StoreRecord>)
    ensures r.None? <==> html.None? || html.value == "" || !HasName(page)
    ensures r.Some? ==> r.value.url == url && r.value.name != "" && GetText(page.name) == Some(r.value.name)
    ensures r.Some? ==> r.value.addressLine1 == GetText(page.addressLine1)
    ensures r.Some? ==> r.value.addressLine2 == GetText(page.addressLine2)
    ensures r.Some? ==> r.value.phone == GetText(page.phone)
    ensures r.Some? ==> r.value.directionsUrl == FirstDirections(page.anchors)
    ensures r.Some? ==> r.value.hours == if page.hoursTable.Some? then HoursOf(page.hoursTable.value) else map[]
    ensures r.Some? ==> SortedBy(r.value.services, AsKey)
    ensures r.Some? && page.servicesDesktop.None? ==> r.value.services == []
    ensures r.Some? && page.servicesDesktop.Some? ==>
      multiset(r.value.services) == multiset(ServiceNames(page.servicesDesktop.value))
  {
    if html.None? || html.value == "" {
      return None;
    }
    var name := GetText(page.name);
    var addressLine1 := GetText(page.addressLine1);
    var addressLine2 := GetText(page.addressLine2);
    var phone := if page.phone.Some? then GetText(page.phone) else None;
    var directionsUrl := FirstDirections(page.anchors);
    var hours := CollectHours(page.hoursTable);
    var services := CollectServices(page.servicesDesktop);
    if name.None? || name.value == "" {
      return None;
    }
    r := Some(StoreRecord(url, name.value, addressLine1, addressLine2, phone, directionsUrl, hours, services));
  }
}
