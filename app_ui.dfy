/** The record table of the helper window: every captured record, the
    records the current search lets through, a ten-row page of them in the
    tree view, page navigation, adding, clearing and exporting records; and
    the string the hotkey dialog builds from a key press.

    Widgets are reduced to the state they hold (the text of the two entries,
    the rows of the tree view, whether the page buttons are enabled, the
    page label); confirmations, file choosers and clocks are parameters. */
module AppUi {
  import opened Options
  import opened TextUtil
  import OcrCapture

  // ---------------------------------------------------------------------
  // Records, search and pages
  // ---------------------------------------------------------------------

  /** One record: the values of its four keys 客户昵称, 订单号, 商家, 创建时间. */
  datatype Record = Record(nickname: string, orderNo: string, merchant: string, createdAt: string)

  /** A record's values in the order of its keys (and of the table columns). */
  function Fields(r: Record): seq<string>
  {
    [r.nickname, r.orderNo, r.merchant, r.createdAt]
  }

  /** The column names, in table and export order. */
  const Columns: seq<string> := ["客户昵称", "订单号", "商家", "创建时间"]

  const PageSize: nat := 10

  /** The search key: the search entry's text, stripped and lower-cased. */
  function SearchKey(text: string): string
  {
    Lower(Strip(text))
  }

  /** Some value, lower-cased, contains `key`. */
  predicate AnyContains(values: seq<string>, key: string)
  {
    values != [] && (Contains(Lower(values[0]), key) || AnyContains(values[1..], key))
  }

  /** `AnyContains` holds exactly when some value, lower-cased, contains the key. */
  lemma {:induction false} AnyContainsSpec(values: seq<string>, key: string)
    ensures AnyContains(values, key) <==> exists j :: 0 <= j < |values| && Contains(Lower(values[j]), key)
  {
    if values != [] {
      AnyContainsSpec(values[1..], key);
      if AnyContains(values[1..], key) {
        var j :| 0 <= j < |values[1..]| && Contains(Lower(values[1..][j]), key);
        assert values[j + 1] == values[1..][j];
      }
      if exists j :: 0 <= j < |values| && Contains(Lower(values[j]), key) {
        var j :| 0 <= j < |values| && Contains(Lower(values[j]), key);
        if j > 0 {
          assert values[1..][j - 1] == values[j];
        }
      }
    }
  }

  /** The record matches a search key. */
  predicate Matches(r: Record, key: string)
  {
    AnyContains(Fields(r), key)
  }

  /** The records that match `key`, in their original order. */
  function Filter(records: seq<Record>, key: string): seq<Record>
  {
    if records == [] then []
    else
      var last := records[|records| - 1];
      Filter(records[..|records| - 1], key) + (if Matches(last, key) then [last] else [])
  }

  /** What the table holds after a search with `key`: everything for a blank
      key, otherwise the matching records. */
  function Filtered(all: seq<Record>, key: string): seq<Record>
  {
    if key == [] then all else Filter(all, key)
  }

  /** `max(1, (n + 9) // 10)`: the number of pages for `n` records. */
  function PageCount(n: nat): (t: nat)
    ensures t >= 1
  {
    if (n + 9) / 10 > 1 then (n + 9) / 10 else 1
  }

  /** There is one page for no records; otherwise the pages hold all `n`
      records and the last page is not empty. */
  lemma PageCountBounds(n: nat)
    ensures n == 0 ==> PageCount(n) == 1
    ensures n > 0 ==> (PageCount(n) - 1) * PageSize < n <= PageCount(n) * PageSize
  {
  }

  /** Python's clamped slice `s[a:b]` for `0 <= a <= b`. */
  function Slice<T>(s: seq<T>, a: nat, b: nat): seq<T>
    requires a <= b
  {
    if a >= |s| then [] else if b >= |s| then s[a..] else s[a..b]
  }

  /** The slice holds the elements of `s` from index `a` on, stopping at
      index `b` or at the end of `s`, whichever comes first; it is empty when
      `a` is past the end. */
  lemma SliceSpec<T>(s: seq<T>, a: nat, b: nat)
    requires a <= b
    ensures var r := Slice(s, a, b);
            && |r| == (if a >= |s| then 0 else if b >= |s| then |s| - a else b - a)
            && forall i :: 0 <= i < |r| ==> a + i < |s| && r[i] == s[a + i]
  {
  }

  /** The records on page `p` (counting from 1). */
  function Window(records: seq<Record>, p: nat): seq<Record>
    requires p >= 1
  {
    var start := (p - 1) * PageSize;
    Slice(records, start, start + PageSize)
  }

  /** Page `p` shows at most ten records, the ones from position
      `(p - 1) * 10` on, and a page within the page count of a non-empty
      table is never empty. */
  lemma WindowSpec(records: seq<Record>, p: nat)
    requires p >= 1
    ensures var w := Window(records, p);
            && |w| <= PageSize
            && (forall i :: 0 <= i < |w| ==>
                  (p - 1) * PageSize + i < |records| && w[i] == records[(p - 1) * PageSize + i])
            && (p <= PageCount(|records|) && records != [] ==> w != [])
  {
    SliceSpec(records, (p - 1) * PageSize, (p - 1) * PageSize + PageSize);
  }

  /** A row of the tree view: the record's values and whether it carries the
      `search_match` tag. */
  datatype Row = Row(record: Record, highlighted: bool)

  /** The records of `w` as rows, tagged when the key is not blank and
      one of the record's values contains it. */
  function TaggedRows(w: seq<Record>, key: string): seq<Row>
  {
    seq(|w|, i requires 0 <= i < |w| => Row(w[i], key != [] && Matches(w[i], key)))
  }

  /** The rows shown for page `p` under search key `key`. */
  function PageRows(records: seq<Record>, p: nat, key: string): seq<Row>
    requires p >= 1
  {
    TaggedRows(Window(records, p), key)
  }

  /** Row `i` of page `p` shows the record at position `(p - 1) * 10 + i`
      and is highlighted exactly when the key is not blank and one of the
      record's values contains it. */
  lemma PageRowsSpec(records: seq<Record>, p: nat, key: string)
    requires p >= 1
    ensures var rows := PageRows(records, p, key);
            && |rows| == |Window(records, p)| <= PageSize
            && forall i :: 0 <= i < |rows| ==>
                 && (p - 1) * PageSize + i < |records|
                 && rows[i].record == records[(p - 1) * PageSize + i]
                 && (rows[i].highlighted <==> key != [] && Matches(rows[i].record, key))
  {
    WindowSpec(records, p);
  }

  /** `get_page_text`. */
  function PageText(current: nat, total: nat): string
  {
    "第 " + NatToString(current) + " / " + NatToString(total) + " 页"
  }

  /** The export table: a header row with the column names, then one row per
      record with its values in column order. */
  function ExportTable(records: seq<Record>): (t: seq<seq<string>>)
    ensures |t| == |records| + 1
    ensures t[0] == Columns
    ensures forall i :: 0 <= i < |records| ==> t[i + 1] == Fields(records[i])
  {
    [Columns] + seq(|records|, i requires 0 <= i < |records| => Fields(records[i]))
  }

  /** Reads a record back from an exported row. */
  function RecordOfRow(row: seq<string>): Record
    requires |row| == 4
  {
    Record(row[0], row[1], row[2], row[3])
  }

  // ---------------------------------------------------------------------
  // The hotkey dialog
  // ---------------------------------------------------------------------

  /** `event.state & mask != 0` for a single-bit mask. */
  predicate HasBit(state: nat, mask: nat)
    requires mask > 0
  {
    (state / mask) % 2 == 1
  }

  const CtrlMask: nat := 0x4
  const AltMask: nat := 0x8
  const ShiftMask: nat := 0x1

  /** The modifier names held in `state`, in the order ctrl, alt, shift. */
  function Modifiers(state: nat): seq<string>
  {
    (if HasBit(state, CtrlMask) then ["ctrl"] else [])
    + (if HasBit(state, AltMask) then ["alt"] else [])
    + (if HasBit(state, ShiftMask) then ["shift"] else [])
  }

  /** What a key press in the dialog does: Escape cancels it, a bare left
      modifier key is ignored, anything else chooses a hotkey string. */
  datatype KeyOutcome = Cancelled | Ignored | Chosen(hotkey: string)

  predicate IsBareModifier(keysym: string)
  {
    keysym == "Control_L" || keysym == "Alt_L" || keysym == "Shift_L"
  }

  /** The parts of the hotkey chosen by pressing `keysym` with `state`. */
  function HotkeyParts(state: nat, keysym: string): (parts: seq<string>)
    ensures |parts| > 0 && parts[|parts| - 1] == Lower(keysym)
  {
    Modifiers(state) + [Lower(keysym)]
  }

  /** `HotkeyDialog.keypress`. */
  method Keypress(state: nat, keysym: string) returns (outcome: KeyOutcome)
    ensures keysym == "Escape" ==> outcome == Cancelled
    ensures keysym != "Escape" && IsBareModifier(keysym) ==> outcome == Ignored
    ensures keysym != "Escape" && !IsBareModifier(keysym) ==>
              outcome == Chosen(Join(HotkeyParts(state, keysym), '+'))
  {
    if keysym == "Escape" {
      return Cancelled;
    }
    var key: seq<string> := [];
    if HasBit(state, CtrlMask) {
      key := key + ["ctrl"];
    }
    if HasBit(state, AltMask) {
      key := key + ["alt"];
    }
    if HasBit(state, ShiftMask) {
      key := key + ["shift"];
    }
    if keysym != "Control_L" && keysym != "Alt_L" && keysym != "Shift_L" {
      key := key + [Lower(keysym)];
      assert key == HotkeyParts(state, keysym);
      return Chosen(Join(key, '+'));
    }
    return Ignored;
  }

  lemma LowerKeepsPlusOut(s: string)
    requires '+' !in s
    ensures '+' !in Lower(s)
  {
  }

  /** The chosen hotkey string splits at '+' into exactly the modifiers held,
      in the order ctrl, alt, shift, followed by the lower-cased key name. */
  lemma HotkeyDecodes(state: nat, keysym: string)
    requires '+' !in keysym
    ensures Split(Join(HotkeyParts(state, keysym), '+'), '+') == Modifiers(state) + [Lower(keysym)]
  {
    var parts := HotkeyParts(state, keysym);
    LowerKeepsPlusOut(keysym);
    forall j | 0 <= j < |parts| ensures '+' !in parts[j] {
      if j < |parts| - 1 {
        assert parts[j] in Modifiers(state);
      }
    }
    SplitJoin(parts, '+');
  }

  // ---------------------------------------------------------------------
  // Properties of search, paging and export
  // ---------------------------------------------------------------------

  /** Searching keeps every matching record as often as it occurs and drops
      every other one: each record is added at most once per occurrence. */
  lemma {:induction false} FilterCounts(records: seq<Record>, key: string, x: Record)
    ensures multiset(Filter(records, key))[x] == if Matches(x, key) then multiset(records)[x] else 0
  {
    if records != [] {
      var init, last := records[..|records| - 1], records[|records| - 1];
      assert records == init + [last];
      FilterCounts(init, key, x);
    }
  }

  /** Searching preserves order: the matches of a concatenation are the
      matches of the first part followed by those of the second. */
  lemma {:induction false} FilterAppend(s1: seq<Record>, s2: seq<Record>, key: string)
    ensures Filter(s1 + s2, key) == Filter(s1, key) + Filter(s2, key)
    decreases |s2|
  {
    if s2 == [] {
      assert s1 + s2 == s1;
    } else {
      var n := |s2| - 1;
      assert (s1 + s2)[..|s1| + n] == s1 + s2[..n];
      FilterAppend(s1, s2[..n], key);
    }
  }

  /** The pages 1..k laid end to end. */
  function Pages(records: seq<Record>, k: nat): seq<Record>
  {
    if k == 0 then [] else Pages(records, k - 1) + Window(records, k)
  }

  lemma {:induction false} PagesPrefix(records: seq<Record>, k: nat)
    ensures Pages(records, k) == records[..if k * PageSize < |records| then k * PageSize else |records|]
  {
    if k > 0 {
      PagesPrefix(records, k - 1);
    }
  }

  /** The pages 1..PageCount(n) together show every record exactly once, in
      order. */
  lemma PagesCoverRecords(records: seq<Record>)
    ensures Pages(records, PageCount(|records|)) == records
  {
    PagesPrefix(records, PageCount(|records|));
  }

  /** Reading the exported rows back gives the records in order. */
  lemma ExportRoundTrip(records: seq<Record>)
    ensures var t := ExportTable(records);
            forall i :: 0 <= i < |records| ==> |t[i + 1]| == 4 && RecordOfRow(t[i + 1]) == records[i]
  {
  }

  /** Reads a page label back: the text between "第 " and " 页", split at
      '/', must give two parts that `int()` accepts. */
  function ReadPageText(text: string): Option<(int, int)>
  {
    if |text| >= 4 && text[..2] == "第 " && text[|text| - 2..] == " 页" then
      var parts := Split(text[2..|text| - 2], '/');
      if |parts| == 2 && ParseInt(parts[0]).Some? && ParseInt(parts[1]).Some? then
        Some((ParseInt(parts[0]).value, ParseInt(parts[1]).value))
      else None
    else None
  }

  /** The page label names the current page and the page count: reading the
      label back gives both numbers. */
  lemma PageTextReadsBack(current: nat, total: nat)
    ensures ReadPageText(PageText(current, total)) == Some((current, total))
  {
    var a, b := NatToString(current), NatToString(total);
    var parts := [a + " ", " " + b];
    PageTextShape(a, b);
    SplitJoin(parts, '/');
    ParseIntSpaceAfter(current);
    ParseIntSpaceBefore(total);
    ReadLabel(Join(parts, '/'), parts, current, total);
  }

  /** A number with one space after it reads back with `int()`. */
  lemma ParseIntSpaceAfter(n: nat)
    ensures ParseInt(NatToString(n) + " ") == Some(n)
  {
    var s := NatToString(n);
    NoSeparatorInSpacedNumber(s, " ");
    SpacedNumberStrips(s);
    ParseIntOfStrip(s + " ", s);
    ParseIntOfNatToString(n);
  }

  /** A number with one space before it reads back with `int()`. */
  lemma ParseIntSpaceBefore(n: nat)
    ensures ParseInt(" " + NatToString(n)) == Some(n)
  {
    var s := NatToString(n);
    NoSeparatorInSpacedNumber(" ", s);
    SpacedNumberStrips(s);
    ParseIntOfStrip(" " + s, s);
    ParseIntOfNatToString(n);
  }

  /** `strip()` cuts the one space on either side of a number. */
  lemma SpacedNumberStrips(s: string)
    requires |s| > 0 && forall i :: 0 <= i < |s| ==> IsDigit(s[i])
    ensures Strip(s) == s && Strip(s + " ") == s && Strip(" " + s) == s
  {
    StripUnpadded(s);
    StripPadded([], s, " ");
    assert [] + s + " " == s + " ";
    StripPadded(" ", s, []);
    assert " " + s + [] == " " + s;
  }

  /** Digits and plain spaces hold no separator character, so `int()` skips
      the spaces around a number on the label. */
  lemma NoSeparatorInSpacedNumber(a: string, b: string)
    requires forall i :: 0 <= i < |a| ==> IsDigit(a[i]) || a[i] == ' '
    requires forall i :: 0 <= i < |b| ==> IsDigit(b[i]) || b[i] == ' '
    ensures !HasInfoSeparator(a) && !HasInfoSeparator(b) && !HasInfoSeparator(a + b)
  {
    forall i | 0 <= i < |a + b| ensures !IsInfoSeparator((a + b)[i]) {
      if i < |a| {
        assert (a + b)[i] == a[i];
      } else {
        assert (a + b)[i] == b[i - |a|];
      }
    }
  }

  /** A label whose middle part splits into two numbers reads back as them. */
  lemma ReadLabel(middle: string, parts: seq<string>, x: int, y: int)
    requires Split(middle, '/') == parts && |parts| == 2
    requires ParseInt(parts[0]) == Some(x) && ParseInt(parts[1]) == Some(y)
    ensures ReadPageText("第 " + middle + " 页") == Some((x, y))
  {
    LabelFrame(middle);
    var text := "第 " + middle + " 页";
    assert Split(text[2..|text| - 2], '/') == parts;
  }

  /** The page label's fixed text around its middle part. */
  lemma LabelFrame(middle: string)
    ensures var text := "第 " + middle + " 页";
            && |text| >= 4 && text[..2] == "第 " && text[|text| - 2..] == " 页"
            && text[2..|text| - 2] == middle
  {
  }

  /** The middle of the page label is the two numbers joined at '/', each
      padded with one space, and neither padded number holds a '/'. */
  lemma PageTextShape(a: string, b: string)
    requires forall i :: 0 <= i < |a| ==> IsDigit(a[i])
    requires forall i :: 0 <= i < |b| ==> IsDigit(b[i])
    ensures "第 " + a + " / " + b + " 页" == "第 " + Join([a + " ", " " + b], '/') + " 页"
    ensures '/' !in a + " " && '/' !in " " + b
  {
    var parts := [a + " ", " " + b];
    assert Join(parts, '/') == a + " " + ['/'] + " " + b by {
      assert parts[1..] == [" " + b];
    }
    var pa, pb := a + " ", " " + b;
    forall i | 0 <= i < |pa| ensures pa[i] != '/' {
      if i < |a| { assert pa[i] == a[i]; }
    }
    forall i | 0 <= i < |pb| ensures pb[i] != '/' {
      if i > 0 { assert pb[i] == b[i - 1]; }
    }
  }

  /** The loop of `update_treeview` that inserts the page's records one by
      one, tagging those with a value that contains the key. */
  method TagRows(window: seq<Record>, key: string) returns (rows: seq<Row>)
    ensures rows == TaggedRows(window, key)
  {
    rows := [];
    for i := 0 to |window|
      invariant |rows| == i
      invariant forall k :: 0 <= k < i ==> rows[k] == Row(window[k], key != [] && Matches(window[k], key))
    {
      var tagged := false;
      if key != [] {
        tagged := AnyFieldContains(Fields(window[i]), key);
      }
      rows := rows + [Row(window[i], tagged)];
    }
  }

  // ---------------------------------------------------------------------
  // Searching one record's values
  // ---------------------------------------------------------------------

  /** The loop over a record's values that stops at the first one containing
      the key (used by the search and by the row highlighting). */
  method AnyFieldContains(values: seq<string>, key: string) returns (found: bool)
    ensures found <==> AnyContains(values, key)
  {
    found := false;
    var i := 0;
    while i < |values|
      invariant 0 <= i <= |values|
      invariant !found
      invariant AnyContains(values, key) == AnyContains(values[i..], key)
    {
      if Contains(Lower(values[i]), key) {
        found := true;
        break;
      }
      i := i + 1;
    }
  }

  /** The search loop of `_perform_search`: every record with a value that
      contains the key, in order. */
  method FilterRecords(records: seq<Record>, key: string) returns (found: seq<Record>)
    ensures found == Filter(records, key)
  {
    found := [];
    for i := 0 to |records|
      invariant found == Filter(records[..i], key)
    {
      assert records[..i + 1][..i] == records[..i];
      var hit := AnyFieldContains(Fields(records[i]), key);
      if hit {
        found := found + [records[i]];
      }
    }
    assert records[..|records|] == records;
  }

  // ---------------------------------------------------------------------
  // The window's state
  // ---------------------------------------------------------------------

  /** What `_jump_to_page` does with the entry's text: go to a page, warn
      that the number is out of range, or warn that it is not a number. */
  datatype JumpResult = Jumped(page: nat) | OutOfRange | NotANumber

  /** The decision `_jump_to_page` takes for `entry` with `total` pages. */
  function Jump(entry: string, total: nat): (r: JumpResult)
    ensures r.Jumped? ==> 1 <= r.page <= total
  {
    match ParseInt(entry)
    case None => NotANumber
    case Some(n) => if 1 <= n <= total then Jumped(n) else OutOfRange
  }

  /** Jumping goes exactly to the pages that exist, and only when the entry
      reads as an integer. */
  lemma JumpSpec(entry: string, total: nat)
    ensures Jump(entry, total).Jumped? <==>
              ParseInt(entry).Some? && 1 <= ParseInt(entry).value <= total
    ensures Jump(entry, total).Jumped? ==> Jump(entry, total).page == ParseInt(entry).value
    ensures Jump(entry, total) == NotANumber <==> ParseInt(entry).None?
  {
  }

  /** Typing the number of any page as the page label shows it jumps to
      that page. */
  lemma JumpToLabelledPage(p: nat, total: nat)
    requires 1 <= p <= total
    ensures Jump(NatToString(p), total) == Jumped(p)
  {
    ParseIntOfNatToString(p);
  }

  class HelperApp {
    var allData: seq<Record>
    var filteredData: seq<Record>
    var currentPage: nat
    var totalPages: nat
    /** Text of the search entry. */
    var searchText: string
    /** Text of the jump-to-page entry. */
    var pageEntry: string
    /** Rows of the tree view, top to bottom. */
    var view: seq<Row>
    var prevEnabled: bool
    var nextEnabled: bool
    var pageLabel: string
    var hotkey: string
    /** The search key the table was last filtered with ("" after an add). */
    ghost var appliedKey: string

    /** The filtered records are the records the last search let through. */
    ghost predicate SearchApplied()
      reads this`allData, this`filteredData, this`appliedKey
    {
      filteredData == Filtered(allData, appliedKey)
    }

    /** The page count fits the filtered records and the page is within range. */
    ghost predicate PageInRange()
      reads this`filteredData, this`currentPage, this`totalPages
    {
      && totalPages == PageCount(|filteredData|)
      && 1 <= currentPage <= totalPages
    }

    ghost predicate Valid()
      reads this`allData, this`filteredData, this`currentPage, this`totalPages, this`appliedKey
    {
      SearchApplied() && PageInRange()
    }

    /** The page buttons and the label agree with the page. */
    ghost predicate ControlsShown()
      reads this`currentPage, this`totalPages, this`prevEnabled, this`nextEnabled, this`pageLabel
    {
      && prevEnabled == (currentPage > 1)
      && nextEnabled == (currentPage < totalPages)
      && pageLabel == PageText(currentPage, totalPages)
    }

    /** The tree view shows the current page and the controls agree with it. */
    ghost predicate Shown()
      reads this`currentPage, this`totalPages, this`prevEnabled, this`nextEnabled, this`pageLabel
      reads this`view, this`filteredData, this`searchText
    {
      && currentPage >= 1
      && view == PageRows(filteredData, currentPage, SearchKey(searchText))
      && ControlsShown()
    }

    /** `__init__` with the hotkey read from the configuration file, or
        `None` when there is no file, no such entry, or it cannot be read. */
    constructor (savedHotkey: Option<string>)
      ensures Valid()
      ensures allData == [] && filteredData == [] && view == []
      ensures currentPage == 1 && totalPages == 1
      ensures pageLabel == PageText(1, 1) && prevEnabled && nextEnabled
      ensures searchText == [] && pageEntry == []
      ensures hotkey == savedHotkey.GetOr("F1")
    {
      allData := [];
      filteredData := [];
      currentPage := 1;
      totalPages := 1;
      searchText := [];
      pageEntry := [];
      view := [];
      prevEnabled := true;
      nextEnabled := true;
      pageLabel := PageText(1, 1);
      hotkey := savedHotkey.GetOr("F1");
      appliedKey := [];
    }

    /** The user edits the search entry (the search itself runs later). */
    method SetSearchText(text: string)
      modifies this`searchText
      ensures searchText == text
    {
      searchText := text;
    }

    /** The user edits the jump-to-page entry. */
    method SetPageEntry(text: string)
      modifies this`pageEntry
      ensures pageEntry == text
    {
      pageEntry := text;
    }

    /** `update_page_controls`. */
    method UpdatePageControls()
      modifies this`prevEnabled, this`nextEnabled, this`pageLabel
      ensures ControlsShown()
    {
      pageLabel := PageText(currentPage, totalPages);
      prevEnabled := currentPage > 1;
      nextEnabled := currentPage < totalPages;
    }

    /** `update_treeview`: show the rows of the current page, tagging those
        with a value that contains the search key, then refresh the controls. */
    method UpdateTreeview()
      requires currentPage >= 1
      modifies this`view, this`prevEnabled, this`nextEnabled, this`pageLabel
      ensures Shown()
    {
      var start := (currentPage - 1) * PageSize;
      var window := Slice(filteredData, start, start + PageSize);
      view := TagRows(window, SearchKey(searchText));
      assert window == Window(filteredData, currentPage);
      UpdatePageControls();
    }

    /** `_perform_search`: filter the records by the search key, go back to
        page 1 and redraw. */
    method PerformSearch()
      requires Valid()
      modifies this`filteredData, this`appliedKey, this`totalPages, this`currentPage
      modifies this`view, this`prevEnabled, this`nextEnabled, this`pageLabel
      ensures Valid() && Shown()
      ensures appliedKey == SearchKey(searchText)
      ensures filteredData == Filtered(allData, SearchKey(searchText))
      ensures currentPage == 1 && totalPages == PageCount(|filteredData|)
    {
      var key := SearchKey(searchText);
      if key != [] {
        filteredData := FilterRecords(allData, key);
      } else {
        filteredData := allData;
      }
      appliedKey := key;
      totalPages := PageCount(|filteredData|);
      ShowPage(1);
    }

    /** `prev_page`. */
    method PrevPage()
      requires Valid()
      modifies this`currentPage
      modifies this`view, this`prevEnabled, this`nextEnabled, this`pageLabel
      ensures Valid()
      ensures currentPage == if old(currentPage) > 1 then old(currentPage) - 1 else old(currentPage)
      ensures old(currentPage) > 1 ==> Shown()
      ensures old(currentPage) <= 1 ==> && view == old(view) && prevEnabled == old(prevEnabled)
                                        && nextEnabled == old(nextEnabled) && pageLabel == old(pageLabel)
    {
      if currentPage > 1 {
        ShowPage(currentPage - 1);
      }
    }

    /** `next_page`. */
    method NextPage()
      requires Valid()
      modifies this`currentPage
      modifies this`view, this`prevEnabled, this`nextEnabled, this`pageLabel
      ensures Valid()
      ensures currentPage == if old(currentPage) < old(totalPages) then old(currentPage) + 1 else old(currentPage)
      ensures old(currentPage) < old(totalPages) ==> Shown()
      ensures old(currentPage) >= old(totalPages) ==> && view == old(view) && prevEnabled == old(prevEnabled)
                                                      && nextEnabled == old(nextEnabled) && pageLabel == old(pageLabel)
    {
      if currentPage < totalPages {
        ShowPage(currentPage + 1);
      }
    }

    /** Go to page `p` and redraw: the last step of `prev_page`,
        `next_page`, `_jump_to_page`, `_perform_search` and `add_new_data`. */
    method ShowPage(p: nat)
      requires SearchApplied() && totalPages == PageCount(|filteredData|) && 1 <= p <= totalPages
      modifies this`currentPage
      modifies this`view, this`prevEnabled, this`nextEnabled, this`pageLabel
      ensures Valid() && Shown() && currentPage == p
    {
      currentPage := p;
      UpdateTreeview();
    }

    /** `_jump_to_page`: go to the page typed in the entry if it is an integer
        between 1 and the page count; the entry is cleared either way. */
    method JumpToPage() returns (result: JumpResult)
      requires Valid()
      modifies this`pageEntry, this`currentPage
      modifies this`view, this`prevEnabled, this`nextEnabled, this`pageLabel
      ensures Valid()
      ensures pageEntry == []
      ensures result == Jump(old(pageEntry), old(totalPages))
      ensures result.Jumped? ==> currentPage == result.page && Shown()
      ensures !result.Jumped? ==> && currentPage == old(currentPage) && view == old(view)
                                  && prevEnabled == old(prevEnabled) && nextEnabled == old(nextEnabled)
                                  && pageLabel == old(pageLabel)
    {
      result := Jump(pageEntry, totalPages);
      pageEntry := [];
      if result.Jumped? {
        ShowPage(result.page);
      }
    }

    /** `add_new_data`: put the new record first, show every record again
        (even while a search key is in the entry) and go to page 1. `now` is
        the creation time as the clock formats it. */
    method AddNewData(nickname: string, orderNo: string, merchant: string, now: string)
      requires Valid()
      modifies this`allData, this`filteredData, this`appliedKey, this`totalPages, this`currentPage
      modifies this`view, this`prevEnabled, this`nextEnabled, this`pageLabel
      ensures Valid() && Shown()
      ensures allData == [Record(nickname, orderNo, merchant, now)] + old(allData)
      ensures filteredData == allData && appliedKey == []
      ensures currentPage == 1 && totalPages == PageCount(|allData|)
    {
      var record := Record(nickname, orderNo, merchant, now);
      allData := [record] + allData;
      filteredData := allData;
      appliedKey := [];
      totalPages := PageCount(|filteredData|);
      ShowPage(1);
    }

    /** `clear_data`: when the user confirms, drop every record and go to
        page 1 of 1; otherwise change nothing. */
    method ClearData(confirmed: bool)
      requires Valid()
      modifies this`allData, this`filteredData, this`totalPages, this`currentPage
      modifies this`view, this`prevEnabled, this`nextEnabled, this`pageLabel
      ensures Valid()
      ensures confirmed ==> && allData == [] && filteredData == [] && view == []
                            && currentPage == 1 && totalPages == 1 && Shown()
      ensures !confirmed ==> && allData == old(allData) && filteredData == old(filteredData)
                             && view == old(view) && currentPage == old(currentPage)
                             && totalPages == old(totalPages) && prevEnabled == old(prevEnabled)
                             && nextEnabled == old(nextEnabled) && pageLabel == old(pageLabel)
    {
      if confirmed {
        view := [];
        allData := [];
        filteredData := [];
        currentPage := 1;
        totalPages := 1;
        UpdatePageControls();
      }
    }

    /** `export_data`: with no records, warn and write nothing; otherwise ask
        for a file (`path`, `None` or empty when the dialog is cancelled) and
        write the header and every record in table order. Returns the rows
        written. */
    method ExportData(path: Option<string>) returns (written: Option<seq<seq<string>>>)
      ensures allData == [] ==> written.None?
      ensures allData != [] && (path.None? || path.value == []) ==> written.None?
      ensures allData != [] && path.Some? && path.value != [] ==> written == Some(ExportTable(allData))
    {
      if allData == [] {
        return None;
      }
      if path.None? || path.value == [] {
        return None;
      }
      written := Some(ExportTable(allData));
    }

    /** `change_hotkey` after the dialog closes: a non-empty result becomes
        the hotkey; a cancelled dialog changes nothing. */
    method ChangeHotkey(dialogResult: Option<string>)
      modifies this`hotkey
      ensures dialogResult.Some? && dialogResult.value != [] ==> hotkey == dialogResult.value
      ensures dialogResult.None? || dialogResult.value == [] ==> hotkey == old(hotkey)
    {
      if dialogResult.Some? && dialogResult.value != [] {
        hotkey := dialogResult.value;
      }
    }

    /** `on_hotkey_pressed`: run the capture pipeline; when it hands on a
        record, add it with the harvested values in their positions (first
        result as nickname, second as merchant, third as order number). */
    method OnHotkeyPressed(config: Option<seq<OcrCapture.Step>>, envs: seq<OcrCapture.StepEnv>, now: string)
      returns (ok: bool, trace: seq<OcrCapture.Event>)
      requires Valid()
      requires config.Some? ==> |config.value| == |envs|
      modifies this`allData, this`filteredData, this`appliedKey, this`totalPages, this`currentPage
      modifies this`view, this`prevEnabled, this`nextEnabled, this`pageLabel
      ensures Valid()
      ensures config.None? ==> !ok && trace == []
      ensures config.Some? ==>
                var results := OcrCapture.Harvest(OcrCapture.Runs(config.value, envs));
                && ok == (|results| >= 3)
                && trace == OcrCapture.Trace(OcrCapture.Runs(config.value, envs))
                && (ok ==> allData == [Record(results[0], results[2], results[1], now)] + old(allData))
      ensures ok ==> && filteredData == allData && appliedKey == [] && Shown()
                     && currentPage == 1 && totalPages == PageCount(|allData|)
      ensures !ok ==> && allData == old(allData) && filteredData == old(filteredData)
                      && appliedKey == old(appliedKey) && view == old(view)
                      && currentPage == old(currentPage) && totalPages == old(totalPages)
                      && prevEnabled == old(prevEnabled) && nextEnabled == old(nextEnabled)
                      && pageLabel == old(pageLabel)
    {
      var sink: Option<OcrCapture.CaptureRecord>;
      ok, sink, trace := OcrCapture.StartCapture(config, envs);
      if sink.Some? {
        var rec := sink.value;
        AddNewData(rec.nickname, rec.orderNo, rec.merchant, now);
      }
    }
  }
}
