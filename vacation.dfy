/** The admin page for blocked dates (the shop's holidays). The page keeps the rows
    loaded from the `blocked_dates` table, the list being edited and the calendar
    widget's selection; the table itself is a field too, so that deletes and inserts
    can be followed. Dates are the strings the table stores (`YYYY-MM-DD`); the
    browser's UTC offset, local time minus UTC in minutes, is a parameter. */
module Vacation {
  import opened Text
  import opened Calendar
  import opened Sequences

  /** A row of `blocked_dates`: the date string and its reason. */
  datatype Entry = Entry(date: string, reason: string)

  const Holiday: string := "Godišnji"

  /** The shape `YYYY-MM-DD` that `new Date(s)` reads as UTC midnight. */
  predicate IsoShape(s: string)
  {
    |s| == 10 && AllDigits(s[..4]) && s[4] == '-' && AllDigits(s[5..7]) && s[7] == '-' && AllDigits(s[8..])
  }

  /** The UTC day a date string names, or `None` for an invalid date. Only the
      `YYYY-MM-DD` form is read; a day of the month up to 31 rolls over into the
      next month as the day arithmetic does. */
  function ParseIsoDate(s: string): (r: Option<int>)
    ensures r.Some? ==> IsoShape(s)
  {
    if !IsoShape(s) then None
    else
      var y, m, d := DigitsValue(s[..4]), DigitsValue(s[5..7]), DigitsValue(s[8..]);
      if 1 <= m <= 12 && 1 <= d <= 31 then Some(DaysFromCivil(CivilDate(y, m, d))) else None
  }

  /** The local calendar day on which UTC midnight of `utcDay` falls. */
  function LocalDayOfUtcMidnight(utcDay: int, offset: int): int
  {
    DayOf(Midnight(utcDay) + offset)
  }

  /** `new Date(s)` seen on the local calendar (`toDateString`, `getFullYear`, ...). */
  function ReadLocalDay(s: string, offset: int): Option<int>
  {
    match ParseIsoDate(s)
    case None => None
    case Some(u) => Some(LocalDayOfUtcMidnight(u, offset))
  }

  /** The year as `toISOString` writes it: four digits, or a sign and six digits. */
  function YearText(y: int): string
  {
    if 0 <= y <= 9999 then PadTo(NatToString(y), 4)
    else if y < 0 then "-" + PadTo(NatToString(-y), 6)
    else "+" + PadTo(NatToString(y), 6)
  }

  /** `toISOString().split('T')[0]` of an instant on UTC day `utcDay`. */
  function IsoDate(utcDay: int): string
  {
    var c := CivilFromDays(utcDay);
    YearText(c.year) + "-" + TwoDigits(c.month) + "-" + TwoDigits(c.dayOfMonth)
  }

  /** The last two decimal digits of `n`: how `toISOString` writes a month or a day. */
  function TwoDigits(n: int): string
  {
    [DigitChar(n % 100 / 10), DigitChar(n % 10)]
  }

  /** For a month or a day of the month this is `String(n).padStart(2, '0')`. */
  lemma TwoDigitsAgrees(n: nat)
    requires n < 100
    ensures TwoDigits(n) == PadStart2(IntToString(n))
  {
    assert IntToString(n) == NatToString(n);
    if n < 10 {
      OneDigit(n);
    } else {
      TwoDigitsOfTens(n);
    }
  }

  lemma OneDigit(n: nat)
    requires n < 10
    ensures TwoDigits(n) == PadStart2(NatToString(n))
  {
    assert n % 100 / 10 == 0 && n % 10 == n;
    assert DigitChar(0) == '0';
  }

  lemma TwoDigitsOfTens(n: nat)
    requires 10 <= n < 100
    ensures TwoDigits(n) == PadStart2(NatToString(n))
  {
    assert n % 100 / 10 == n / 10 && n / 10 < 10;
    assert NatToString(n) == NatToString(n / 10) + [DigitChar(n % 10)];
  }

  /** The date stored for a clicked local day: the ISO (UTC) date of the local
      midnight one day later. */
  function NextDay(clicked: int, offset: int): string
  {
    IsoDate(NextDayUtc(clicked, offset))
  }

  /** The UTC day of the local midnight after the clicked day. */
  function NextDayUtc(clicked: int, offset: int): int
  {
    DayOf(Midnight(clicked + 1) - offset)
  }

  /** East of Greenwich the stored date is the clicked day itself; at UTC and west of
      it, the stored date is the day after. */
  lemma NextDayNames(clicked: int, offset: int)
    requires -MinutesPerDay < offset < MinutesPerDay
    ensures offset > 0 ==> NextDayUtc(clicked, offset) == clicked
    ensures offset <= 0 ==> NextDayUtc(clicked, offset) == clicked + 1
  {
    var t := Midnight(clicked + 1) - offset;
    if offset > 0 {
      DayOfBetween(t, clicked);
    } else {
      DayOfBetween(t, clicked + 1);
    }
  }

  /** `normalizeDate` on a string: its first ten characters. */
  function NormalizeDate(s: string): (r: string)
    ensures |r| <= 10 && |r| <= |s| && r == s[..|r|]
    ensures |s| >= 10 ==> |r| == 10
    ensures |s| <= 10 ==> r == s
  {
    if |s| <= 10 then s else s[..10]
  }

  lemma NormalizeDateIdempotent(s: string)
    ensures NormalizeDate(NormalizeDate(s)) == NormalizeDate(s)
    ensures IsoShape(s) ==> NormalizeDate(s) == s
  {
  }

  function NormalizeAll(es: seq<Entry>): (r: seq<Entry>)
    ensures |r| == |es|
    ensures forall i :: 0 <= i < |es| ==> r[i] == es[i].(date := NormalizeDate(es[i].date))
  {
    seq(|es|, i requires 0 <= i < |es| => es[i].(date := NormalizeDate(es[i].date)))
  }

  function DatesOf(es: seq<Entry>): (ds: set<string>)
    ensures forall d :: d in ds <==> exists e :: e in es && e.date == d
  {
    set e | e in es :: e.date
  }

  /** `es.filter(item => !dates.has(item.date))`. */
  function WithoutDates(es: seq<Entry>, dates: set<string>): (r: seq<Entry>)
    ensures forall e :: e in r <==> e in es && e.date !in dates
    ensures Subsequence(r, es)
    ensures forall e :: multiset(r)[e] == if e.date !in dates then multiset(es)[e] else 0
  {
    if es == [] then []
    else
      assert es == [es[0]] + es[1..];
      var rest := WithoutDates(es[1..], dates);
      if es[0].date in dates then rest else [es[0]] + rest
  }

  /** What `saveDates` inserts, and the count its notice reports. */
  datatype Merge = Merge(rows: seq<Entry>, selectedCount: nat)

  /** `saveDates`: both lists normalised, every date found in both dropped, the stored
      remainder followed by the selected remainder. */
  function MergeDates(stored: seq<Entry>, selected: seq<Entry>): (m: Merge)
    ensures m.selectedCount <= |m.rows|
  {
    var db, sel := NormalizeAll(stored), NormalizeAll(selected);
    var duplicates := DatesOf(db) * DatesOf(sel);
    var uniqueDb, uniqueSelected := WithoutDates(db, duplicates), WithoutDates(sel, duplicates);
    Merge(uniqueDb + uniqueSelected, |uniqueSelected|)
  }

  /** The rows saved are the stored entries whose date was not selected, in order,
      then the selected entries whose date was not stored, in order; the count is the
      number of the latter, and no saved date is in both lists. */
  lemma MergeDatesSpec(stored: seq<Entry>, selected: seq<Entry>)
    ensures var m, db, sel := MergeDates(stored, selected), NormalizeAll(stored), NormalizeAll(selected);
      var k := |m.rows| - m.selectedCount;
      && Subsequence(m.rows[..k], db)
      && Subsequence(m.rows[k..], sel)
      && (forall e :: e in m.rows[..k] <==> e in db && e.date !in DatesOf(sel))
      && (forall e :: e in m.rows[k..] <==> e in sel && e.date !in DatesOf(db))
      && (forall e :: e in m.rows ==> !(e.date in DatesOf(db) && e.date in DatesOf(sel)))
  {
    var m, db, sel := MergeDates(stored, selected), NormalizeAll(stored), NormalizeAll(selected);
    var duplicates := DatesOf(db) * DatesOf(sel);
    var uniqueDb, uniqueSelected := WithoutDates(db, duplicates), WithoutDates(sel, duplicates);
    var k := |m.rows| - m.selectedCount;
    assert m.rows[..k] == uniqueDb && m.rows[k..] == uniqueSelected;
    forall e | e in m.rows ensures !(e.date in DatesOf(db) && e.date in DatesOf(sel)) {
      assert e in uniqueDb || e in uniqueSelected;
    }
  }

  /** `${getFullYear()}-${getMonth()}` of the local date, with the zero-based month;
      an invalid date gives `NaN-NaN`. */
  function MonthKey(e: Entry, offset: int): string
  {
    match ReadLocalDay(e.date, offset)
    case None => "NaN-NaN"
    case Some(day) =>
      var c := CivilFromDays(day);
      IntToString(c.year) + "-" + IntToString(c.month - 1)
  }

  function MonthKeyOf(offset: int): Entry -> string
  {
    e => MonthKey(e, offset)
  }

  /** The entries of one month, in list order. */
  function Group(es: seq<Entry>, key: string, keyOf: Entry -> string): (r: seq<Entry>)
    ensures forall e :: e in r <==> e in es && keyOf(e) == key
  {
    if es == [] then []
    else
      var last := es[|es| - 1];
      Group(es[..|es| - 1], key, keyOf) + (if keyOf(last) == key then [last] else [])
  }

  function KeysOf(es: seq<Entry>, keyOf: Entry -> string): set<string>
  {
    set e | e in es :: keyOf(e)
  }

  /** `groups[key]` created empty if missing, then `e` pushed onto it. */
  function Push(groups: map<string, seq<Entry>>, e: Entry, keyOf: Entry -> string): (r: map<string, seq<Entry>>)
  {
    var key := keyOf(e);
    groups[key := (if key in groups then groups[key] else []) + [e]]
  }

  /** The groups after the entries have been pushed in list order. */
  function Grouped(es: seq<Entry>, keyOf: Entry -> string): map<string, seq<Entry>>
  {
    if es == [] then map[] else Push(Grouped(es[..|es| - 1], keyOf), es[|es| - 1], keyOf)
  }

  lemma GroupedStep(es: seq<Entry>, i: int, keyOf: Entry -> string)
    requires 0 <= i < |es|
    ensures Grouped(es[..i + 1], keyOf) == Push(Grouped(es[..i], keyOf), es[i], keyOf)
  {
    assert es[..i + 1][..i] == es[..i];
  }

  lemma GroupedWhole(es: seq<Entry>, keyOf: Entry -> string)
    ensures Grouped(es[..|es|], keyOf) == Grouped(es, keyOf)
  {
    assert es[..|es|] == es;
  }

  /** Creating the missing group and then pushing is one `Push`. */
  lemma PushInTwoSteps(before: map<string, seq<Entry>>, after: map<string, seq<Entry>>, e: Entry,
                       keyOf: Entry -> string)
    requires var key := keyOf(e);
      after == (if key in before then before else before[key := []])[key := (if key in before then before[key] else []) + [e]]
    ensures after == Push(before, e, keyOf)
  {
  }

  /** The groups are exactly the month keys that occur, and each holds the entries of
      its month in list order: every entry lands in its own month's group and in no
      other, and no group is empty. */
  lemma GroupedByKey(es: seq<Entry>, keyOf: Entry -> string)
    ensures Grouped(es, keyOf).Keys == KeysOf(es, keyOf)
    ensures forall k :: k in Grouped(es, keyOf) ==> Grouped(es, keyOf)[k] == Group(es, k, keyOf)
    ensures forall k, e :: k in Grouped(es, keyOf) ==>
              (e in Grouped(es, keyOf)[k] <==> e in es && keyOf(e) == k)
    ensures forall k :: k in Grouped(es, keyOf) ==> Grouped(es, keyOf)[k] != []
  {
    var g := Grouped(es, keyOf);
    GroupedGroups(es, keyOf);
    forall k | k in g ensures g[k] != [] {
      var x :| x in es && keyOf(x) == k;
      assert x in Group(es, k, keyOf);
    }
  }

  lemma {:induction false} GroupedGroups(es: seq<Entry>, keyOf: Entry -> string)
    ensures Grouped(es, keyOf).Keys == KeysOf(es, keyOf)
    ensures forall k :: k in Grouped(es, keyOf) ==> Grouped(es, keyOf)[k] == Group(es, k, keyOf)
  {
    if es != [] {
      var s, e := es[..|es| - 1], es[|es| - 1];
      GroupedGroups(s, keyOf);
      PushGroups(es, s, e, Grouped(s, keyOf), keyOf);
    }
  }

  /** Pushing the last entry onto the groups of the others gives the groups of all. */
  lemma PushGroups(es: seq<Entry>, s: seq<Entry>, e: Entry, g: map<string, seq<Entry>>, keyOf: Entry -> string)
    requires es != [] && s == es[..|es| - 1] && e == es[|es| - 1]
    requires g.Keys == KeysOf(s, keyOf)
    requires forall k :: k in g ==> g[k] == Group(s, k, keyOf)
    ensures Push(g, e, keyOf).Keys == KeysOf(es, keyOf)
    ensures forall k :: k in Push(g, e, keyOf) ==> Push(g, e, keyOf)[k] == Group(es, k, keyOf)
  {
    PushKeys(es, s, e, keyOf);
    forall k | k in Push(g, e, keyOf) ensures Push(g, e, keyOf)[k] == Group(es, k, keyOf) {
      PushGroup(es, s, e, g, k, keyOf);
    }
  }

  lemma PushKeys(es: seq<Entry>, s: seq<Entry>, e: Entry, keyOf: Entry -> string)
    requires es != [] && s == es[..|es| - 1] && e == es[|es| - 1]
    ensures KeysOf(es, keyOf) == KeysOf(s, keyOf) + {keyOf(e)}
  {
    assert es == s + [e];
  }

  lemma PushGroup(es: seq<Entry>, s: seq<Entry>, e: Entry, g: map<string, seq<Entry>>, k: string,
                  keyOf: Entry -> string)
    requires es != [] && s == es[..|es| - 1] && e == es[|es| - 1]
    requires g.Keys == KeysOf(s, keyOf)
    requires k in g ==> g[k] == Group(s, k, keyOf)
    requires k in g || k == keyOf(e)
    ensures Push(g, e, keyOf)[k] == Group(es, k, keyOf)
  {
    if k !in g {
      GroupOfAbsentKey(s, k, keyOf);
    }
  }

  lemma GroupOfAbsentKey(s: seq<Entry>, key: string, keyOf: Entry -> string)
    requires key !in KeysOf(s, keyOf)
    ensures Group(s, key, keyOf) == []
  {
    if Group(s, key, keyOf) != [] {
      assert Group(s, key, keyOf)[0] in Group(s, key, keyOf);
    }
  }

  class Page {
    /** `dataBaseDates`: the rows as loaded. */
    var stored: seq<Entry>
    /** `selectedDates`: the list being edited. */
    var selected: seq<Entry>
    /** `selectedDatesForCalendar`: the local days the widget shows, `None` for an
        invalid date. */
    var calendar: seq<Option<int>>
    /** The `blocked_dates` table. */
    var table: seq<Entry>

    /** The page after `fetchBlockedDates` has returned `loaded`. */
    constructor(table: seq<Entry>, loaded: seq<Entry>, offset: int)
      ensures this.table == table && stored == loaded && selected == loaded
      ensures |calendar| == |loaded|
      ensures forall i :: 0 <= i < |loaded| ==> calendar[i] == ReadLocalDay(loaded[i].date, offset)
    {
      this.table := table;
      stored := loaded;
      selected := loaded;
      calendar := seq(|loaded|, i requires 0 <= i < |loaded| => ReadLocalDay(loaded[i].date, offset));
    }

    /** `handleDateSelect`: the widget passes its new selection, local days in click
        order. Clicking a day already in the list removes every entry on that day;
        any other click appends one holiday entry stored as `NextDay`. An empty
        selection makes the handler throw before changing anything. */
    method HandleDateSelect(clicked: Option<seq<int>>, offset: int)
      modifies this
      ensures stored == old(stored) && table == old(table)
      ensures clicked.None? || clicked.value == [] ==> selected == old(selected) && calendar == old(calendar)
      ensures clicked.Some? && clicked.value != [] ==>
        var day := clicked.value[|clicked.value| - 1];
        if HoldsDay(old(selected), day, offset) then
          && calendar == old(calendar)
          && Subsequence(selected, old(selected))
          && (forall e :: e in selected <==> e in old(selected) && ReadLocalDay(e.date, offset) != Some(day))
          && (forall e :: multiset(selected)[e] ==
                if ReadLocalDay(e.date, offset) != Some(day) then multiset(old(selected))[e] else 0)
        else
          && calendar == Shown(clicked.value)
          && selected == old(selected) + [Entry(NextDay(day, offset), Holiday)]
    {
      if clicked.None? || clicked.value == [] {
        return;
      }
      var days := clicked.value;
      var day := days[|days| - 1];
      if HoldsDay(selected, day, offset) {
        selected := WithoutDay(selected, day, offset);
      } else {
        calendar := Shown(days);
        selected := selected + [Entry(NextDay(day, offset), Holiday)];
      }
    }

    /** `removeDate`: the table loses the rows with that date unless the delete fails,
        the list loses its entries with that date, and the filter `date !== date`
        empties the calendar selection. */
    method RemoveDate(removed: Entry, deleteError: bool)
      modifies this
      ensures stored == old(stored)
      ensures table == if deleteError then old(table) else WithoutDates(old(table), {removed.date})
      ensures selected == WithoutDates(old(selected), {removed.date})
      ensures calendar == []
    {
      if !deleteError {
        table := WithoutDates(table, {removed.date});
      }
      selected := WithoutDates(selected, {removed.date});
      calendar := [];
    }

    /** `saveDates`: the merged rows are inserted (unless the insert fails) and the
        notice reports the number of newly selected dates, whatever the outcome. The
        loaded rows are not refreshed. */
    method SaveDates(insertError: bool) returns (count: nat)
      modifies this
      ensures stored == old(stored) && selected == old(selected) && calendar == old(calendar)
      ensures table == if insertError then old(table) else old(table) + MergeDates(stored, selected).rows
      ensures count == MergeDates(stored, selected).selectedCount
    {
      var m := MergeDates(stored, selected);
      if !insertError {
        table := table + m.rows;
      }
      count := m.selectedCount;
    }

    /** The render-time loop that builds `groupedByMonth`. */
    method GroupByMonth(offset: int) returns (groups: map<string, seq<Entry>>)
      ensures groups == Grouped(selected, MonthKeyOf(offset))
    {
      var keyOf := MonthKeyOf(offset);
      groups := map[];
      var i := 0;
      while i < |selected|
        invariant 0 <= i <= |selected|
        invariant groups == Grouped(selected[..i], keyOf)
      {
        var e := selected[i];
        var key := keyOf(e);
        GroupedStep(selected, i, keyOf);
        ghost var before := groups;
        if key !in groups {
          groups := groups[key := []];
        }
        groups := groups[key := groups[key] + [e]];
        PushInTwoSteps(before, groups, e, keyOf);
        i := i + 1;
      }
      GroupedWhole(selected, keyOf);
    }
  }

  /** A widget selection as the calendar list holds it. */
  function Shown(days: seq<int>): (r: seq<Option<int>>)
    ensures |r| == |days| && forall i :: 0 <= i < |days| ==> r[i] == Some(days[i])
  {
    seq(|days|, i requires 0 <= i < |days| => Some(days[i]))
  }

  /** Some entry is read as local day `day`, scanning the list in order. */
  predicate HoldsDay(es: seq<Entry>, day: int, offset: int)
  {
    es != [] && (ReadLocalDay(es[0].date, offset) == Some(day) || HoldsDay(es[1..], day, offset))
  }

  /** The scan finds the day exactly when some entry of the list is read as it. */
  lemma {:induction false} HoldsDaySpec(es: seq<Entry>, day: int, offset: int)
    ensures HoldsDay(es, day, offset) <==> exists e :: e in es && ReadLocalDay(e.date, offset) == Some(day)
  {
    if es != [] {
      HoldsDaySpec(es[1..], day, offset);
      assert forall e :: e in es <==> e == es[0] || e in es[1..];
    }
  }

  /** The entries not read as local day `day`. */
  function WithoutDay(es: seq<Entry>, day: int, offset: int): (r: seq<Entry>)
    ensures forall e :: e in r <==> e in es && ReadLocalDay(e.date, offset) != Some(day)
    ensures Subsequence(r, es)
    ensures forall e :: multiset(r)[e] == if ReadLocalDay(e.date, offset) != Some(day) then multiset(es)[e] else 0
  {
    if es == [] then []
    else
      assert es == [es[0]] + es[1..];
      var rest := WithoutDay(es[1..], day, offset);
      if ReadLocalDay(es[0].date, offset) == Some(day) then rest else [es[0]] + rest
  }
}
