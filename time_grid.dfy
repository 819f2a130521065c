/** `generateTimeSlots(startHour, endHour, intervalMinutes)`: every hour from the first to
    the last contributes the minutes 0, i, 2i, ... below 60, except the last hour, which
    contributes only its full hour; each start is labelled `HH:MM`. */
module TimeGrid {
  import opened Text
  import opened Clock
  import opened SlotAllocator

  datatype HourMinute = HourMinute(hour: nat, minute: nat)

  function Value(t: HourMinute): int { t.hour * 60 + t.minute }

  function Values(ts: seq<HourMinute>): (r: seq<int>)
    ensures |r| == |ts| && forall k :: 0 <= k < |ts| ==> r[k] == Value(ts[k])
  {
    seq(|ts|, k requires 0 <= k < |ts| => Value(ts[k]))
  }

  function Labels(ts: seq<HourMinute>): (r: seq<string>)
    ensures |r| == |ts|
  {
    seq(|ts|, k requires 0 <= k < |ts| => ClockLabel(ts[k].hour, ts[k].minute))
  }

  /** The starts of hour `h` from minute `m` on, stepping by `interval`, below 60. */
  function RowFrom(h: nat, m: nat, interval: nat): (r: seq<HourMinute>)
    requires interval > 0
    decreases 60 - m
  {
    if m < 60 then [HourMinute(h, m)] + RowFrom(h, m + interval, interval) else []
  }

  function HourRow(h: nat, endHour: nat, interval: nat): seq<HourMinute>
    requires interval > 0
  {
    if h == endHour then [HourMinute(h, 0)] else RowFrom(h, 0, interval)
  }

  /** The grid from hour `h` to `endHour` inclusive. */
  function Grid(h: nat, endHour: nat, interval: nat): seq<HourMinute>
    requires interval > 0
    decreases endHour + 1 - h
  {
    if h > endHour then [] else HourRow(h, endHour, interval) + Grid(h + 1, endHour, interval)
  }

  /** What remains of hour `h` once the inner loop has reached minute `m`. */
  function RestOfHour(h: nat, m: nat, endHour: nat, interval: nat): seq<HourMinute>
    requires interval > 0
  {
    if h == endHour then (if m == 0 then [HourMinute(h, 0)] else []) else RowFrom(h, m, interval)
  }

  /** The nested loops of `generateTimeSlots`; the inner loop is `EmitHour`. */
  method GenerateTimeSlots(startHour: nat, endHour: nat, interval: nat) returns (slots: seq<string>)
    requires interval > 0
    ensures slots == Labels(Grid(startHour, endHour, interval))
  {
    slots := [];
    var hour := startHour;
    while hour <= endHour
      invariant slots + Labels(Grid(hour, endHour, interval)) == Labels(Grid(startHour, endHour, interval))
      decreases endHour + 1 - hour
    {
      GridStep(slots, hour, endHour, interval);
      slots := EmitHour(slots, hour, endHour, interval);
      hour := hour + 1;
    }
    assert Grid(hour, endHour, interval) == [];
  }

  /** The inner loop: minutes 0, interval, ... below 60, leaving after the full hour
      when `hour` is the last one. */
  method EmitHour(slots: seq<string>, hour: nat, endHour: nat, interval: nat) returns (out: seq<string>)
    requires interval > 0
    ensures out == slots + Labels(HourRow(hour, endHour, interval))
  {
    out := slots;
    var minute := 0;
    while minute < 60
      invariant out + Labels(RestOfHour(hour, minute, endHour, interval))
                == slots + Labels(HourRow(hour, endHour, interval))
      decreases 60 - minute
    {
      if hour == endHour && minute > 0 {
        break;
      }
      RestOfHourStep(out, hour, minute, endHour, interval);
      out := out + [ClockLabel(hour, minute)];
      minute := minute + interval;
    }
    assert RestOfHour(hour, minute, endHour, interval) == [];
  }

  /** One turn of the outer loop: the labels still to come split into this hour's row
      and the hours after it. */
  lemma GridStep(slots: seq<string>, hour: nat, endHour: nat, interval: nat)
    requires interval > 0 && hour <= endHour
    ensures slots + Labels(Grid(hour, endHour, interval))
            == (slots + Labels(HourRow(hour, endHour, interval))) + Labels(Grid(hour + 1, endHour, interval))
  {
    var row, rest := HourRow(hour, endHour, interval), Grid(hour + 1, endHour, interval);
    assert Grid(hour, endHour, interval) == row + rest;
    LabelsAppend(row, rest);
  }

  /** One turn of the inner loop: the label of minute `m` comes next. */
  lemma RestOfHourStep(out: seq<string>, h: nat, m: nat, endHour: nat, interval: nat)
    requires interval > 0 && m < 60 && (h == endHour ==> m == 0)
    ensures out + Labels(RestOfHour(h, m, endHour, interval))
            == (out + [ClockLabel(h, m)]) + Labels(RestOfHour(h, m + interval, endHour, interval))
  {
    var rest := RestOfHour(h, m + interval, endHour, interval);
    assert RestOfHour(h, m, endHour, interval) == [HourMinute(h, m)] + rest;
    LabelsAppend([HourMinute(h, m)], rest);
    var text := ClockLabel(h, m);
    assert Labels([HourMinute(h, m)]) == [text];
    assert out + ([text] + Labels(rest)) == (out + [text]) + Labels(rest);
  }

  lemma LabelsAppend(a: seq<HourMinute>, b: seq<HourMinute>)
    ensures Labels(a + b) == Labels(a) + Labels(b)
  {
  }

  lemma RowFromShape(h: nat, m: nat, interval: nat)
    requires interval > 0
    ensures |RowFrom(h, m, interval)| == if m < 60 then (60 - m + interval - 1) / interval else 0
    ensures forall t :: t in RowFrom(h, m, interval) ==> t.hour == h && m <= t.minute < 60
    ensures StrictlyIncreasing(Values(RowFrom(h, m, interval)))
  {
    RowFromLength(h, m, interval);
    RowFromIncreasing(h, m, interval);
  }

  lemma {:induction false} RowFromLength(h: nat, m: nat, interval: nat)
    requires interval > 0
    ensures |RowFrom(h, m, interval)| == if m < 60 then (60 - m + interval - 1) / interval else 0
    decreases 60 - m
  {
    if m < 60 {
      RowFromLength(h, m + interval, interval);
      RowLengthStep(m, interval);
    }
  }

  /** Every start in `ts` lies in hour `h`, from minute `m` on. */
  predicate InHourFrom(ts: seq<HourMinute>, h: nat, m: nat)
  {
    forall t :: t in ts ==> t.hour == h && m <= t.minute < 60
  }

  lemma {:induction false} RowFromIncreasing(h: nat, m: nat, interval: nat)
    requires interval > 0
    ensures InHourFrom(RowFrom(h, m, interval), h, m)
    ensures StrictlyIncreasing(Values(RowFrom(h, m, interval)))
    decreases 60 - m
  {
    if m < 60 {
      RowFromIncreasing(h, m + interval, interval);
      RowStep(RowFrom(h, m, interval), HourMinute(h, m), RowFrom(h, m + interval, interval));
    }
  }

  /** Putting minute `m` of hour `h` in front of the later minutes of that hour. */
  lemma RowStep(g: seq<HourMinute>, first: HourMinute, rest: seq<HourMinute>)
    requires g == [first] + rest && first.minute < 60
    requires InHourFrom(rest, first.hour, first.minute + 1) && StrictlyIncreasing(Values(rest))
    ensures InHourFrom(g, first.hour, first.minute)
    ensures StrictlyIncreasing(Values(g))
  {
    ValuesAtLeast(rest, Value(first) + 1);
    ConcatIncreasing([Value(first)], Values(rest), Value(first) + 1);
    assert Values(g) == [Value(first)] + Values(rest);
  }

  /** A row of the grid: all in hour `h`, increasing, and only `h:00` in the last hour. */
  lemma HourRowShape(h: nat, endHour: nat, interval: nat)
    requires interval > 0 && h <= endHour
    ensures InHourFrom(HourRow(h, endHour, interval), h, 0)
    ensures InHours(HourRow(h, endHour, interval), h, endHour)
    ensures StrictlyIncreasing(Values(HourRow(h, endHour, interval)))
  {
    if h < endHour {
      RowFromIncreasing(h, 0, interval);
    }
  }

  /** A row from minute `m` is one start longer than the row from `m + interval`. */
  lemma RowLengthStep(m: nat, interval: nat)
    requires interval > 0 && m < 60
    ensures (60 - m + interval - 1) / interval
            == 1 + if m + interval < 60 then (60 - (m + interval) + interval - 1) / interval else 0
  {
    DivStep(59 - m, interval);
    if m + interval >= 60 {
      DivUnique(59 - m, interval, 0, 59 - m);
    }
  }

  lemma ValuesAtLeast(ts: seq<HourMinute>, lo: int)
    requires forall t :: t in ts ==> lo <= Value(t)
    ensures forall y :: y in Values(ts) ==> lo <= y
  {
    forall y | y in Values(ts) ensures lo <= y {
      var k :| 0 <= k < |ts| && Values(ts)[k] == y;
      assert ts[k] in ts;
    }
  }

  lemma ValuesBelow(ts: seq<HourMinute>, hi: int)
    requires forall t :: t in ts ==> Value(t) < hi
    ensures forall y :: y in Values(ts) ==> y < hi
  {
    forall y | y in Values(ts) ensures y < hi {
      var k :| 0 <= k < |ts| && Values(ts)[k] == y;
      assert ts[k] in ts;
    }
  }

  /** The grid has `(endHour - startHour) * ceil(60 / interval) + 1` starts, none when
      the end hour comes first. */
  lemma {:induction false} GridLength(h: nat, endHour: nat, interval: nat)
    requires interval > 0
    ensures |Grid(h, endHour, interval)| ==
              if h <= endHour then (endHour - h) * ((60 + interval - 1) / interval) + 1 else 0
    decreases endHour + 1 - h
  {
    if h <= endHour {
      GridLength(h + 1, endHour, interval);
      if h < endHour {
        RowFromLength(h, 0, interval);
        Distribute(endHour - h - 1, (60 + interval - 1) / interval);
      }
    }
  }

  /** Every start lies in hours `h..endHour` with its minute below 60, the last hour
      contributes only its full hour, and the starts strictly increase. */
  lemma GridShape(h: nat, endHour: nat, interval: nat)
    requires interval > 0
    ensures forall t :: t in Grid(h, endHour, interval) ==> h <= t.hour <= endHour && t.minute < 60
    ensures forall t :: t in Grid(h, endHour, interval) && t.hour == endHour ==> t.minute == 0
    ensures StrictlyIncreasing(Values(Grid(h, endHour, interval)))
  {
    GridIncreasing(h, endHour, interval);
  }

  /** Every start in `ts` lies in hours `lo..endHour` with its minute below 60, and
      in hour `endHour` only on the full hour. */
  predicate InHours(ts: seq<HourMinute>, lo: nat, endHour: nat)
  {
    forall t :: t in ts ==> lo <= t.hour <= endHour && t.minute < 60 && (t.hour == endHour ==> t.minute == 0)
  }

  lemma {:induction false} GridIncreasing(h: nat, endHour: nat, interval: nat)
    requires interval > 0
    ensures InHours(Grid(h, endHour, interval), h, endHour)
    ensures StrictlyIncreasing(Values(Grid(h, endHour, interval)))
    decreases endHour + 1 - h
  {
    if h <= endHour {
      GridIncreasing(h + 1, endHour, interval);
      HourRowShape(h, endHour, interval);
      GridStepShape(Grid(h, endHour, interval), HourRow(h, endHour, interval), Grid(h + 1, endHour, interval), h, endHour);
    }
  }

  /** Putting hour `h`'s row in front of the later hours keeps the grid's shape. */
  lemma GridStepShape(g: seq<HourMinute>, row: seq<HourMinute>, rest: seq<HourMinute>, h: nat, endHour: nat)
    requires g == row + rest
    requires InHourFrom(row, h, 0) && InHours(row, h, endHour) && StrictlyIncreasing(Values(row))
    requires InHours(rest, h + 1, endHour) && StrictlyIncreasing(Values(rest))
    ensures InHours(g, h, endHour)
    ensures StrictlyIncreasing(Values(g))
  {
    ValuesBelow(row, (h + 1) * 60);
    ValuesAtLeast(rest, (h + 1) * 60);
    ConcatIncreasing(Values(row), Values(rest), (h + 1) * 60);
    assert Values(g) == Values(row) + Values(rest);
  }

  /** The grid always closes on the last hour's full hour. */
  lemma {:induction false} GridEndsOnTheHour(h: nat, endHour: nat, interval: nat)
    requires interval > 0 && h <= endHour
    ensures Grid(h, endHour, interval) != []
    ensures Grid(h, endHour, interval)[|Grid(h, endHour, interval)| - 1] == HourMinute(endHour, 0)
    decreases endHour - h
  {
    var g := Grid(h, endHour, interval);
    if h < endHour {
      GridEndsOnTheHour(h + 1, endHour, interval);
      var row := RowFrom(h, 0, interval);
      var rest := Grid(h + 1, endHour, interval);
      assert g == row + rest;
      assert g[|g| - 1] == rest[|rest| - 1];
    } else {
      assert g == [HourMinute(h, 0)] + Grid(h + 1, endHour, interval);
      assert Grid(h + 1, endHour, interval) == [];
    }
  }

  /** Every label reads back as its own start, so the labels are in the same order. */
  lemma LabelsParseBack(ts: seq<HourMinute>)
    ensures forall k :: 0 <= k < |ts| ==> ParseTime(Labels(ts)[k]) == Some(Value(ts[k]))
  {
    forall k | 0 <= k < |ts| ensures ParseTime(Labels(ts)[k]) == Some(Value(ts[k])) {
      ParseClockLabel(ts[k].hour, ts[k].minute);
    }
  }

  /** With the defaults (8, 18, 30) there are 21 starts, from "08:00" to "18:00". */
  lemma DefaultGrid()
    ensures |Grid(8, 18, 30)| == 21
    ensures Grid(8, 18, 30)[0] == HourMinute(8, 0) && Grid(8, 18, 30)[20] == HourMinute(18, 0)
    ensures ClockLabel(8, 0) == "08:00" && ClockLabel(18, 0) == "18:00"
  {
    GridLength(8, 18, 30);
    GridEndsOnTheHour(8, 18, 30);
    EightOClock();
    SixOClock();
  }

  lemma EightOClock()
    ensures ClockLabel(8, 0) == "08:00"
  {
    assert NatToString(8) == "8" && NatToString(0) == "0";
  }

  lemma SixOClock()
    ensures ClockLabel(18, 0) == "18:00"
  {
    assert NatToString(18) == NatToString(1) + "8";
  }

  lemma DivStep(x: int, i: int)
    requires i > 0
    ensures (x + i) / i == x / i + 1
  {
    var q, r := x / i, x % i;
    assert x + i == (q + 1) * i + r;
    DivUnique(x + i, i, q + 1, r);
  }

  lemma DivUnique(n: int, d: int, q: int, r: int)
    requires d > 0 && 0 <= r < d && n == q * d + r
    ensures n / d == q
  {
    var q', r' := n / d, n % d;
    assert (q - q') * d == r' - r;
    if q > q' { MulAtLeast(q - q', d); }
    if q < q' { MulAtLeast(q' - q, d); }
  }

  lemma MulAtLeast(k: int, d: int)
    requires k >= 1 && d > 0
    ensures k * d >= d
  {
  }

  lemma Distribute(k: int, c: int)
    ensures (k + 1) * c == c + k * c
  {
  }
}
