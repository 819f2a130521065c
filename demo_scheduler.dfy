/** The standalone demo scheduler: an in-memory list of bookings for one day that opens
    at 08:30 and closes at 17:30, three appointment types of 20, 25 and 30 minutes, the
    same slot walk as the booking pages, and a booking action that adds an entry only
    when it fits and keeps the list sorted by start. */
module DemoScheduler {
  import opened Text
  import opened Clock
  import opened Sequences
  import opened SlotAllocator

  const DemoOpen: nat := 510    // 08:30
  const DemoClose: nat := 1050  // 17:30

  datatype Kind = A | B | C

  /** `appointmentTypes`. */
  function KindDuration(k: Kind): (d: nat)
    ensures 20 <= d <= 30
    ensures d == 20 <==> k == A
  {
    match k
    case A => 20
    case B => 25
    case C => 30
  }

  /** A booked entry; `time` is the minute its `HH:MM` label names. */
  datatype Entry = Entry(time: nat, kind: Kind, duration: nat, endTime: string)

  function TimeKey(e: Entry): int { e.time }

  function EntryEnd(e: Entry): nat { e.time + e.duration }

  function AsBooking(e: Entry): Booking { Booking(e.time, e.duration) }

  function AsBookings(es: seq<Entry>): (bs: seq<Booking>)
    ensures |bs| == |es| && forall i :: 0 <= i < |es| ==> bs[i] == AsBooking(es[i])
  {
    seq(|es|, i requires 0 <= i < |es| => AsBooking(es[i]))
  }

  predicate EntriesOverlap(a: Entry, b: Entry)
  {
    Overlaps(a.time, EntryEnd(a), AsBooking(b))
  }

  /** Sorted by start, each entry ending before the next begins. */
  predicate ChainedEntries(es: seq<Entry>)
  {
    forall i, j :: 0 <= i < j < |es| ==> EntryEnd(es[i]) <= es[j].time
  }

  predicate WellFormed(e: Entry)
  {
    e.duration == KindDuration(e.kind) && EntryEnd(e) <= DemoClose
  }

  lemma ChainedSorted(es: seq<Entry>)
    requires ChainedEntries(es)
    ensures SortedBy(es, TimeKey)
    ensures Chained(AsBookings(es))
  {
  }

  /** A sorted list of entries of positive length, none repeated and no two
      overlapping, is chained. */
  lemma ChainedOfSortedBag(es: seq<Entry>)
    requires SortedBy(es, TimeKey)
    requires forall e :: e in es ==> e.duration > 0
    requires forall e :: e in es ==> multiset(es)[e] == 1
    requires forall a, b :: a in es && b in es && a != b ==> !EntriesOverlap(a, b)
    ensures ChainedEntries(es)
  {
    forall i, j | 0 <= i < j < |es| ensures EntryEnd(es[i]) <= es[j].time {
      if es[i] == es[j] {
        TwiceCounted(es, i, j);
        assert false;
      }
      assert TimeKey(es[i]) <= TimeKey(es[j]);
      assert !EntriesOverlap(es[i], es[j]);
    }
  }

  /** Bookings never overlap, are kept in start order, each lasts its type's duration,
      ends by closing time and appears once. */
  predicate ValidList(es: seq<Entry>)
  {
    ChainedEntries(es)
    && (forall e :: e in es ==> WellFormed(e))
    && (forall e :: e in es ==> multiset(es)[e] == 1)
  }

  class Scheduler {
    var appointments: seq<Entry>

    predicate Valid()
      reads this
    {
      ValidList(appointments)
    }

    constructor()
      ensures Valid() && appointments == []
    {
      appointments := [];
    }

    /** `isSlotAvailable(slot, duration)` against the current list. */
    function Available(start: nat, duration: nat): (ok: bool)
      reads this
      ensures ok ==> start + duration <= DemoClose
    {
      IsSlotAvailable(start, duration, AsBookings(appointments), DemoClose)
    }

    /** `bookAppointment(slot, type)`: an unavailable slot changes nothing; otherwise
        exactly one entry is added and the list is re-sorted by start. */
    method BookAppointment(start: nat, kind: Kind)
      requires Valid()
      modifies this
      ensures Valid()
      ensures var d := KindDuration(kind);
              var entry := Entry(start, kind, d, FormatTime(start + d));
              (!old(Available(start, d)) ==> appointments == old(appointments))
              && (old(Available(start, d)) ==> multiset(appointments) == multiset(old(appointments)) + multiset{entry})
    {
      var d := KindDuration(kind);
      if !Available(start, d) {
        return;
      }
      var entry := Entry(start, kind, d, FormatTime(start + d));
      InsertKeepsValid(appointments, entry);
      appointments := SortBy(appointments + [entry], TimeKey);
    }

    /** `getAvailableSlots()`: the walk from 08:30 to 17:30 over the bookings. Its
        starts strictly increase, stay before closing and avoid every booking; they
        start no earlier than opening when no booking does. */
    method GetAvailableSlots() returns (slots: seq<int>)
      requires Valid()
      ensures slots == Walk(DemoOpen, AsBookings(appointments), DemoClose)
      ensures StrictlyIncreasing(slots)
      ensures forall x :: x in slots ==> x < DemoClose
      ensures forall x, e :: x in slots && e in appointments ==> !Inside(x, AsBooking(e))
      ensures (forall e :: e in appointments ==> DemoOpen <= e.time) ==> forall x :: x in slots ==> DemoOpen <= x
    {
      var bs := AsBookings(appointments);
      ChainedSorted(appointments);
      SortBySorted(bs, StartOf);
      slots := AllocateSlots(DemoOpen, DemoClose, bs);
      DemoWalkSound(appointments);
    }
  }

  lemma DemoWalkSound(es: seq<Entry>)
    requires ValidList(es)
    ensures var slots := Walk(DemoOpen, AsBookings(es), DemoClose);
            StrictlyIncreasing(slots)
            && (forall x :: x in slots ==> x < DemoClose)
            && (forall x, e :: x in slots && e in es ==> !Inside(x, AsBooking(e)))
            && ((forall e :: e in es ==> DemoOpen <= e.time) ==> forall x :: x in slots ==> DemoOpen <= x)
  {
    var bs := AsBookings(es);
    ChainedSorted(es);
    WalkSound(DemoOpen, bs, DemoClose);
    forall b | b in bs ensures b.start <= DemoClose {
      var i :| 0 <= i < |bs| && bs[i] == b;
      assert es[i] in es;
    }
    WalkBelowEnd(DemoOpen, bs, DemoClose);
    var slots := Walk(DemoOpen, bs, DemoClose);
    forall x, e | x in slots && e in es ensures !Inside(x, AsBooking(e)) {
      var i :| 0 <= i < |es| && es[i] == e;
      assert bs[i] in bs;
    }
    if (forall e :: e in es ==> DemoOpen <= e.time) && bs != [] {
      assert es[0] in es;
    }
  }

  /** Adding an available entry and re-sorting keeps the list valid. */
  lemma InsertKeepsValid(es: seq<Entry>, entry: Entry)
    requires ValidList(es)
    requires entry.duration == KindDuration(entry.kind)
    requires IsSlotAvailable(entry.time, entry.duration, AsBookings(es), DemoClose)
    ensures ValidList(SortBy(es + [entry], TimeKey))
    ensures multiset(SortBy(es + [entry], TimeKey)) == multiset(es) + multiset{entry}
  {
    var sorted := SortBy(es + [entry], TimeKey);
    NoOverlapWithOld(es, entry);
    assert multiset(sorted) == multiset(es) + multiset{entry};
    MembersOfSorted(es, entry, sorted);
    CountsOfSorted(es, entry, sorted);
    PairsApart(es, entry, sorted);
    ChainedOfSortedBag(sorted);
  }

  lemma PairsApart(es: seq<Entry>, entry: Entry, sorted: seq<Entry>)
    requires ValidList(es)
    requires entry.duration > 0 && EntryEnd(entry) <= DemoClose
    requires forall e :: e in es ==> !EntriesOverlap(entry, e) && !EntriesOverlap(e, entry)
    requires forall e :: e in sorted <==> e in es || e == entry
    ensures forall a, b :: a in sorted && b in sorted && a != b ==> !EntriesOverlap(a, b)
    ensures forall e :: e in sorted ==> e.duration > 0
  {
    forall a, b | a in sorted && b in sorted && a != b ensures !EntriesOverlap(a, b) {
      if a in es && b in es {
        OldPairApart(es, a, b);
      }
    }
  }

  lemma MembersOfSorted(es: seq<Entry>, entry: Entry, sorted: seq<Entry>)
    requires multiset(sorted) == multiset(es) + multiset{entry}
    ensures forall e :: e in sorted <==> e in es || e == entry
  {
    forall e ensures e in sorted <==> e in es || e == entry {
      assert e in sorted <==> e in multiset(sorted);
      assert e in es <==> e in multiset(es);
    }
  }

  lemma CountsOfSorted(es: seq<Entry>, entry: Entry, sorted: seq<Entry>)
    requires multiset(sorted) == multiset(es) + multiset{entry}
    requires forall e :: e in es ==> multiset(es)[e] == 1
    requires entry !in es
    ensures forall e :: e in sorted ==> multiset(sorted)[e] == 1
  {
    MembersOfSorted(es, entry, sorted);
    forall e | e in sorted ensures multiset(sorted)[e] == 1 {
      if e == entry {
        assert multiset(es)[entry] == 0;
      }
    }
  }

  /** Two different entries of a chained list do not overlap. */
  lemma OldPairApart(es: seq<Entry>, a: Entry, b: Entry)
    requires ChainedEntries(es) && forall e :: e in es ==> e.duration > 0
    requires a in es && b in es && a != b
    ensures !EntriesOverlap(a, b)
  {
    var i :| 0 <= i < |es| && es[i] == a;
    var j :| 0 <= j < |es| && es[j] == b;
  }

  /** An available slot overlaps no booked entry, and is not itself booked. */
  lemma NoOverlapWithOld(es: seq<Entry>, entry: Entry)
    requires entry.duration > 0
    requires IsSlotAvailable(entry.time, entry.duration, AsBookings(es), DemoClose)
    ensures forall e :: e in es ==> !EntriesOverlap(entry, e) && !EntriesOverlap(e, entry)
    ensures entry !in es
  {
    forall e | e in es ensures !EntriesOverlap(entry, e) && !EntriesOverlap(e, entry) {
      var i :| 0 <= i < |es| && es[i] == e;
      assert AsBookings(es)[i] in AsBookings(es);
    }
  }

  /** With no bookings the demo offers the 18 starts 08:30, 09:00, ..., 17:00. */
  lemma EmptyDemoOffersEighteenSlots()
    ensures |Walk(DemoOpen, [], DemoClose)| == 18
    ensures forall k :: 0 <= k < 18 ==> Walk(DemoOpen, [], DemoClose)[k] == DemoOpen + 30 * k
  {
    GapSlotsShape(DemoOpen, DemoClose);
  }
}
