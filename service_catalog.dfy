/** The barbershop's service catalog: every service id has a duration in minutes and a
    Croatian display name, with a fallback for ids the catalog does not know. The same
    two tables appear in the slot hook, the reservation page and the shared helpers. */
module ServiceCatalog {
  import opened Text

  /** A service reference as it reaches the lookups: `null`, `undefined`, a number or a
      string that is parsed base 10. */
  datatype ServiceRef = Null | Undefined | Num(n: int) | Str(s: string)

  const DefaultDuration: nat := 30
  const UnknownService: string := "Unknown service"

  const Durations: map<int, nat> :=
    map[0 := 10, 1 := 10, 2 := 15, 3 := 20, 4 := 15, 5 := 30, 6 := 30]

  const Names: map<int, string> :=
    map[0 := "Brijanje", 1 := "Šišanje do kože", 2 := "Šišanje", 3 := "Fade",
        4 := "Brijanje glave", 5 := "Šišanje + Brijanje", 6 := "Fade + Brijanje"]

  /** The numeric key a reference is looked up under; strings go through `parseInt`,
      and a string with no leading digits has no key (`NaN`). */
  function KeyOf(ref: ServiceRef): (k: Option<int>)
    ensures ref.Num? ==> k == Some(ref.n)
    ensures ref.Null? || ref.Undefined? ==> k.None?
  {
    match ref
    case Null => None
    case Undefined => None
    case Num(n) => Some(n)
    case Str(s) => ParseInt(s)
  }

  /** `getServiceDuration`: the table entry, or 30 minutes for a missing reference
      or an id outside the table. */
  function Duration(ref: ServiceRef): (d: nat)
    ensures 10 <= d <= 30
    ensures KeyOf(ref).None? ==> d == DefaultDuration
    ensures KeyOf(ref).Some? && KeyOf(ref).value in Durations ==> d == Durations[KeyOf(ref).value]
    ensures KeyOf(ref).Some? && KeyOf(ref).value !in Durations ==> d == DefaultDuration
  {
    var k := KeyOf(ref);
    if k.Some? && k.value in Durations && Durations[k.value] != 0 then Durations[k.value]
    else DefaultDuration
  }

  /** `getServiceName`: the table entry, or "Unknown service". */
  function Name(ref: ServiceRef): (name: string)
    ensures name != ""
    ensures KeyOf(ref).None? ==> name == UnknownService
    ensures KeyOf(ref).Some? && KeyOf(ref).value in Names ==> name == Names[KeyOf(ref).value]
    ensures KeyOf(ref).Some? && KeyOf(ref).value !in Names ==> name == UnknownService
  {
    var k := KeyOf(ref);
    if k.Some? && k.value in Names && Names[k.value] != "" then Names[k.value]
    else UnknownService
  }

  /** Both tables are keyed by exactly the ids 0 to 6. */
  lemma TablesShareKeys()
    ensures forall id :: id in Durations <==> 0 <= id < 7
    ensures forall id :: id in Names <==> 0 <= id < 7
  {
  }

  /** The durations of services 0 to 6, in order. */
  const DurationColumn: seq<nat> := [10, 10, 15, 20, 15, 30, 30]

  /** The duration of each catalogued service, by position. */
  lemma CatalogDurations()
    ensures forall id :: 0 <= id < 7 ==> Duration(Num(id)) == DurationColumn[id]
    ensures Duration(Null) == Duration(Undefined) == 30
  {
    TablesShareKeys();
  }

  /** A string id names the same service as the number it spells. */
  lemma StringIdAgrees(id: nat)
    ensures Duration(Str(NatToString(id))) == Duration(Num(id))
    ensures Name(Str(NatToString(id))) == Name(Num(id))
  {
    KeyOfDigits(id);
    SameKeySameService(Str(NatToString(id)), Num(id));
  }

  /** Both lookups see a reference only through its key. */
  lemma SameKeySameService(a: ServiceRef, b: ServiceRef)
    requires KeyOf(a) == KeyOf(b)
    ensures Duration(a) == Duration(b) && Name(a) == Name(b)
  {
  }

  lemma KeyOfDigits(id: nat)
    ensures KeyOf(Str(NatToString(id))) == Some(id as int)
  {
    ParseIntOfDigits(NatToString(id));
  }
}
