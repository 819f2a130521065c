/** The service picker grid: seven tiles, at most one selected; every click reports
    the clicked position to the page. */
module ServicePicker {
  import opened Text
  import opened ServiceCatalog

  datatype Item = Item(id: nat, title: string, content: string)

  const Items: seq<Item> := [
    Item(0, "10min", "Brijanje"),
    Item(1, "10min", "Šišanje do kože"),
    Item(2, "15min", "Šišanje"),
    Item(3, "20min", "Fade"),
    Item(4, "15min", "Brijanje glave"),
    Item(5, "30min", "Šišanje + Brijanje"),
    Item(6, "30min", "Fade + Brijanje")
  ]

  /** Each tile's id is its position, its title is the catalogued duration in minutes
      and its text is the catalogued name. */
  lemma ItemsAgreeWithCatalog()
    ensures |Items| == 7
    ensures forall i :: 0 <= i < 7 ==> Items[i].id == i
    ensures forall i :: 0 <= i < 7 ==> Items[i].title == NatToString(Duration(Num(i))) + "min"
    ensures forall i :: 0 <= i < 7 ==> Items[i].content == Name(Num(i))
  {
    forall i | 0 <= i < 7
      ensures Items[i].title == NatToString(Duration(Num(i))) + "min"
      ensures Items[i].content == Name(Num(i))
    {
      ItemTitle(i);
      ItemName(i);
    }
  }

  lemma ItemTitle(i: nat)
    requires i < 7
    ensures Items[i].title == NatToString(Duration(Num(i))) + "min"
  {
    assert i in Durations;
    assert Duration(Num(i)) == Durations[i];
    TitleOfDuration(Durations[i], Items[i].title);
  }

  lemma TitleOfDuration(d: nat, title: string)
    requires (d == 10 && title == "10min") || (d == 15 && title == "15min")
          || (d == 20 && title == "20min") || (d == 30 && title == "30min")
    ensures title == NatToString(d) + "min"
  {
    DurationTitles();
  }

  lemma DurationTitles()
    ensures NatToString(10) == "10" && NatToString(15) == "15"
    ensures NatToString(20) == "20" && NatToString(30) == "30"
  {
    assert NatToString(1) == "1" && NatToString(2) == "2" && NatToString(3) == "3";
  }

  lemma ItemName(i: nat)
    requires i < 7
    ensures Items[i].content == Name(Num(i))
  {
    assert i in Names;
    assert Name(Num(i)) == Names[i];
  }

  class Grid {
    var selectedIndex: Option<nat>
    /** The positions passed to `onSelect`, oldest first. */
    var reported: seq<nat>

    constructor()
      ensures selectedIndex.None? && reported == []
    {
      selectedIndex := None;
      reported := [];
    }

    /** Clicking the selected tile clears the selection, any other tile selects it,
        and either way the position is reported. */
    method Click(index: nat)
      requires index < |Items|
      modifies this
      ensures selectedIndex == if old(selectedIndex) == Some(index) then None else Some(index)
      ensures reported == old(reported) + [index]
    {
      selectedIndex := if selectedIndex == Some(index) then None else Some(index);
      reported := reported + [index];
    }
  }
}
