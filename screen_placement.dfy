/** `group_screen_index`: nine slots, one per physical screen, each holding
    the names of the groups that live on that screen, and the two key
    handlers that read and rearrange it. */
module ScreenPlacement {
  import opened Common

  /** The number of slots in the table, fixed by the configuration. */
  const SlotCount: nat := 9

  type Table = seq<seq<GroupName>>

  /** What the handler asks the host to do with the group. */
  datatype Display =
    | NotShown          // the group is in no slot: nothing happens
    | CurrentScreen     // single screen: bring the group to the current screen
    | FocusScreen(index: nat)  // focus screen `index`, then bring the group there

  /** The table after a handler, and what the handler did. */
  datatype Step = Step(table: Table, outcome: Result<Display>)

  /** Every name in the table, with its multiplicity. */
  function AllNames(t: Table): multiset<GroupName> {
    if t == [] then multiset{} else multiset(t[0]) + AllNames(t[1..])
  }

  /** How many times `name` occurs in the table. */
  function Occurrences(t: Table, name: GroupName): nat {
    AllNames(t)[name]
  }

  /** No group name sits in two slots, nor twice in one slot. */
  ghost predicate EachAtMostOnce(t: Table) {
    forall n :: Occurrences(t, n) <= 1
  }

  /** A table holding no more names than one with unique names has unique names. */
  lemma FewerStaysUnique(t: Table, u: Table)
    requires AllNames(u) <= AllNames(t)
    ensures EachAtMostOnce(t) ==> EachAtMostOnce(u)
  {
    if EachAtMostOnce(t) {
      forall n
        ensures Occurrences(u, n) <= 1
      {
        assert Occurrences(t, n) <= 1;
      }
    }
  }

  /** Replacing a slot by one holding `extra` more names adds `extra` to the table. */
  lemma {:induction false} AllNamesGrow(t: Table, i: nat, s: seq<GroupName>, extra: multiset<GroupName>)
    requires i < |t| && multiset(s) == multiset(t[i]) + extra
    ensures AllNames(t[i := s]) == AllNames(t) + extra
  {
    if i == 0 {
      assert t[i := s][1..] == t[1..];
    } else {
      AllNamesGrow(t[1..], i - 1, s, extra);
      assert t[i := s][1..] == t[1..][i - 1 := s];
    }
  }

  lemma CancelRight(a: multiset<GroupName>, b: multiset<GroupName>, c: multiset<GroupName>)
    requires a + c == b + c
    ensures a == b
  {
    forall n
      ensures a[n] == b[n]
    {
      assert (a + c)[n] == (b + c)[n];
    }
  }

  /** Two different slots together hold no more names than the whole table. */
  lemma {:induction false} TwoSlotsWithin(t: Table, j: nat, k: nat)
    requires j < |t| && k < |t| && j != k
    ensures multiset(t[j]) + multiset(t[k]) <= AllNames(t)
  {
    if j == 0 {
      SlotWithin(t[1..], k - 1);
    } else if k == 0 {
      SlotWithin(t[1..], j - 1);
    } else {
      TwoSlotsWithin(t[1..], j - 1, k - 1);
    }
  }

  lemma {:induction false} SlotWithin(t: Table, j: nat)
    requires j < |t|
    ensures multiset(t[j]) <= AllNames(t)
  {
    if j > 0 {
      SlotWithin(t[1..], j - 1);
    }
  }

  /** When names are unique, a name found in one slot is in no other. */
  lemma OnlySlot(t: Table, name: GroupName, j: nat)
    requires EachAtMostOnce(t) && j < |t| && name in t[j]
    ensures forall k :: 0 <= k < |t| && k != j ==> name !in t[k]
  {
    forall k | 0 <= k < |t| && k != j
      ensures name !in t[k]
    {
      TwoSlotsWithin(t, j, k);
      assert Occurrences(t, name) <= 1;
    }
  }

  /** `[Group(i) for i in chars]`: one group per character, named by it. */
  function GroupsOf(chars: string): (names: seq<GroupName>)
    ensures |names| == |chars|
    ensures forall k :: 0 <= k < |chars| ==> names[k] == [chars[k]]
  {
    if chars == [] then [] else [[chars[0]]] + GroupsOf(chars[1..])
  }

  /** The names of the nine groups the configuration declares. */
  const GroupNames: seq<GroupName> := GroupsOf("123456789")

  lemma GroupNamesDistinct()
    ensures |GroupNames| == 9
    ensures forall i, j :: 0 <= i < j < |GroupNames| ==> GroupNames[i] != GroupNames[j]
  {
    var chars := "123456789";
    assert forall k :: 0 <= k < |chars| ==> chars[k] as int == '1' as int + k;
    forall i, j | 0 <= i < j < |GroupNames|
      ensures GroupNames[i] != GroupNames[j]
    {
      assert GroupNames[i][0] == chars[i] && GroupNames[j][0] == chars[j];
    }
  }

  /** A sequence without repeated elements counts each of them once. */
  lemma {:induction false} DistinctCountsOnce(s: seq<GroupName>)
    requires forall i, j :: 0 <= i < j < |s| ==> s[i] != s[j]
    ensures forall n :: multiset(s)[n] <= 1
  {
    if s != [] {
      DistinctCountsOnce(s[1..]);
      assert s == [s[0]] + s[1..];
      assert s[0] !in s[1..];
    }
  }

  lemma {:induction false} EmptySlotsHoldNothing(t: Table)
    requires forall j :: 0 <= j < |t| ==> t[j] == []
    ensures AllNames(t) == multiset{}
  {
    if t != [] {
      EmptySlotsHoldNothing(t[1..]);
    }
  }

  /** A table whose first slot holds the first two of `names`, whose
      second slot holds the rest, and whose other slots are empty. */
  function SplitOverTwoSlots(names: seq<GroupName>): (t: Table)
    requires |names| >= 2
    ensures |t| == SlotCount && t[0] + t[1] == names
    ensures t[0] == names[..2] && t[1] == names[2..]
    ensures forall j :: 2 <= j < |t| ==> t[j] == []
  {
    assert names == names[..2] + names[2..];
    [names[..2], names[2..]] + seq(SlotCount - 2, _ => [])
  }

  /** Only the first two slots hold names. */
  lemma TwoOccupiedSlots(t: Table)
    requires |t| >= 2 && forall j :: 2 <= j < |t| ==> t[j] == []
    ensures AllNames(t) == multiset(t[0] + t[1])
  {
    EmptySlotsHoldNothing(t[2..]);
    assert t[1..][1..] == t[2..];
    assert AllNames(t) == multiset(t[0]) + (multiset(t[1]) + AllNames(t[2..]));
  }

  /** The table the configuration starts with: groups 1 and 2 on the first
      screen, groups 3 to 9 on the second, the other slots empty. */
  function InitialTable(): (t: Table)
    ensures |t| == SlotCount
    // the nine declared groups, the first two in slot 0 and the rest in slot 1
    ensures t == SplitOverTwoSlots(GroupNames)
  {
    var t := [["1", "2"], ["3", "4", "5", "6", "7", "8", "9"], [], [], [], [], [], [], []];
    assert t == SplitOverTwoSlots(GroupNames) by {
      InitialTableMatchesGroups(t);
    }
    t
  }

  /** Taking the groups of a suffix of the characters. */
  lemma {:induction false} GroupsOfSuffix(chars: string, k: nat)
    requires k <= |chars|
    ensures GroupsOf(chars)[k..] == GroupsOf(chars[k..])
  {
    var names := GroupsOf(chars);
    var rest := GroupsOf(chars[k..]);
    assert |names[k..]| == |rest|;
    forall j | 0 <= j < |rest|
      ensures names[k..][j] == rest[j]
    {
      assert chars[k..][j] == chars[k + j];
    }
  }

  /** The declared groups "1" and "2". */
  lemma FirstTwoGroups()
    ensures GroupNames[..2] == ["1", "2"]
  {
    assert GroupNames[0] == "1" && GroupNames[1] == "2";
  }

  /** The declared groups "3" to "9". */
  lemma OtherGroups()
    ensures GroupNames[2..] == ["3", "4", "5", "6", "7", "8", "9"]
  {
    assert "123456789"[2..] == "3456789";
    GroupsOfSuffix("123456789", 2);
    GroupsOfLastSeven();
  }

  lemma GroupsOfLastSeven()
    ensures GroupsOf("3456789") == ["3", "4", "5", "6", "7", "8", "9"]
  {
  }

  lemma InitialTableMatchesGroups(t: Table)
    requires t == [["1", "2"], ["3", "4", "5", "6", "7", "8", "9"], [], [], [], [], [], [], []]
    ensures t == SplitOverTwoSlots(GroupNames)
  {
    FirstTwoGroups();
    OtherGroups();
    var s := SplitOverTwoSlots(GroupNames);
    forall j | 0 <= j < SlotCount
      ensures s[j] == t[j]
    {
    }
  }

  /** The initial table holds each of the nine groups the configuration
      declares, once. */
  lemma InitialTableHoldsEveryGroup()
    ensures AllNames(InitialTable()) == multiset(GroupNames)
    ensures EachAtMostOnce(InitialTable())
  {
    TwoOccupiedSlots(SplitOverTwoSlots(GroupNames));
    GroupNamesDistinct();
    DistinctCountsOnce(GroupNames);
    forall n
      ensures Occurrences(InitialTable(), n) <= 1
    {
      assert multiset(GroupNames)[n] <= 1;
    }
  }

  /** The slot the `for index, ... in enumerate(...)` loops stop at: the
      first one holding `name`. */
  function FirstSlotWith(t: Table, name: GroupName): (r: Option<nat>)
    ensures r.None? <==> forall j :: 0 <= j < |t| ==> name !in t[j]
    ensures r.Some? ==> r.value < |t| && name in t[r.value]
    ensures r.Some? ==> forall j :: 0 <= j < r.value ==> name !in t[j]
  {
    if t == [] then None
    else if name in t[0] then Some(0)
    else match FirstSlotWith(t[1..], name)
      case None => None
      case Some(i) => Some(i + 1)
  }

  /** `list.index(name)`: the position of the first occurrence. */
  function IndexOf(s: seq<GroupName>, name: GroupName): (i: nat)
    requires name in s
    ensures i < |s| && s[i] == name && name !in s[..i]
  {
    if s[0] == name then 0 else IndexOf(s[1..], name) + 1
  }

  /** `list.pop(list.index(name))`: drop the first occurrence of `name`,
      keeping the rest in order. */
  function RemoveFirst(s: seq<GroupName>, name: GroupName): (r: seq<GroupName>)
    requires name in s
    ensures multiset(r) + multiset{name} == multiset(s)
    ensures exists k :: 0 <= k < |s| && s[k] == name && name !in s[..k] && r == s[..k] + s[k + 1..]
  {
    var i := IndexOf(s, name);
    assert s == s[..i] + [s[i]] + s[i + 1..];
    s[..i] + s[i + 1..]
  }

  /** The pop-and-append part of `switch_group_screen`: the table after it,
      and whether the destination slot lay past the end of the table. */
  datatype Moved = Moved(table: Table, overflow: bool)

  function Relocate(t: Table, name: GroupName, screenCount: nat): (m: Moved)
    requires screenCount >= 1
    ensures |m.table| == |t|
    // a name in no slot leaves the table as it was
    ensures FirstSlotWith(t, name).None? ==> m == Moved(t, false)
    ensures FirstSlotWith(t, name).Some? ==>
              var i := FirstSlotWith(t, name).value;
              var dest := (i + 1) % screenCount;
              && m.overflow == (dest >= |t|)
              // only the source slot and the destination slot change
              && (forall j :: 0 <= j < |t| && j != i && j != dest ==> m.table[j] == t[j])
              // the source slot loses the first occurrence of the name ...
              && (dest != i ==> m.table[i] == RemoveFirst(t[i], name))
              // ... and the destination slot gains it at its end
              && (!m.overflow && dest != i ==> m.table[dest] == t[dest] + [name])
              && (dest == i ==> m.table[i] == RemoveFirst(t[i], name) + [name])
  {
    match FirstSlotWith(t, name)
    case None => Moved(t, false)
    case Some(i) =>
      var popped := t[i := RemoveFirst(t[i], name)];
      var dest := (i + 1) % screenCount;
      if dest >= |t| then Moved(popped, true)
      else Moved(popped[dest := popped[dest] + [name]], false)
  }

  /** Moving a group keeps every name in the table; overflowing loses the
      moved one. Either way names stay unique. */
  lemma RelocateKeepsNames(t: Table, name: GroupName, screenCount: nat)
    requires screenCount >= 1
    ensures var m := Relocate(t, name, screenCount);
            && (!m.overflow ==> AllNames(m.table) == AllNames(t))
            && (m.overflow ==> AllNames(m.table) + multiset{name} == AllNames(t))
            && (EachAtMostOnce(t) ==> EachAtMostOnce(m.table))
  {
    var m := Relocate(t, name, screenCount);
    match FirstSlotWith(t, name)
    case None =>
    case Some(i) =>
      var popped := t[i := RemoveFirst(t[i], name)];
      assert popped[i := t[i]] == t;
      AllNamesGrow(popped, i, t[i], multiset{name});
      var dest := (i + 1) % screenCount;
      if dest >= |t| {
        assert m.table == popped;
        FewerStaysUnique(t, popped);
      } else {
        AllNamesGrow(popped, dest, popped[dest] + [name], multiset{name});
        assert m.table == popped[dest := popped[dest] + [name]];
        FewerStaysUnique(t, m.table);
      }
  }

  /** `switch_group_and_keep_screen_pos(group)(qtile)`: the table after it
      and the screen the group is shown on. */
  function KeepPos(t: Table, name: GroupName, screenCount: nat): (s: Step)
    requires |t| >= 2 && screenCount >= 1
    ensures s.outcome.Ok? && |s.table| == |t|
    // one screen: slot 1 is merged into slot 0, the rest is untouched
    ensures screenCount == 1 ==>
              && s.outcome.value == CurrentScreen
              && s.table[0] == t[0] + t[1] && s.table[1] == []
              && forall j :: 2 <= j < |t| ==> s.table[j] == t[j]
    // several screens: the table is untouched, and the chosen screen is the
    // first slot holding the name
    ensures screenCount > 1 ==> s.table == t && !s.outcome.value.CurrentScreen?
    ensures screenCount > 1 ==> (s.outcome.value.NotShown? <==> forall j :: 0 <= j < |t| ==> name !in t[j])
    ensures screenCount > 1 && s.outcome.value.FocusScreen? ==>
              var k := s.outcome.value.index;
              k < |t| && name in t[k] && forall j :: 0 <= j < k ==> name !in t[j]
    ensures AllNames(s.table) == AllNames(t)
    ensures EachAtMostOnce(t) ==> EachAtMostOnce(s.table)
  {
    if screenCount == 1 then
      var merged := t[0 := t[0] + t[1]];
      AllNamesGrow(t, 0, t[0] + t[1], multiset(t[1]));
      assert merged[1 := []][1 := t[1]] == merged;
      AllNamesGrow(merged[1 := []], 1, t[1], multiset(t[1]));
      CancelRight(AllNames(merged[1 := []]), AllNames(t), multiset(t[1]));
      FewerStaysUnique(t, merged[1 := []]);
      Step(merged[1 := []], Ok(CurrentScreen))
    else
      match FirstSlotWith(t, name)
      case None => Step(t, Ok(NotShown))
      case Some(i) => Step(t, Ok(FocusScreen(i)))
  }

  /** `switch_group_screen`: move the group to the next screen's slot, then
      show it as `switch_group_and_keep_screen_pos` does. */
  function SwitchScreen(t: Table, name: GroupName, screenCount: nat): (s: Step)
    requires |t| >= 2 && screenCount >= 1
    ensures |s.table| == |t|
    // a group in no slot: nothing happens
    ensures FirstSlotWith(t, name).None? ==> s == Step(t, Ok(NotShown))
    // the destination slot lies past the table: IndexError
    ensures s.outcome.Raised? <==>
              FirstSlotWith(t, name).Some? && (FirstSlotWith(t, name).value + 1) % screenCount >= |t|
    ensures s.outcome.Raised? ==> s.outcome.error == IndexError
    // a single screen: the group is brought to it
    ensures FirstSlotWith(t, name).Some? && screenCount == 1 ==> s.outcome == Ok(CurrentScreen)
  {
    match FirstSlotWith(t, name)
    case None => Step(t, Ok(NotShown))
    case Some(i) =>
      var m := Relocate(t, name, screenCount);
      if m.overflow then Step(m.table, Raised(IndexError))
      else KeepPos(m.table, name, screenCount)
  }

  /** `switch_group_screen` keeps every group in the table, except that an
      IndexError loses the one being moved; names stay unique. */
  lemma SwitchScreenKeepsNames(t: Table, name: GroupName, screenCount: nat)
    requires |t| >= 2 && screenCount >= 1
    ensures var s := SwitchScreen(t, name, screenCount);
            && (s.outcome.Ok? ==> AllNames(s.table) == AllNames(t))
            && (s.outcome.Raised? ==> AllNames(s.table) + multiset{name} == AllNames(t))
            && (EachAtMostOnce(t) ==> EachAtMostOnce(s.table))
  {
    RelocateKeepsNames(t, name, screenCount);
  }

  /** With unique names and several screens, `switch_group_screen` leaves
      the group in the next screen's slot only, and shows that screen. */
  lemma SwitchScreenShowsNextScreen(t: Table, name: GroupName, screenCount: nat)
    requires |t| >= 2 && screenCount > 1 && EachAtMostOnce(t)
    requires FirstSlotWith(t, name).Some?
    ensures var s := SwitchScreen(t, name, screenCount);
            var dest := (FirstSlotWith(t, name).value + 1) % screenCount;
            s.outcome.Ok? ==>
              && s.outcome.value == FocusScreen(dest)
              && name in s.table[dest]
              && forall j :: 0 <= j < |t| && j != dest ==> name !in s.table[j]
  {
    var i := FirstSlotWith(t, name).value;
    var dest := (i + 1) % screenCount;
    var m := Relocate(t, name, screenCount);
    if !m.overflow {
      RelocateKeepsNames(t, name, screenCount);
      assert name in m.table[dest];
      OnlySlot(m.table, name, dest);
    }
  }

  /** A fresh array holding the slots of `t`. */
  method ToArray(t: Table) returns (a: array<seq<GroupName>>)
    ensures fresh(a) && a[..] == t
  {
    a := new seq<GroupName>[|t|](i requires 0 <= i < |t| => t[i]);
  }

  /** The table itself, updated in place by the two key handlers. */
  class ScreenIndex {
    var slots: array<seq<GroupName>>

    ghost predicate Valid()
      reads this, slots
    {
      slots.Length == SlotCount && EachAtMostOnce(slots[..])
    }

    constructor ()
      ensures Valid() && fresh(slots) && slots[..] == InitialTable()
    {
      var a := ToArray(InitialTable());
      slots := a;
      assert EachAtMostOnce(a[..]) by {
        InitialTableHoldsEveryGroup();
      }
    }

    /** Show group `name`, keeping it on the screen its slot names.
        `screenCount` is the number of screens the host has. */
    method SwitchGroupAndKeepScreenPos(name: GroupName, screenCount: nat) returns (d: Display)
      requires Valid() && screenCount >= 1
      modifies slots
      ensures Valid()
      ensures Step(slots[..], Ok(d)) == KeepPos(old(slots[..]), name, screenCount)
    {
      ghost var t := slots[..];
      if screenCount == 1 {
        slots[0] := slots[0] + slots[1];
        slots[1] := [];
        d := CurrentScreen;
        assert slots[..] == KeepPos(t, name, screenCount).table;
        return;
      }
      var index := 0;
      while index < slots.Length
        invariant 0 <= index <= slots.Length
        invariant forall j :: 0 <= j < index ==> name !in slots[j]
      {
        if name in slots[index] {
          d := FocusScreen(index);
          return;
        }
        index := index + 1;
      }
      d := NotShown;
    }

    /** Move group `name` (the current group) to the next screen's slot and
        show it there. */
    method SwitchGroupScreen(name: GroupName, screenCount: nat) returns (r: Result<Display>)
      requires Valid() && screenCount >= 1
      modifies slots
      ensures Valid()
      ensures Step(slots[..], r) == SwitchScreen(old(slots[..]), name, screenCount)
    {
      ghost var t := slots[..];
      var index := 0;
      while index < slots.Length
        invariant 0 <= index <= slots.Length
        invariant slots[..] == t
        invariant forall j :: 0 <= j < index ==> name !in slots[j]
      {
        if name in slots[index] {
          assert FirstSlotWith(t, name) == Some(index);
          ghost var m := Relocate(t, name, screenCount);
          assert EachAtMostOnce(m.table) by {
            RelocateKeepsNames(t, name, screenCount);
          }
          slots[index] := RemoveFirst(slots[index], name);
          var newLocation := (index + 1) % screenCount;
          if newLocation >= slots.Length {
            assert slots[..] == m.table;
            return Raised(IndexError);
          }
          slots[newLocation] := slots[newLocation] + [name];
          assert slots[..] == m.table;
          var d := SwitchGroupAndKeepScreenPos(name, screenCount);
          return Ok(d);
        }
        index := index + 1;
      }
      r := Ok(NotShown);
    }
  }
}
