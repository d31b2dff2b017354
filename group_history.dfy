/** `PrevGroup`: the short history of focused groups behind mod+Tab, which
    switches back to the group focused before the current one. */
module GroupHistory {
  import opened Common
  import ScreenPlacement

  /** A window's group as the focus hook sees it: None for a window
      outside every group. */
  type Entry = Option<GroupName>

  /** At most two entries, and no entry repeats the one before it. */
  ghost predicate Bounded(h: seq<Entry>) {
    |h| <= 2 && forall k :: 0 < k < |h| ==> h[k - 1] != h[k]
  }

  /** The history after a window of group `g` gains focus. */
  function AfterGroupFocus(h: seq<Entry>, g: Entry): (r: seq<Entry>)
    // the last entry is the group just focused
    ensures |r| > 0 && r[|r| - 1] == g
    ensures |h| <= 2 ==> |r| <= 2
    ensures Bounded(h) ==> Bounded(r)
    // the first focus starts the history
    ensures h == [] ==> r == [g]
    // focusing again within the same group changes nothing
    ensures |h| <= 2 && h != [] && h[|h| - 1] == g ==> r == h
    // a new group: the history is the previous group, then this one
    ensures |h| <= 2 && h != [] && h[|h| - 1] != g ==> r == [h[|h| - 1], g]
  {
    var appended := if |h| < 1 || g != h[|h| - 1] then h + [g] else h;
    if |appended| > 2 then appended[1..] else appended
  }

  class PrevGroup {
    /** `previous_group_list`: the groups focused most recently, oldest first. */
    var previousGroupList: seq<Entry>

    ghost predicate Valid()
      reads this
    {
      Bounded(previousGroupList)
    }

    constructor ()
      ensures Valid() && previousGroupList == []
    {
      previousGroupList := [];
    }

    /** The focus hook: a window whose group is `group` has gained focus.
        Unlike `PrevFocus`, a window outside every group is recorded too. */
    method OnChangeGroup(group: Entry)
      requires Valid()
      modifies this
      ensures Valid()
      ensures previousGroupList == AfterGroupFocus(old(previousGroupList), group)
    {
      if |previousGroupList| < 1 || group != previousGroupList[|previousGroupList| - 1] {
        previousGroupList := previousGroupList + [group];
      }
      if |previousGroupList| > 2 {
        previousGroupList := previousGroupList[1..];
      }
    }

    /** `previous_group_list[-2]`: the group focused before the current one.
        With fewer than two entries the index raises. */
    method Previous() returns (r: Result<Entry>)
      requires Valid()
      ensures r.Ok? <==> |previousGroupList| == 2
      ensures r.Raised? ==> r.error == IndexError
      // the group to go back to is the older entry, and differs from the current group
      ensures r.Ok? ==> r.value == previousGroupList[0] && r.value != previousGroupList[1]
    {
      var n := |previousGroupList|;
      if n < 2 {
        return Raised(IndexError);
      }
      r := Ok(previousGroupList[n - 2]);
    }

    /** mod+Tab: switch back to the previous group, keeping it on its screen.
        A previous entry that is no group raises when its name is read. */
    method Call(table: ScreenPlacement.ScreenIndex, screenCount: nat)
      returns (r: Result<ScreenPlacement.Display>)
      requires Valid() && table.Valid() && screenCount >= 1
      modifies table.slots
      ensures table.Valid()
      ensures |previousGroupList| < 2 ==> r == Raised(IndexError) && unchanged(table.slots)
      ensures |previousGroupList| == 2 && previousGroupList[0].None? ==>
                r == Raised(AttributeError) && unchanged(table.slots)
      ensures |previousGroupList| == 2 && previousGroupList[0].Some? ==>
                var s := ScreenPlacement.KeepPos(old(table.slots[..]), previousGroupList[0].value, screenCount);
                r == s.outcome && table.slots[..] == s.table
    {
      var target := Previous();
      match target
      case Raised(e) =>
        r := Raised(e);
      case Ok(None) =>
        r := Raised(AttributeError);
      case Ok(Some(name)) =>
        var d := table.SwitchGroupAndKeepScreenPos(name, screenCount);
        r := Ok(d);
    }
  }
}
