/** `PrevFocus`: the per-group record of the focused window and the one
    focused before it, used by alt+Tab to jump back within a group. */
module FocusHistory {
  import opened Common

  /** One group's entry: the `current` and `prev` windows. */
  datatype GroupFocus = GroupFocus(current: Option<WindowId>, prev: Option<WindowId>)

  type FocusTable = map<GroupName, GroupFocus>

  /** What every entry looks like once a focus event has been recorded:
      a current window, and a previous one that differs from it. */
  ghost predicate WellFormed(t: FocusTable) {
    forall g :: g in t ==> t[g].current.Some? && t[g].prev != t[g].current
  }

  /** The table after window `w`, whose group is `group`, gains focus. */
  function AfterFocus(t: FocusTable, w: WindowId, group: Option<GroupName>): (r: FocusTable)
    // a window outside every group is not recorded
    ensures group.None? ==> r == t
    // the group now has an entry whose current window is w
    ensures group.Some? ==> r.Keys == t.Keys + {group.value} && r[group.value].current == Some(w)
    // refocusing the current window changes nothing
    ensures group.Some? && group.value in t && t[group.value].current == Some(w) ==> r == t
    // otherwise the old current window becomes prev
    ensures group.Some? && group.value in t && t[group.value].current != Some(w) ==>
              r[group.value].prev == t[group.value].current
    // a group's first focus has no previous window
    ensures group.Some? && group.value !in t ==> r[group.value].prev == None
    // entries of the other groups are untouched
    ensures forall h :: h in t && Some(h) != group ==> h in r && r[h] == t[h]
    ensures WellFormed(t) ==> WellFormed(r)
  {
    match group
    case None => t
    case Some(g) =>
      var entry := if g in t then t[g] else GroupFocus(None, None);
      if entry.current == Some(w) then t
      else t[g := GroupFocus(Some(w), entry.current)]
  }

  /** Pressing alt+Tab refocuses `prev`, and the focus hook records that
      focus: the group's two windows trade places, and a second press
      restores the table. */
  lemma JumpBackSwaps(t: FocusTable, g: GroupName, a: WindowId, b: WindowId)
    requires g in t && t[g] == GroupFocus(Some(a), Some(b)) && a != b
    ensures AfterFocus(t, b, Some(g))[g] == GroupFocus(Some(b), Some(a))
    ensures AfterFocus(AfterFocus(t, b, Some(g)), a, Some(g)) == t
  {
    var once := AfterFocus(t, b, Some(g));
    assert once == t[g := GroupFocus(Some(b), Some(a))];
    assert AfterFocus(once, a, Some(g)) == once[g := GroupFocus(Some(a), Some(b))];
  }

  class PrevFocus {
    /** `groups_focus`: group name to its {current, prev} entry. */
    var groupsFocus: FocusTable

    ghost predicate Valid()
      reads this
    {
      WellFormed(groupsFocus)
    }

    constructor ()
      ensures Valid() && groupsFocus == map[]
    {
      groupsFocus := map[];
    }

    /** The focus hook: record that window `w`, whose group is `group`, has focus. */
    method OnFocus(w: WindowId, group: Option<GroupName>)
      requires Valid()
      modifies this
      ensures Valid()
      ensures groupsFocus == AfterFocus(old(groupsFocus), w, group)
    {
      if group.None? {
        return;
      }
      var g := group.value;
      if g !in groupsFocus {
        groupsFocus := groupsFocus[g := GroupFocus(None, None)];
      }
      var entry := groupsFocus[g];
      if entry.current == Some(w) {
        return;
      }
      groupsFocus := groupsFocus[g := GroupFocus(Some(w), entry.current)];
    }

    /** alt+Tab in group `currentGroup`: the window to refocus, if any.
        `groupOf` gives the group each window belongs to now; a window it
        does not list (a closed one) has no group, and reading that
        group's name raises. */
    method GoBack(currentGroup: GroupName, groupOf: map<WindowId, GroupName>)
      returns (r: Result<Option<WindowId>>)
      ensures r.Raised? <==>
                currentGroup in groupsFocus && groupsFocus[currentGroup].prev.Some? &&
                groupsFocus[currentGroup].prev.value !in groupOf
      ensures r.Raised? ==> r.error == AttributeError
      // the jump happens exactly when prev exists and still belongs to this group
      ensures r.Ok? && r.value.Some? <==>
                currentGroup in groupsFocus && groupsFocus[currentGroup].prev.Some? &&
                groupsFocus[currentGroup].prev.value in groupOf &&
                groupOf[groupsFocus[currentGroup].prev.value] == currentGroup
      ensures r.Ok? && r.value.Some? ==> Some(r.value.value) == groupsFocus[currentGroup].prev
    {
      var prev := if currentGroup in groupsFocus then groupsFocus[currentGroup].prev else None;
      if prev.None? {
        return Ok(None);
      }
      if prev.value !in groupOf {
        return Raised(AttributeError);
      }
      if groupOf[prev.value] == currentGroup {
        return Ok(prev);
      }
      return Ok(None);
    }
  }
}
