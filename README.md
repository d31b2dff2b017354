# qtile configuration: focus history, screen placement and window order

A Dafny model of the stateful callbacks in a personal configuration file
for the qtile tiling window manager (`config.py`). The host owns every
window, group and screen; the configuration reacts to host hooks and key
presses. This model covers:

- **`PrevFocus`** (`FocusHistory`, `focus_history.dfy`). Each group keeps
  a record of its focused window and the window focused before it.
  alt+Tab jumps back to that earlier window, but only while it still
  belongs to the group.
- **`PrevGroup`** (`GroupHistory`, `group_history.dfy`). A short history
  of focused groups. mod+Tab switches back to the group focused before the
  current one, keeping it on its screen.
- **`group_screen_index`** (`ScreenPlacement`, `screen_placement.dfy`).
  Nine slots, one per physical screen, each listing the groups that live
  on that screen. Two handlers use it:
  - `switch_group_and_keep_screen_pos` shows a group on its screen.
  - `switch_group_screen` moves the current group to the next screen's
    slot and then shows it.
- **`order_windows_based_on_layout`** and **`change_window_position`**
  (`WindowOrder`, `window_order.dfy`). These rewrite a group's window list
  so that it follows the order in which the "columns" layout shows the
  clients: column by column, and top to bottom within a column. The new
  list holds only the windows the layout reports. A window of the group
  that the layout does not name is dropped from the list.
- **`center_mouse`** and **`center_if_layout_not_max`** (`Pointer`,
  `pointer.dfy`). They compute the point at the centre of a window.

Where the source mutates state, the model does too:

- `PrevFocus`, `PrevGroup` and the screen table are classes whose methods
  update their fields.
- The screen table is an `array` of slots, updated slot by slot.
- The group's window list is a field that the reordering method edits as
  the loops run.

Each method is proved against a specification function:

| method | specification function |
|---|---|
| `OnFocus` | `AfterFocus` |
| `OnChangeGroup` | `AfterGroupFocus` |
| `SwitchGroupAndKeepScreenPos` | `KeepPos` |
| `SwitchGroupScreen` | `SwitchScreen` |
| `OrderWindowsBasedOnLayout` | `ReorderFrom` |

The properties the configuration relies on are proved as lemmas about those
functions.

Python exceptions are modelled as results (`Result.Raised`), not ruled
out by preconditions:

- An `IndexError` from `[-2]` on a short group history.
- An `IndexError` from `[0]` on an empty list comprehension.
- An `IndexError` from a slot index past the table.
- An `AttributeError` from reading `.name` of `None`.

The host's reports and effects are handled as follows:

- The number of screens, a layout's `info()` and each window's current
  group are passed in as parameters.
- The host commands are returned as values:
  - the screen to focus;
  - the window to refocus;
  - the layout command;
  - the point to move the pointer to.

Three facts about the code shape the model:

- The group history holds at most two entries. An entry is appended, then
  the oldest is dropped once there are more than two.
- Two lookups can raise:
  - `order_windows_based_on_layout` raises when the layout names a client
    that has no window left. By then the windows already picked have left
    the group's own list.
  - `switch_group_screen` raises when `(index + 1) % len(screens)` is
    past the nine slots. That happens with ten or more screens, for a
    group in the last slot, after the group has been removed from its
    slot.
- Both handlers keep group names unique across slots
  (`RelocateKeepsNames`, `SwitchScreenKeepsNames`, `KeepPos`). The
  initial table has unique names (`InitialTableHoldsEveryGroup`), so
  `ScreenIndex.Valid()` includes that.

## Model

| member | source | states |
|---|---|---|
| FocusHistory.AfterFocus | config.py:133-145 | A window outside every group is not recorded. Otherwise its group gets an entry whose current window is that window. Refocusing the current window changes nothing. A new window makes the old current window the previous one, and a group's first focus has no previous window. Other groups' entries are untouched, and "current is set and differs from prev" is preserved. |
| FocusHistory.JumpBackSwaps | config.py:133-153 | Jumping back to prev and recording that focus swaps the group's current and prev windows. A second jump restores the table exactly. |
| FocusHistory.PrevFocus.constructor | config.py:127-131 | The history starts empty. |
| FocusHistory.PrevFocus.OnFocus | config.py:133-145 | The new map is `AfterFocus` of the old one, and the well-formedness invariant is kept. |
| FocusHistory.PrevFocus.GoBack | config.py:147-153 | The jump happens exactly when the group has a prev window that still belongs to that group, and it returns that window. A prev window that now has no group raises AttributeError, exactly in that case. |
| GroupHistory.AfterGroupFocus | config.py:161-170 | The last entry is the group just focused, and the history never exceeds two entries. Two adjacent entries are never equal. A repeated group changes nothing. A new group leaves exactly [previous, new]. |
| GroupHistory.PrevGroup.constructor | config.py:157-159 | The history starts empty. |
| GroupHistory.PrevGroup.OnChangeGroup | config.py:161-170 | The new list is `AfterGroupFocus` of the old one, and boundedness is kept. |
| GroupHistory.PrevGroup.Previous | config.py:172-173 | `[-2]` succeeds exactly when the history has two entries. It then yields the older entry, which differs from the current one. Otherwise it raises IndexError. |
| GroupHistory.PrevGroup.Call | config.py:172-174 | A short history raises IndexError, and a `None` previous group raises AttributeError; neither changes the table. Otherwise the table and the result are those of `KeepPos` for the previous group. |
| ScreenPlacement.GroupsOf | config.py:381 | One group per character, named by that character. |
| ScreenPlacement.InitialTable | config.py:243-253 | The literal table is the nine declared groups: the first two in slot 0, the other seven in slot 1, and the remaining slots empty. |
| ScreenPlacement.InitialTableHoldsEveryGroup | config.py:243-253 | The initial table holds each of the nine declared groups exactly once. |
| ScreenPlacement.SplitOverTwoSlots | config.py:243-253 | The first two slots together hold the names in order, and the other slots are empty. |
| ScreenPlacement.FirstSlotWith | config.py:271-272 | It returns the first slot holding the name, or None exactly when no slot holds it. |
| ScreenPlacement.IndexOf | config.py:291 | `list.index`: the first position of the name. |
| ScreenPlacement.RemoveFirst | config.py:291-292 | It drops the first occurrence of the name, keeps the rest in order, and removes exactly one copy. |
| ScreenPlacement.Relocate | config.py:289-295 | The name leaves its first slot and is appended to the slot `(index + 1) % screens`. No other slot changes. An absent name changes nothing. A destination past the table is flagged. |
| ScreenPlacement.RelocateKeepsNames | config.py:289-295 | Relocating keeps every name, except that overflowing loses the moved one. Unique names stay unique. |
| ScreenPlacement.KeepPos | config.py:256-282 | With one screen, slot 1 is merged into slot 0 and the group goes to the current screen. With several screens, the table is unchanged and the group is shown on the first slot holding it, or nowhere if no slot holds it. Names are kept, and uniqueness is preserved. |
| ScreenPlacement.SwitchScreen | config.py:285-299 | An absent group changes nothing. It raises IndexError exactly when the destination slot lies past the table. With one screen, the group goes to the current screen. |
| ScreenPlacement.SwitchScreenKeepsNames | config.py:285-299 | Every group stays in the table, except the moved one when IndexError is raised. Unique names stay unique. |
| ScreenPlacement.SwitchScreenShowsNextScreen | config.py:285-299 | With unique names and several screens, a successful move leaves the group in the next screen's slot only, and shows that screen. |
| ScreenPlacement.ScreenIndex.constructor | config.py:243-253 | The array holds the initial table, and the names in it are unique. |
| ScreenPlacement.ScreenIndex.SwitchGroupAndKeepScreenPos | config.py:256-282 | The new array and the screen chosen are those of `KeepPos` for the old array, and the invariant is kept. |
| ScreenPlacement.ScreenIndex.SwitchGroupScreen | config.py:285-299 | The new array and the outcome are those of `SwitchScreen` for the old array, and the invariant is kept. |
| WindowOrder.Flatten | config.py:229-231 | Client names are visited column by column: the first column's clients come first and the last column's come last. |
| WindowOrder.FirstNamed | config.py:232-236 | It returns the position of the first window with that name. None means no window has that name, which is where `[0]` raises. |
| WindowOrder.RemoveAt | config.py:237 | It removes exactly one window, the chosen one. The windows before it stay in place and the windows after it move up by one, so the order of the rest is kept. |
| WindowOrder.FlattenPrefix | config.py:229-231 | The client names of the first k columns are a prefix of all client names. |
| WindowOrder.ReorderFrom | config.py:229-238 | The two loops over a flat list of client names. Every window of the working list is either picked or still there, and a failure needs a client name. |
| WindowOrder.Pick | config.py:232-238 | One inner iteration. The lookup fails exactly when no remaining window has the name, and then nothing moves. Otherwise one window of that name is appended to the picked list, and no window is lost. |
| WindowOrder.ReorderKeepsOrder | config.py:232-237 | The windows left in the working list keep the order they had in the group's list. After an IndexError, this is the group's list. |
| WindowOrder.ReorderKeepsWindows | config.py:229-238 | Picked windows plus the windows left in the working list are exactly the group's windows, so none is lost, duplicated or invented. |
| WindowOrder.ReorderFollowsLayout | config.py:229-238 | The k-th window picked carries the k-th client name. Without a failure, every client got a window. |
| WindowOrder.ReorderSnoc | config.py:231-238 | One more client name after a successful prefix is one more loop iteration. |
| WindowOrder.PickAfterFirst | config.py:237-238 | An iteration after a picked window keeps that window in front. |
| WindowOrder.ColumnsSoFar | config.py:229-231 | The names visited so far are the earlier columns followed by part of the current one. They are a prefix of all names, and grow by one client per iteration. |
| WindowOrder.ReorderFailedStays | config.py:232-236 | Once a client name is missing, later names change nothing, because the exception ends the loops. |
| WindowOrder.ReorderSucceedsIff | config.py:229-238 | The reordering succeeds exactly when the layout names no client more often than the group has windows of that name. |
| WindowOrder.ReorderPermutes | config.py:229-240 | When the layout's client names are the group's window names, the new list is a permutation of the old one and the working list ends empty. |
| WindowOrder.OrderWindowsBasedOnLayout | config.py:220-240 | A layout other than "columns" changes nothing. Otherwise the group's new list is the picked windows of `ReorderFrom`, so windows the layout does not name are dropped. On a missing name it raises IndexError, and the group keeps only the windows not yet picked. |
| WindowOrder.ShuffleCommand | config.py:206-215 | A command is sent exactly for left, right, up and down, and it is `shuffle_` followed by the direction. |
| WindowOrder.ChangeWindowPosition | config.py:206-217 | The shuffle command of `ShuffleCommand`, then the reordering of `OrderWindowsBasedOnLayout` against the layout's report after the shuffle. |
| Pointer.CenterPoint | config.py:184-193 | Each coordinate is advanced by half the extent rounded down: twice the offset is the width or the width minus one. For a non-negative extent the point lies inside the window. |
| Pointer.CenterIfLayoutNotMax | config.py:177-181 | The pointer moves exactly when the layout is not "max", and then to the window's centre. |

## Left out

- The bars, widgets, colours, key bindings, mouse bindings, float rules, layout list and other configuration tables: they are data the host reads, with no behaviour of their own.
- `start_once`, the hook decorators and `hook.subscribe` calls: registration with the host. The model's methods are what the hooks call.
- `redraw_all_screens`, `cmd_toscreen`, `focus_screen` and `group.focus`: host effects. The handlers return the screen to focus or the window to refocus instead.
- Recentring the pointer after alt+Tab (`center_if_layout_not_max(prev)`): `GoBack` returns the window to refocus, but not the pointer target. `CenterIfLayoutNotMax` models that choice separately, given the layout name and the window's geometry.
- The pointer move through PyMouse: a foreign library. `CenterPoint` returns the target point.
- The comparison `qtile.current_screen != pre_screen` that decides whether to recentre the pointer after showing a group: it depends on the host's screen state, which is not part of this model.
- `window.info()` and the layout's `info()`: host calls. Their results are parameters (`Geometry`, `LayoutInfo`).
- The `print(new_window_list)` in `order_windows_based_on_layout`: logging output.
- `PrevFocus.focus` and `PrevFocus.old_focus`: set in the constructor and never read.
- Identity of windows and groups: windows are compared by id and groups by name. Two distinct host objects with the same name are not told apart.
- Which list each status bar shows. Each bar is built from one slot list of `group_screen_index`, and the one-screen case of `switch_group_and_keep_screen_pos` rebinds slot 1 to a fresh list. The model does not capture that the second bar keeps the old slot-1 list after that rebinding, or what the bars do with their lists (the group box widget is not part of this model).
