/** `order_windows_based_on_layout`: make a group's window list follow the
    order the "columns" layout shows its clients in, column by column and
    client by client; and `change_window_position`, which shuffles a window
    and then reorders. */
module WindowOrder {
  import opened Common

  /** A window of the host: its identity and its current name (title). */
  datatype Window = Window(id: WindowId, name: string)

  /** What the layout's `info()` reports: its name and, for "columns", the
      client names of each column, left to right and top to bottom. */
  datatype LayoutInfo = LayoutInfo(name: string, columns: seq<seq<string>>)

  /** The host's group, reduced to the list of its windows, which the
      callback edits in place. */
  class Group {
    var windows: seq<Window>

    constructor (windows: seq<Window>)
      ensures this.windows == windows
    {
      this.windows := windows;
    }
  }

  /** The client names of all columns, in column order: the first column's
      clients are visited first and the last column's last. */
  function Flatten(columns: seq<seq<string>>): (names: seq<string>)
    ensures columns != [] ==> columns[0] <= names
    ensures columns != [] ==>
              && |columns[|columns| - 1]| <= |names|
              && names[|names| - |columns[|columns| - 1]|..] == columns[|columns| - 1]
  {
    if columns == [] then []
    else
      var init := Flatten(columns[..|columns| - 1]);
      assert |columns| > 1 ==> columns[..|columns| - 1][0] == columns[0];
      assert (init + columns[|columns| - 1])[|init|..] == columns[|columns| - 1];
      init + columns[|columns| - 1]
  }

  lemma {:induction false} FlattenPrefix(columns: seq<seq<string>>, k: nat)
    requires k <= |columns|
    ensures Flatten(columns[..k]) <= Flatten(columns)
    decreases |columns|
  {
    if k < |columns| {
      assert columns[..|columns| - 1][..k] == columns[..k];
      FlattenPrefix(columns[..|columns| - 1], k);
    } else {
      assert columns[..k] == columns;
    }
  }

  /** The names of the windows, in list order. */
  function Names(ws: seq<Window>): seq<string> {
    seq(|ws|, k requires 0 <= k < |ws| => ws[k].name)
  }

  /** `[w for w in window_list if w.name == name][0]`: the position of the
      first window with that name, or None where indexing the empty
      comprehension would raise. */
  function FirstNamed(ws: seq<Window>, name: string): (r: Option<nat>)
    ensures r.None? <==> name !in Names(ws)
    ensures r.Some? ==> r.value < |ws| && ws[r.value].name == name
    ensures r.Some? ==> forall j :: 0 <= j < r.value ==> ws[j].name != name
  {
    if ws == [] then None
    else if ws[0].name == name then assert Names(ws)[0] == name; Some(0)
    else
      assert Names(ws) == [ws[0].name] + Names(ws[1..]);
      match FirstNamed(ws[1..], name)
      case None => None
      case Some(i) => Some(i + 1)
  }

  /** The working list without position `i`, as `window_list.remove(window)`
      leaves it for the first window of its name. */
  function RemoveAt(ws: seq<Window>, i: nat): (r: seq<Window>)
    requires i < |ws|
    ensures multiset(r) + multiset{ws[i]} == multiset(ws)
    ensures |r| == |ws| - 1
    // the other windows keep their order
    ensures forall j :: 0 <= j < i ==> r[j] == ws[j]
    ensures forall j :: i <= j < |r| ==> r[j] == ws[j + 1]
  {
    assert ws == ws[..i] + [ws[i]] + ws[i + 1..];
    ws[..i] + ws[i + 1..]
  }

  /** The state of the two loops: the windows picked so far, the windows
      still in the working list, and whether a name was not found. */
  datatype Reorder = Reorder(picked: seq<Window>, remaining: seq<Window>, failed: bool)

  /** The loops of `order_windows_based_on_layout` over a flat list of
      client names: each name takes the first remaining window of that name. */
  function ReorderFrom(work: seq<Window>, clients: seq<string>): (r: Reorder)
    // every window of the working list is either picked or still there
    ensures |r.picked| + |r.remaining| == |work|
    // a failure needs a client name to look up
    ensures r.failed ==> clients != []
    decreases |clients|
  {
    if clients == [] then Reorder([], work, false)
    else match FirstNamed(work, clients[0])
      case None => Reorder([], work, true)
      case Some(i) =>
        var rest := ReorderFrom(RemoveAt(work, i), clients[1..]);
        Reorder([work[i]] + rest.picked, rest.remaining, rest.failed)
  }

  /** No window is picked twice, lost or invented: the picked windows and
      the remaining ones together are the group's windows. */
  lemma {:induction false} ReorderKeepsWindows(work: seq<Window>, clients: seq<string>)
    ensures var r := ReorderFrom(work, clients);
            multiset(r.picked) + multiset(r.remaining) == multiset(work)
    decreases |clients|
  {
    if clients != [] {
      match FirstNamed(work, clients[0])
      case None =>
      case Some(i) =>
        ReorderKeepsWindows(RemoveAt(work, i), clients[1..]);
    }
  }

  /** The k-th window picked carries the k-th client name, and without a
      failure every client name got a window. */
  lemma {:induction false} ReorderFollowsLayout(work: seq<Window>, clients: seq<string>)
    ensures var r := ReorderFrom(work, clients);
            && |r.picked| <= |clients|
            && (forall k :: 0 <= k < |r.picked| ==> r.picked[k].name == clients[k])
            && (!r.failed ==> |r.picked| == |clients|)
    decreases |clients|
  {
    if clients != [] {
      match FirstNamed(work, clients[0])
      case None =>
      case Some(i) =>
        ReorderFollowsLayout(RemoveAt(work, i), clients[1..]);
    }
  }

  /** One iteration of the inner loop on the loop state `r`: the next
      client name takes the first remaining window of that name, or the
      lookup fails. */
  function Pick(r: Reorder, name: string): (p: Reorder)
    // the lookup fails exactly when no remaining window has the name
    ensures p.failed <==> name !in Names(r.remaining)
    ensures p.failed ==> p.picked == r.picked && p.remaining == r.remaining
    // otherwise one window of that name moves to the end of the picked list
    ensures !p.failed ==>
              && |p.picked| == |r.picked| + 1 && p.picked[..|r.picked|] == r.picked
              && p.picked[|r.picked|].name == name
              && multiset(p.picked) + multiset(p.remaining) == multiset(r.picked) + multiset(r.remaining)
  {
    match FirstNamed(r.remaining, name)
    case None => Reorder(r.picked, r.remaining, true)
    case Some(i) => Reorder(r.picked + [r.remaining[i]], RemoveAt(r.remaining, i), false)
  }

  /** Reordering against one more client name, after a prefix that did not
      fail, is one more iteration. */
  lemma {:induction false} ReorderSnoc(work: seq<Window>, clients: seq<string>, name: string)
    requires !ReorderFrom(work, clients).failed
    ensures ReorderFrom(work, clients + [name]) == Pick(ReorderFrom(work, clients), name)
    decreases |clients|
  {
    if clients == [] {
      assert [name][1..] == [];
    } else {
      var more := clients + [name];
      assert more[0] == clients[0] && more[1..] == clients[1..] + [name];
      var i := FirstNamed(work, clients[0]).value;
      ReorderSnoc(RemoveAt(work, i), clients[1..], name);
      PickAfterFirst(work[i], ReorderFrom(RemoveAt(work, i), clients[1..]), name);
    }
  }

  /** Picking after a state whose picked list starts with `w` keeps `w` in
      front. */
  lemma PickAfterFirst(w: Window, rest: Reorder, name: string)
    ensures Pick(Reorder([w] + rest.picked, rest.remaining, rest.failed), name) ==
            Reorder([w] + Pick(rest, name).picked, Pick(rest, name).remaining, Pick(rest, name).failed)
  {
    match FirstNamed(rest.remaining, name)
    case None =>
    case Some(j) =>
      assert [w] + (rest.picked + [rest.remaining[j]]) == ([w] + rest.picked) + [rest.remaining[j]];
  }

  /** `a` is `b` with some windows deleted: `idx` gives, in increasing
      order, the position in `b` of each window of `a`. */
  ghost predicate Embeds(idx: seq<nat>, a: seq<Window>, b: seq<Window>) {
    && |idx| == |a|
    && (forall k :: 0 <= k < |idx| ==> idx[k] < |b| && a[k] == b[idx[k]])
    && (forall k, l :: 0 <= k < l < |idx| ==> idx[k] < idx[l])
  }

  lemma RemoveAtEmbeds(ws: seq<Window>, i: nat)
    requires i < |ws|
    ensures Embeds(seq(|ws| - 1, k => if k < i then k else k + 1), RemoveAt(ws, i), ws)
  {
  }

  lemma EmbedsCompose(inner: seq<nat>, a: seq<Window>, b: seq<Window>, outer: seq<nat>, c: seq<Window>)
    requires Embeds(inner, a, b) && Embeds(outer, b, c)
    ensures Embeds(seq(|inner|, k requires 0 <= k < |inner| => outer[inner[k]]), a, c)
  {
  }

  /** The windows left in the working list keep the order they had in the
      group's list; after a failure this is the group's new list. */
  lemma {:induction false} ReorderKeepsOrder(work: seq<Window>, clients: seq<string>)
    ensures exists idx :: Embeds(idx, ReorderFrom(work, clients).remaining, work)
    decreases |clients|
  {
    var r := ReorderFrom(work, clients);
    if clients == [] || FirstNamed(work, clients[0]).None? {
      assert Embeds(seq(|work|, k => k), r.remaining, work);
    } else {
      var i := FirstNamed(work, clients[0]).value;
      var rest := RemoveAt(work, i);
      ReorderKeepsOrder(rest, clients[1..]);
      var inner :| Embeds(inner, r.remaining, rest);
      RemoveAtEmbeds(work, i);
      EmbedsCompose(inner, r.remaining, rest, seq(|work| - 1, k => if k < i then k else k + 1), work);
    }
  }

  /** The client names up to the k-th of column c: the names of the earlier
      columns followed by those k; a prefix of all the names, and all of
      column c's names once k reaches its end. */
  lemma ColumnsSoFar(columns: seq<seq<string>>, c: nat, k: nat)
    requires c < |columns| && k <= |columns[c]|
    ensures Flatten(columns[..c]) + columns[c][..k] <= Flatten(columns)
    ensures k == 0 ==> Flatten(columns[..c]) + columns[c][..k] == Flatten(columns[..c])
    ensures 0 < k ==> Flatten(columns[..c]) + columns[c][..k] ==
                      (Flatten(columns[..c]) + columns[c][..k - 1]) + [columns[c][k - 1]]
    ensures k == |columns[c]| ==> Flatten(columns[..c]) + columns[c][..k] == Flatten(columns[..c + 1])
  {
    FlattenStep(columns, c);
    FlattenPrefix(columns, c + 1);
    GrowPrefix(Flatten(columns[..c]), columns[c], k, Flatten(columns));
  }

  /** Flattening one more column appends its clients. */
  lemma FlattenStep(columns: seq<seq<string>>, c: nat)
    requires c < |columns|
    ensures Flatten(columns[..c + 1]) == Flatten(columns[..c]) + columns[c]
  {
    assert columns[..c + 1][..c] == columns[..c];
  }

  /** `before` followed by the first k of `xs`, inside a sequence that
      starts with `before + xs`. */
  lemma GrowPrefix<T>(before: seq<T>, xs: seq<T>, k: nat, all: seq<T>)
    requires k <= |xs| && before + xs <= all
    ensures before + xs[..k] <= all
    ensures k == 0 ==> before + xs[..k] == before
    ensures 0 < k ==> before + xs[..k] == (before + xs[..k - 1]) + [xs[k - 1]]
    ensures k == |xs| ==> before + xs[..k] == before + xs
  {
    assert xs[..|xs|] == xs;
    if 0 < k {
      assert xs[..k] == xs[..k - 1] + [xs[k - 1]];
    }
  }

  /** Once a name is missing, later names change nothing. */
  lemma {:induction false} ReorderFailedStays(work: seq<Window>, clients: seq<string>, more: seq<string>)
    requires clients <= more && ReorderFrom(work, clients).failed
    ensures ReorderFrom(work, more) == ReorderFrom(work, clients)
    decreases |clients|
  {
    assert clients != [];
    assert more[0] == clients[0];
    match FirstNamed(work, clients[0])
    case None =>
    case Some(i) =>
      ReorderFailedStays(RemoveAt(work, i), clients[1..], more[1..]);
  }

  /** The reordering succeeds exactly when the layout names no client more
      often than the group has windows of that name. */
  lemma {:induction false} ReorderSucceedsIff(work: seq<Window>, clients: seq<string>)
    ensures !ReorderFrom(work, clients).failed <==> multiset(clients) <= multiset(Names(work))
    decreases |clients|
  {
    if clients != [] {
      var name := clients[0];
      assert multiset(clients) == multiset(clients[1..]) + multiset{name} by {
        assert clients == [name] + clients[1..];
      }
      match FirstNamed(work, name)
      case None =>
        assert multiset(Names(work))[name] == 0;
      case Some(i) =>
        var rest := RemoveAt(work, i);
        ReorderSucceedsIff(rest, clients[1..]);
        NamesRemoveAt(work, i);
        assert ReorderFrom(work, clients).failed == ReorderFrom(rest, clients[1..]).failed;
        AddToBoth(multiset(clients[1..]), multiset(Names(rest)), name);
    }
  }

  lemma AddToBoth(a: multiset<string>, b: multiset<string>, x: string)
    ensures a <= b <==> a + multiset{x} <= b + multiset{x}
  {
    if a + multiset{x} <= b + multiset{x} {
      forall n
        ensures a[n] <= b[n]
      {
        assert (a + multiset{x})[n] <= (b + multiset{x})[n];
      }
    }
  }

  lemma NamesRemoveAt(ws: seq<Window>, i: nat)
    requires i < |ws|
    ensures multiset(Names(RemoveAt(ws, i))) + multiset{ws[i].name} == multiset(Names(ws))
  {
    var n := Names(ws);
    assert Names(RemoveAt(ws, i)) == n[..i] + n[i + 1..];
    assert n == n[..i] + [n[i]] + n[i + 1..];
  }

  /** When the layout names every window of the group exactly once (the
      names as a multiset are the group's), the new list is a permutation
      of the old one and the working list ends empty. */
  lemma ReorderPermutes(work: seq<Window>, clients: seq<string>)
    requires multiset(clients) == multiset(Names(work))
    ensures var r := ReorderFrom(work, clients);
            !r.failed && r.remaining == [] && multiset(r.picked) == multiset(work)
  {
    ReorderSucceedsIff(work, clients);
    ReorderKeepsWindows(work, clients);
    ReorderFollowsLayout(work, clients);
    var r := ReorderFrom(work, clients);
    assert |multiset(clients)| == |clients|;
    assert |multiset(Names(work))| == |work|;
    assert |multiset(r.picked) + multiset(r.remaining)| == |multiset(work)|;
    assert |r.remaining| == 0;
  }

  /** `order_windows_based_on_layout(group)` with the layout reporting
      `info`. On a missing client name the comprehension's `[0]` raises;
      by then the windows already picked have been removed from the group's
      own list (the working list is that list), so the group keeps only the
      remaining ones. */
  method OrderWindowsBasedOnLayout(group: Group, info: LayoutInfo) returns (r: Result<()>)
    modifies group
    ensures info.name != "columns" ==> r == Ok(()) && group.windows == old(group.windows)
    ensures info.name == "columns" ==>
              var s := ReorderFrom(old(group.windows), Flatten(info.columns));
              && (s.failed ==> r == Raised(IndexError) && group.windows == s.remaining)
              && (!s.failed ==> r == Ok(()) && group.windows == s.picked)
  {
    if info.name != "columns" {
      return Ok(());
    }
    ghost var original := group.windows;
    ghost var done: seq<string> := [];
    var newWindowList: seq<Window> := [];
    assert info.columns[..0] == [];
    for c := 0 to |info.columns|
      invariant done == Flatten(info.columns[..c])
      invariant ReorderFrom(original, done) == Reorder(newWindowList, group.windows, false)
    {
      var clients := info.columns[c];
      ColumnsSoFar(info.columns, c, 0);
      for k := 0 to |clients|
        invariant done == Flatten(info.columns[..c]) + clients[..k]
        invariant ReorderFrom(original, done) == Reorder(newWindowList, group.windows, false)
      {
        var clientName := clients[k];
        ColumnsSoFar(info.columns, c, k + 1);
        ReorderSnoc(original, done, clientName);
        assert ReorderFrom(original, done + [clientName]) == Pick(Reorder(newWindowList, group.windows, false), clientName);
        var found := FirstNamed(group.windows, clientName);
        if found.None? {
          ReorderFailedStays(original, done + [clientName], Flatten(info.columns));
          return Raised(IndexError);
        }
        var window := group.windows[found.value];
        group.windows := RemoveAt(group.windows, found.value);
        newWindowList := newWindowList + [window];
        done := done + [clientName];
      }
      ColumnsSoFar(info.columns, c, |clients|);
    }
    assert info.columns[..|info.columns|] == info.columns;
    group.windows := newWindowList;
    r := Ok(());
  }

  /** `change_window_position`'s choice of layout command for a direction;
      an unknown direction issues none. */
  function ShuffleCommand(direction: string): (cmd: Option<string>)
    ensures cmd.Some? <==> direction in ["left", "right", "up", "down"]
    ensures cmd.Some? ==> cmd.value == "shuffle_" + direction
  {
    if direction == "left" then Some("shuffle_left")
    else if direction == "right" then Some("shuffle_right")
    else if direction == "up" then Some("shuffle_up")
    else if direction == "down" then Some("shuffle_down")
    else None
  }

  /** `change_window_position`: the layout command sent for `direction`,
      then the reordering of the current group against `infoAfter`, the
      layout's report once the host has run that command. */
  method ChangeWindowPosition(direction: string, group: Group, infoAfter: LayoutInfo)
    returns (cmd: Option<string>, r: Result<()>)
    modifies group
    ensures cmd.Some? <==> direction in ["left", "right", "up", "down"]
    ensures cmd.Some? ==> cmd.value == "shuffle_" + direction
    ensures infoAfter.name != "columns" ==> r == Ok(()) && group.windows == old(group.windows)
    ensures infoAfter.name == "columns" ==>
              var s := ReorderFrom(old(group.windows), Flatten(infoAfter.columns));
              && (s.failed ==> r == Raised(IndexError) && group.windows == s.remaining)
              && (!s.failed ==> r == Ok(()) && group.windows == s.picked)
  {
    cmd := ShuffleCommand(direction);
    r := OrderWindowsBasedOnLayout(group, infoAfter);
  }
}
