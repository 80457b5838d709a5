/**
  The tray application's poll step and exit, put together from the battery
  query, the presentation rules and the handle discipline.

  A poll runs the query, sets the tooltip from the reading, renders the
  glyph and installs it. Timers, the context menu, the single-instance lock
  and the background task that runs the query are not modelled: a poll is
  given the query's capture and the allocator's answer as inputs, and
  polls happen one after the other.
 */
module TrayApp {
  import opened Options
  import opened BatteryQuery
  import opened IconRenderer
  import opened IconHandles

  /** The tooltip, the glyph of the icon installed last (`None` while the
      stock application icon from startup is still shown), whether the tray
      icon is visible, and the native handle state. */
  datatype Tray = Tray(tooltip: string, shown: Option<Glyph>, visible: bool, icons: Icons)

  const StartingTooltip: string := "Starting..."

  const Startup: Tray := Tray(StartingTooltip, None, true, Initial)

  /** One poll: take the reading from the capture, set the tooltip, then
      render the glyph and install it with the allocation-first replacement
      step. The tooltip and the installed glyph are what the presentation
      rules give for the reading. The tooltip says "no device" exactly when
      the reading is negative, which covers every failed query; the
      installed glyph fills nothing exactly then too. A failed allocation
      leaves the icon as it was. */
  function Refresh(t: Tray, capture: Capture, alloc: Alloc): (r: Tray)
    requires FreshFor(alloc, t.icons.live)
    ensures r.tooltip == Present(Query(capture)).tooltip
    ensures alloc.Allocated? ==> r.shown == Some(Present(Query(capture)).glyph)
    ensures r.tooltip == NoDeviceTooltip <==> Query(capture) < 0
    ensures capture.Threw? ==> r.tooltip == NoDeviceTooltip
    ensures alloc.Allocated? ==> r.shown.Some? && (HasFill(r.shown.value) <==> Query(capture) >= 0)
    ensures alloc.Failed? ==> r.shown == t.shown && r.icons == t.icons
    ensures Owned(t.icons) ==> Owned(r.icons) && r.icons.staleReleases == t.icons.staleReleases
    ensures r.visible == t.visible
  {
    var level := Query(capture);
    var p := Present(level);
    var icons := SetIcon(t.icons, alloc);
    var shown := if alloc.Allocated? then Some(p.glyph) else t.shown;
    Tray(p.tooltip, shown, t.visible, icons)
  }

  /** Exit: hide the icon and release the current handle. */
  function Quit(t: Tray): (r: Tray)
    ensures !r.visible
    ensures Owned(t.icons) ==> r.icons.live == {} && r.icons.staleReleases == t.icons.staleReleases
  {
    t.(visible := false, icons := Exit(t.icons))
  }

  /** What one poll is given: the query's capture and the allocator's
      answer. */
  datatype Poll = Poll(capture: Capture, alloc: Alloc)

  /** The allocator's answers over a session, in order. */
  function Allocs(polls: seq<Poll>): (allocs: seq<Alloc>)
    ensures |allocs| == |polls|
    ensures forall i :: 0 <= i < |polls| ==> allocs[i] == polls[i].alloc
  {
    seq(|polls|, i requires 0 <= i < |polls| => polls[i].alloc)
  }

  /** A session the allocator could have answered: only the handle state
      constrains it. */
  predicate ValidPolls(t: Tray, polls: seq<Poll>) {
    ValidRun(t.icons, Allocs(polls))
  }

  function RunPolls(t: Tray, polls: seq<Poll>): Tray
    requires ValidPolls(t, polls)
    decreases |polls|
  {
    if |polls| == 0 then t
    else
      assert Allocs(polls)[1..] == Allocs(polls[1..]);
      RunPolls(Refresh(t, polls[0].capture, polls[0].alloc), polls[1..])
  }

  /** The handle state after a session is the handle run of the allocator's
      answers alone: the queries and what was drawn do not affect it. */
  lemma {:induction false} SessionIcons(t: Tray, polls: seq<Poll>)
    requires ValidPolls(t, polls)
    ensures RunPolls(t, polls).icons == Run(t.icons, Allocs(polls))
    decreases |polls|
  {
    if |polls| > 0 {
      assert Allocs(polls)[1..] == Allocs(polls[1..]);
      SessionIcons(Refresh(t, polls[0].capture, polls[0].alloc), polls[1..]);
    }
  }

  /** Over any session of polls, whatever the queries returned and whether
      or not the allocations succeeded, at most one native icon is live and
      it is the current one, no handle is released twice, and exiting leaves
      none live. */
  lemma SessionReleasesEverything(t: Tray, polls: seq<Poll>)
    requires Owned(t.icons)
    requires ValidPolls(t, polls)
    ensures Owned(RunPolls(t, polls).icons)
    ensures RunPolls(t, polls).icons.staleReleases == t.icons.staleReleases
    ensures Quit(RunPolls(t, polls)).icons.live == {}
    ensures Quit(RunPolls(t, polls)).icons.staleReleases == t.icons.staleReleases
  {
    SessionIcons(t, polls);
    RunOwnsOne(t.icons, Allocs(polls));
  }

  /** When every icon conversion of a session succeeds, the session's
      handles are exactly what the program's own replacement step produces,
      so the guarantees above hold for the program as written. */
  lemma SessionAsWritten(t: Tray, polls: seq<Poll>)
    requires Owned(t.icons)
    requires ValidPolls(t, polls) && AllSucceed(Allocs(polls))
    ensures ValidRunAsWritten(t.icons, Allocs(polls))
    ensures RunPolls(t, polls).icons == RunAsWritten(t.icons, Allocs(polls))
  {
    SessionIcons(t, polls);
    RunAgreesOnSuccess(t.icons, Allocs(polls));
  }

  /** The tray after the last poll shows what that poll's reading calls
      for. */
  lemma {:induction false} LastPollDecidesTooltip(t: Tray, polls: seq<Poll>)
    requires ValidPolls(t, polls)
    requires |polls| > 0
    ensures var last := polls[|polls| - 1];
      RunPolls(t, polls).tooltip == Present(Query(last.capture)).tooltip
    decreases |polls|
  {
    if |polls| > 1 {
      var next := Refresh(t, polls[0].capture, polls[0].alloc);
      assert Allocs(polls)[1..] == Allocs(polls[1..]);
      LastPollDecidesTooltip(next, polls[1..]);
      assert polls[1..][|polls[1..]| - 1] == polls[|polls| - 1];
    } else {
      var next := Refresh(t, polls[0].capture, polls[0].alloc);
      assert Allocs(polls)[1..] == Allocs(polls[1..]);
      assert RunPolls(next, polls[1..]) == next;
    }
  }

  /** A connected reading of 87 from the first poll. */
  lemma ExampleConnected(h: Handle)
    requires h != Zero
    ensures var r := Refresh(Startup, Output("87\r\n"), Allocated(h));
      && r.tooltip == "Battery: 87%"
      && r.shown.Some?
      && LevelFills(r.shown.value) == [FillRectangle(LimeGreen, Rect(6, 9, 17, 14))]
  {
    ExampleReading();
    ExamplePresent87();
  }

  /** Empty output from the first poll. */
  lemma ExampleDisconnected(h: Handle)
    requires h != Zero
    ensures var r := Refresh(Startup, Output(""), Allocated(h));
      && r.tooltip == NoDeviceTooltip
      && r.shown == Some(DisconnectedGlyph)
  {
  }
}
