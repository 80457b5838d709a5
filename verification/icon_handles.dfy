/**
  The discipline around the one native icon handle the tray owns.

  Rendering converts the drawn bitmap into a native icon (`GetHicon`),
  which allocates a handle that must be released (`DestroyIcon`) once it is
  replaced and when the program exits. The allocator is abstract: the
  model keeps the set of handles the program has allocated and not yet
  released, and a count of release calls made on a handle that was not live.

  Two versions of the replacement step are modelled. `SetIconAsWritten`
  follows the program: release the old handle, then allocate. If the
  allocation throws, the current handle is left naming a released icon,
  and the next replacement or the exit releases it a second time.
  `SetIcon` allocates first and releases the old handle only once the new
  one exists; it agrees with the program whenever allocation succeeds and
  keeps the ownership invariant when it fails.
 */
module IconHandles {

  /** A native handle; `Zero` is the null handle. */
  type Handle = int

  const Zero: Handle := 0

  /** The outcome of converting a bitmap into a native icon. */
  datatype Alloc = Allocated(handle: Handle) | Failed

  /** `current` is the handle field; `live` the handles allocated and not
      yet released; `staleReleases` the number of release calls made on a
      handle that was not live. */
  datatype Icons = Icons(current: Handle, live: set<Handle>, staleReleases: nat)

  /** Before the first icon is rendered the field holds the null handle. */
  const Initial: Icons := Icons(Zero, {}, 0)

  /** The ownership invariant: the only live handle is the current one, and
      there is none while the field is null. */
  predicate Owned(s: Icons) {
    s.live == if s.current == Zero then {} else {s.current}
  }

  /** What the allocator promises: a successful allocation yields a non-null
      handle that is not live. */
  predicate FreshFor(a: Alloc, live: set<Handle>) {
    a.Allocated? ==> a.handle != Zero && a.handle !in live
  }

  /** `DestroyIcon(h)`: a live handle stops being live; releasing a handle
      that is not live is counted as stale. */
  function Release(s: Icons, h: Handle): (r: Icons)
    ensures r.current == s.current
    ensures h in s.live ==> r.live == s.live - {h} && r.staleReleases == s.staleReleases
    ensures h !in s.live ==> r.live == s.live && r.staleReleases == s.staleReleases + 1
  {
    if h in s.live then s.(live := s.live - {h})
    else s.(staleReleases := s.staleReleases + 1)
  }

  /** Releases the current handle unless it is null. */
  function ReleaseCurrent(s: Icons): (r: Icons)
    ensures r.current == s.current
    ensures Owned(s) ==> r.live == {} && r.staleReleases == s.staleReleases
  {
    if s.current != Zero then Release(s, s.current) else s
  }

  /** The replacement step as the program writes it: release the old handle
      if it is not null, then allocate and install the new one. A failed
      allocation throws after the release, leaving the field unchanged. */
  function SetIconAsWritten(s: Icons, a: Alloc): (r: Icons)
    requires FreshFor(a, ReleaseCurrent(s).live)
    ensures Owned(s) && a.Allocated? ==> Owned(r) && r.current == a.handle && r.staleReleases == s.staleReleases
    ensures Owned(s) && s.current != Zero && a.Failed? ==> r.current == s.current && r.current !in r.live
  {
    var released := ReleaseCurrent(s);
    match a
    case Failed => released
    case Allocated(h) => released.(current := h, live := released.live + {h})
  }

  /** The replacement step with the allocation moved first: allocate; on
      success release the old handle if it is not null and install the new
      one; on failure change nothing. */
  function SetIcon(s: Icons, a: Alloc): (r: Icons)
    requires FreshFor(a, s.live)
    ensures Owned(s) ==> Owned(r) && r.staleReleases == s.staleReleases
    ensures a.Allocated? ==> r.current == a.handle
    ensures Owned(s) && a.Allocated? && s.current != Zero ==> s.current !in r.live
    ensures a.Failed? ==> r == s
  {
    match a
    case Failed => s
    case Allocated(h) =>
      var released := ReleaseCurrent(s);
      released.(current := h, live := released.live + {h})
  }

  /** On exit the current handle is released unless it is null; the field
      itself is left as it is. */
  function Exit(s: Icons): (r: Icons)
    ensures Owned(s) ==> r.live == {} && r.staleReleases == s.staleReleases
    ensures !Owned(s) && s.current != Zero && s.current !in s.live ==> r.staleReleases == s.staleReleases + 1
  {
    ReleaseCurrent(s)
  }

  /** Whenever the allocator keeps its promise, both versions of the
      replacement step reach the same state. */
  lemma SetIconAgreesOnSuccess(s: Icons, a: Alloc)
    requires Owned(s)
    requires a.Allocated? && FreshFor(a, s.live)
    ensures SetIconAsWritten(s, a) == SetIcon(s, a)
  {
  }

  /** Allocation outcomes the allocator could have produced, one after the
      other, for the program's replacement step. */
  predicate ValidRunAsWritten(s: Icons, allocs: seq<Alloc>)
    decreases |allocs|
  {
    |allocs| > 0 ==>
      && FreshFor(allocs[0], ReleaseCurrent(s).live)
      && ValidRunAsWritten(SetIconAsWritten(s, allocs[0]), allocs[1..])
  }

  function RunAsWritten(s: Icons, allocs: seq<Alloc>): Icons
    requires ValidRunAsWritten(s, allocs)
    decreases |allocs|
  {
    if |allocs| == 0 then s else RunAsWritten(SetIconAsWritten(s, allocs[0]), allocs[1..])
  }

  /** Allocation outcomes the allocator could have produced, one after the
      other, for the corrected replacement step. */
  predicate ValidRun(s: Icons, allocs: seq<Alloc>)
    decreases |allocs|
  {
    |allocs| > 0 ==>
      && FreshFor(allocs[0], s.live)
      && ValidRun(SetIcon(s, allocs[0]), allocs[1..])
  }

  function Run(s: Icons, allocs: seq<Alloc>): Icons
    requires ValidRun(s, allocs)
    decreases |allocs|
  {
    if |allocs| == 0 then s else Run(SetIcon(s, allocs[0]), allocs[1..])
  }

  predicate AllSucceed(allocs: seq<Alloc>) {
    forall i :: 0 <= i < |allocs| ==> allocs[i].Allocated?
  }

  /** The program's replacement step keeps exactly one live handle, the
      current one, over any number of successful renders, never releases a
      handle twice, and the exit then leaves none live. */
  lemma {:induction false} RunAsWrittenOwnsOne(s: Icons, allocs: seq<Alloc>)
    requires Owned(s)
    requires ValidRunAsWritten(s, allocs) && AllSucceed(allocs)
    ensures Owned(RunAsWritten(s, allocs))
    ensures RunAsWritten(s, allocs).staleReleases == s.staleReleases
    ensures |allocs| > 0 ==> RunAsWritten(s, allocs).current == allocs[|allocs| - 1].handle
    ensures |allocs| > 0 ==> RunAsWritten(s, allocs).live == {allocs[|allocs| - 1].handle}
    ensures Exit(RunAsWritten(s, allocs)).live == {}
    ensures Exit(RunAsWritten(s, allocs)).staleReleases == s.staleReleases
    decreases |allocs|
  {
    if |allocs| > 0 {
      var next := SetIconAsWritten(s, allocs[0]);
      assert allocs[0].Allocated?;
      assert AllSucceed(allocs[1..]) by {
        forall i | 0 <= i < |allocs[1..]| ensures allocs[1..][i].Allocated? {
          assert allocs[1..][i] == allocs[i + 1];
        }
      }
      RunAsWrittenOwnsOne(next, allocs[1..]);
      if |allocs| > 1 {
        assert allocs[1..][|allocs[1..]| - 1] == allocs[|allocs| - 1];
      }
    }
  }

  /** When every allocation succeeds, the corrected run is a run the
      program's own step can make too, and it reaches the same state. */
  lemma {:induction false} RunAgreesOnSuccess(s: Icons, allocs: seq<Alloc>)
    requires Owned(s)
    requires ValidRun(s, allocs) && AllSucceed(allocs)
    ensures ValidRunAsWritten(s, allocs)
    ensures RunAsWritten(s, allocs) == Run(s, allocs)
    decreases |allocs|
  {
    if |allocs| > 0 {
      var a := allocs[0];
      assert a.Allocated?;
      assert AllSucceed(allocs[1..]) by {
        forall i | 0 <= i < |allocs[1..]| ensures allocs[1..][i].Allocated? {
          assert allocs[1..][i] == allocs[i + 1];
        }
      }
      SetIconAgreesOnSuccess(s, a);
      RunAgreesOnSuccess(SetIcon(s, a), allocs[1..]);
    }
  }

  /** A failed allocation between two renders makes the program release the
      first icon twice: once before the failed allocation and again before
      the next one. */
  lemma {:induction false} FailedAllocationReleasesTwice(h1: Handle, h2: Handle)
    requires h1 != Zero && h2 != Zero
    ensures var allocs := [Allocated(h1), Failed, Allocated(h2)];
      && ValidRunAsWritten(Initial, allocs)
      && RunAsWritten(Initial, allocs).staleReleases == 1
  {
    var s1 := SetIconAsWritten(Initial, Allocated(h1));
    assert s1 == Icons(h1, {h1}, 0);
    var s2 := SetIconAsWritten(s1, Failed);
    assert s2 == Icons(h1, {}, 0);
    var s3 := SetIconAsWritten(s2, Allocated(h2));
    assert s3 == Icons(h2, {h2}, 1);
    var allocs := [Allocated(h1), Failed, Allocated(h2)];
    assert allocs[1..] == [Failed, Allocated(h2)];
    assert allocs[1..][1..] == [Allocated(h2)];
    assert allocs[1..][1..][1..] == [];
    assert ValidRunAsWritten(s2, [Allocated(h2)]) && RunAsWritten(s2, [Allocated(h2)]) == s3;
    assert ValidRunAsWritten(s1, [Failed, Allocated(h2)]) && RunAsWritten(s1, [Failed, Allocated(h2)]) == s3;
  }

  /** A failed allocation followed by the exit also releases the first icon
      twice. */
  lemma {:induction false} FailedAllocationThenExit(h1: Handle)
    requires h1 != Zero
    ensures var allocs := [Allocated(h1), Failed];
      && ValidRunAsWritten(Initial, allocs)
      && Exit(RunAsWritten(Initial, allocs)).staleReleases == 1
  {
    var s1 := SetIconAsWritten(Initial, Allocated(h1));
    assert s1 == Icons(h1, {h1}, 0);
    var s2 := SetIconAsWritten(s1, Failed);
    assert s2 == Icons(h1, {}, 0);
    var allocs := [Allocated(h1), Failed];
    assert allocs[1..] == [Failed];
    assert allocs[1..][1..] == [];
    assert ValidRunAsWritten(s1, [Failed]) && RunAsWritten(s1, [Failed]) == s2;
    assert Exit(s2).staleReleases == 1;
  }

  /** With the allocation moved first, every run, failed allocations
      included, keeps the ownership invariant and never releases a handle
      that is not live; the exit then leaves none live. */
  lemma {:induction false} RunOwnsOne(s: Icons, allocs: seq<Alloc>)
    requires Owned(s)
    requires ValidRun(s, allocs)
    ensures Owned(Run(s, allocs))
    ensures Run(s, allocs).staleReleases == s.staleReleases
    ensures Exit(Run(s, allocs)).live == {}
    ensures Exit(Run(s, allocs)).staleReleases == s.staleReleases
    decreases |allocs|
  {
    if |allocs| > 0 {
      RunOwnsOne(SetIcon(s, allocs[0]), allocs[1..]);
    }
  }
}
