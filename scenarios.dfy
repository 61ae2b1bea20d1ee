/**
 * Client code driving the socket handler through its typical uses: a fresh
 * settings file, an inactive and an active connection, and shutdown with two
 * tracked connections, as written and as evidently intended.
 */
module SocketScenarios {
  import opened SocketFilters
  import opened SocketHandling
  import opened Wrappers

  /** A handler created over a settings file without either setting consults the isActive filter alone. */
  method FreshSettings() returns (h: SocketHandler)
    ensures fresh(h) && h.Valid()
    ensures h.filters == [IsActive] && h.live == {} && h.queue == [] && !h.poolShutdown
  {
    h := new SocketHandler(map[], false, false);
    FreshConfiguration(map[], Ctx(0, false, false));
  }

  /** Behind the isActive filter an inactive context is turned away and an active one is queued. */
  method AdmitBehindIsActive(h: SocketHandler)
    requires h.Valid() && h.filters == [IsActive] && h.live == {} && h.queue == [] && !h.poolShutdown
    modifies h
  {
    var idle := Ctx(0, false, true);
    FirstRejectAt([IsActive], idle, 0);
    var r := h.AcceptSocket(idle, false, false);
    assert r == Rejected(0);
    assert h.live == {} && h.queue == [];

    var busy := Ctx(1, true, false);
    r := h.AcceptSocket(busy, false, false);
    assert r == Submitted;
    assert h.live == {1} && h.queue == [PipelineTask(1)];
  }

  /**
   * A context admitted while active whose socket has closed since: its
   * teardown closes nothing, clears its temp files, and stops tracking it.
   */
  method TeardownAfterSocketClosed(h: SocketHandler)
    requires h.Valid() && h.filters == [IsActive] && h.live == {} && h.queue == [] && !h.poolShutdown
    modifies h
  {
    var r := h.AcceptSocket(Ctx(1, true, true), false, false);
    assert h.live == {1};
    var before := h.events;
    h.BreakSocketConnection(Ctx(1, false, true), false, false);
    assert h.live == {};
    assert h.events == before + [TempFilesCleared(Ctx(1, false, true), false)];
  }

  /** Tearing the same context down twice leaves the tracked set as one teardown does. */
  method TeardownTwice(h: SocketHandler, s: Ctx)
    requires h.Valid()
    modifies h
  {
    var before := h.live;
    h.BreakSocketConnection(s, false, false);
    h.BreakSocketConnection(s, true, true);
    assert h.live == before - {s.id};
  }

  /** Two active contexts tracked behind the isActive filter. */
  method TrackTwo(h: SocketHandler)
    requires h.Valid() && h.filters == [IsActive] && h.live == {} && h.queue == [] && !h.poolShutdown
    modifies h
    ensures h.Valid() && h.live == {1, 2} && |h.queue| == 2 && !h.poolShutdown
  {
    var ra := h.AcceptSocket(Ctx(1, true, false), false, false);
    var rb := h.AcceptSocket(Ctx(2, true, true), false, false);
  }

  /** At shutdown both contexts still have an active socket and only the second has a temp-file manager. */
  function BothActive(id: nat): Status
  {
    Status(true, id == 2)
  }

  /** With one tracked context, handleShutdown as written closes its socket and then shuts the pool down. */
  method ShutdownAsWrittenWithOne(h: SocketHandler)
    requires h.Valid() && h.filters == [IsActive] && h.live == {} && h.queue == [] && !h.poolShutdown
    modifies h
  {
    var r := h.AcceptSocket(Ctx(1, true, false), false, false);
    var before := h.events;
    var outcome, torn := h.HandleShutdownAsWritten(BothActive, {}, {}, 3);
    assert torn == Some(1) && outcome == Completed(3);
    assert h.events == before + [SocketClosed(Ctx(1, true, false), false), PoolShutdownNow];
    assert h.live == {} && h.queue == [] && h.poolShutdown;
  }

  /** With two tracked contexts, handleShutdown as written stops after one teardown and leaves the pool running. */
  method ShutdownAsWrittenWithTwo(h: SocketHandler)
    requires h.Valid() && h.filters == [IsActive] && h.live == {} && h.queue == [] && !h.poolShutdown
    modifies h
  {
    TrackTwo(h);
    assert |{1, 2}| == 2;
    var outcome, torn := h.HandleShutdownAsWritten(BothActive, {}, {}, 3);
    assert outcome == ConcurrentModification;
    assert !h.poolShutdown && |h.queue| == 2 && |h.live| == 1;
  }

  /** The snapshot loop tears both contexts down, shuts the pool and waits at most ten seconds. */
  method ShutdownWithTwo(h: SocketHandler)
    requires h.Valid() && h.filters == [IsActive] && h.live == {} && h.queue == [] && !h.poolShutdown
    modifies h
  {
    TrackTwo(h);
    var waited, order := h.HandleShutdown(BothActive, {}, {}, 30);
    assert waited == 10;
    assert h.live == {} && h.queue == [] && h.poolShutdown;
  }
}
