/**
 * The socket handler: it builds its filter chain from the settings when it is
 * created, admits or turns away each new socket context, tracks the admitted
 * ones and hands them to the worker pool, tears a context down, and at
 * shutdown tears every tracked context down and stops the pool.
 *
 * A socket context is an object whose socket may close at any time, so the
 * handler tracks contexts by identity, and each call is given the context as
 * it is at that moment: whether its socket is active and whether it has a
 * temp-file manager.
 *
 * The worker pool is modelled by the list of tasks submitted since it last shut down
 * and a flag saying whether it was shut down; the effects on sockets and temp
 * files are recorded, in order, in a ghost event log.
 */
module SocketHandling {
  import opened Wrappers
  import opened SocketFilters

  /** The seconds handleShutdown waits for the worker pool to terminate. */
  const AwaitTerminationSeconds: nat := 10

  /** A unit of work for the pool: run the request pipeline on the context with identity `id`. */
  datatype Task = PipelineTask(id: nat)

  /** The state of a context's resources at one moment: an active socket, a temp-file manager. */
  datatype Status = Status(active: bool, hasTempFiles: bool)

  /** The context with identity `id` as it is when `now` describes the state of every context. */
  function At(id: nat, now: nat -> Status): Ctx
  {
    Ctx(id, now(id).active, now(id).hasTempFiles)
  }

  /**
   * An effect of the handler on something outside it: a socket closed, temp
   * files cleared (either step may throw, and the exception is caught), the
   * worker pool shut down. The filters have no effects and are not logged.
   */
  datatype Event =
    | SocketClosed(ctx: Ctx, threw: bool)
    | TempFilesCleared(ctx: Ctx, threw: bool)
    | PoolShutdownNow

  /** How acceptSocket ended: turned away by the filter at index `filterIndex`, submitted, or refused by a pool already shut down. */
  datatype Admission = Rejected(filterIndex: nat) | Submitted | ExecutionRejected

  /** How handleShutdown ended: after waiting `waited` seconds for the pool, or by a ConcurrentModificationException. */
  datatype ShutdownOutcome = Completed(waited: nat) | ConcurrentModification

  function Min(a: nat, b: nat): nat
  {
    if a <= b then a else b
  }

  /**
   * What breakSocketConnection does to the resources of `c`: close its
   * socket when it is active, then clear its temp files when it has a
   * manager; an exception from either step is caught.
   */
  function TeardownEvents(c: Ctx, closeThrows: bool, clearThrows: bool): seq<Event>
  {
    (if c.active then [SocketClosed(c, closeThrows)] else []) +
    (if c.hasTempFiles then [TempFilesCleared(c, clearThrows)] else [])
  }

  /**
   * The teardowns of the contexts whose identities are listed in `order`, one
   * after the other, each as it is at that moment; closing throws for the
   * identities in `closeThrows`, clearing for those in `clearThrows`.
   */
  function ShutdownEvents(order: seq<nat>, now: nat -> Status, closeThrows: set<nat>, clearThrows: set<nat>): seq<Event>
  {
    if order == [] then []
    else
      var id := order[|order| - 1];
      ShutdownEvents(order[..|order| - 1], now, closeThrows, clearThrows) + TeardownEvents(At(id, now), id in closeThrows, id in clearThrows)
  }

  lemma ShutdownEventsSnoc(order: seq<nat>, id: nat, now: nat -> Status, closeThrows: set<nat>, clearThrows: set<nat>)
    ensures ShutdownEvents(order + [id], now, closeThrows, clearThrows) ==
      ShutdownEvents(order, now, closeThrows, clearThrows) + TeardownEvents(At(id, now), id in closeThrows, id in clearThrows)
  {
    assert (order + [id])[..|order|] == order;
  }

  /**
   * Teardown closes the socket exactly when the context is active and
   * clears the temp files exactly when it has a manager, whether or not the
   * close threw; it touches nothing else, and the close comes first.
   */
  lemma TeardownEventsSpec(c: Ctx, closeThrows: bool, clearThrows: bool)
    ensures SocketClosed(c, closeThrows) in TeardownEvents(c, closeThrows, clearThrows) <==> c.active
    ensures TempFilesCleared(c, clearThrows) in TeardownEvents(c, closeThrows, clearThrows) <==> c.hasTempFiles
    ensures forall e :: e in TeardownEvents(c, closeThrows, clearThrows) ==>
      e == SocketClosed(c, closeThrows) || e == TempFilesCleared(c, clearThrows)
    ensures c.active && c.hasTempFiles ==>
      TeardownEvents(c, closeThrows, clearThrows) == [SocketClosed(c, closeThrows), TempFilesCleared(c, clearThrows)]
  {
  }

  /**
   * Shutting down the listed contexts closes the socket of exactly those
   * active at that moment and clears the temp files of exactly those with a
   * manager.
   */
  lemma ShutdownEventsSpec(order: seq<nat>, now: nat -> Status, closeThrows: set<nat>, clearThrows: set<nat>, id: nat)
    ensures SocketClosed(At(id, now), id in closeThrows) in ShutdownEvents(order, now, closeThrows, clearThrows)
      <==> id in order && now(id).active
    ensures TempFilesCleared(At(id, now), id in clearThrows) in ShutdownEvents(order, now, closeThrows, clearThrows)
      <==> id in order && now(id).hasTempFiles
  {
    ShutdownClosesActive(order, now, closeThrows, clearThrows, id);
    ShutdownClearsTempFiles(order, now, closeThrows, clearThrows, id);
  }

  lemma {:induction false} ShutdownClosesActive(order: seq<nat>, now: nat -> Status, closeThrows: set<nat>, clearThrows: set<nat>, id: nat)
    ensures SocketClosed(At(id, now), id in closeThrows) in ShutdownEvents(order, now, closeThrows, clearThrows)
      <==> id in order && now(id).active
  {
    if order != [] {
      var prefix := order[..|order| - 1];
      var d := order[|order| - 1];
      ShutdownClosesActive(prefix, now, closeThrows, clearThrows, id);
      TeardownEventsSpec(At(d, now), d in closeThrows, d in clearThrows);
      assert order == prefix + [d];
    }
  }

  lemma {:induction false} ShutdownClearsTempFiles(order: seq<nat>, now: nat -> Status, closeThrows: set<nat>, clearThrows: set<nat>, id: nat)
    ensures TempFilesCleared(At(id, now), id in clearThrows) in ShutdownEvents(order, now, closeThrows, clearThrows)
      <==> id in order && now(id).hasTempFiles
  {
    if order != [] {
      var prefix := order[..|order| - 1];
      var d := order[|order| - 1];
      ShutdownClearsTempFiles(prefix, now, closeThrows, clearThrows, id);
      TeardownEventsSpec(At(d, now), d in closeThrows, d in clearThrows);
      assert order == prefix + [d];
    }
  }

  /**
   * The setIfNotExists loop over the static filter map: every setting the
   * loaded file lacks gets the default its key encodes.
   */
  method WriteDefaults(stored: Config) returns (config: Config)
    ensures config == ApplyDefaults(Catalog, stored)
  {
    assert NonEmptyKeys(Catalog) by { CatalogKeys(); }
    config := stored;
    for i := 0 to |Catalog|
      invariant config == ApplyDefaults(Catalog[..i], stored)
    {
      var key := Catalog[i].key;
      ApplyDefaultsStep(Catalog, stored, i);
      config := SetIfNotExists(config, key[1..], key[0] == '1');
    }
    assert Catalog[..|Catalog|] == Catalog;
  }

  /**
   * The stream over the static filter map: each filter whose setting reads
   * back as true is added; a missing or non-boolean setting throws, which
   * ends the stream with the filters added so far.
   */
  method ReadFilters(config: Config) returns (chain: seq<Filter>)
    ensures chain == BuildChain(Catalog, config).filters
  {
    assert NonEmptyKeys(Catalog) by { CatalogKeys(); }
    chain := [];
    var i := 0;
    while i < |Catalog|
      invariant 0 <= i <= |Catalog|
      invariant BuildChain(Catalog[..i], config) == ChainBuild(chain, true)
    {
      var name := Catalog[i].key[1..];
      BuildChainStep(Catalog, config, i, chain);
      if name !in config || config[name].OtherValue? {
        BuildChainStops(Catalog, config, i + 1);
        return;
      }
      if config[name].b {
        chain := chain + [Catalog[i].filter];
      }
      i := i + 1;
    }
    assert Catalog[..|Catalog|] == Catalog;
  }

  class SocketHandler {
    /** The filter chain, in the order acceptSocket consults it. */
    var filters: seq<Filter>
    /** The identities of the tracked socket contexts. */
    var live: set<nat>
    /** The pipeline tasks submitted to the worker pool since it was created or last shut down. */
    var queue: seq<Task>
    /** Whether shutdownNow was called on the worker pool. */
    var poolShutdown: bool
    /** The observable effects so far, in order. */
    ghost var events: seq<Event>
    /** The settings file as it was last saved. */
    ghost var savedConfig: Config

    /** A pool that was shut down holds no task: shutdownNow drops them and later submits are refused. */
    ghost predicate Valid()
      reads this`queue, this`poolShutdown
    {
      poolShutdown ==> queue == []
    }

    /**
     * Loads the settings file `stored`, writes the default of every catalog
     * setting it lacks, saves it, and adds the filters whose setting is true.
     * A failure to load or save leaves the chain empty; a setting that does
     * not read back as a boolean ends the build with the filters added so far.
     */
    constructor (stored: Config, loadThrows: bool, saveThrows: bool)
      ensures Valid()
      ensures live == {} && queue == [] && !poolShutdown && events == []
      ensures loadThrows || saveThrows ==> filters == [] && savedConfig == stored
      ensures !loadThrows && !saveThrows ==>
        && savedConfig == ApplyDefaults(Catalog, stored)
        && filters == BuildChain(Catalog, savedConfig).filters
    {
      var chain: seq<Filter> := [];
      var saved := stored;
      if !loadThrows {
        var config := WriteDefaults(stored);
        if !saveThrows {
          saved := config;
          chain := ReadFilters(config);
        }
      }
      filters := chain;
      live := {};
      queue := [];
      poolShutdown := false;
      events := [];
      savedConfig := saved;
    }

    /**
     * Consults the filters in order on `s` as it is now; the first one that
     * turns `s` away ends the call with a teardown of `s`. A context every
     * filter admits is tracked and its pipeline task handed to the pool,
     * which refuses it once shut down.
     */
    method AcceptSocket(s: Ctx, closeThrows: bool, clearThrows: bool) returns (r: Admission)
      requires Valid()
      modifies this
      ensures Valid()
      ensures filters == old(filters) && poolShutdown == old(poolShutdown) && savedConfig == old(savedConfig)
      ensures r.Rejected? <==> !Admitted(filters, s)
      ensures r.Rejected? ==>
        && FirstReject(filters, s) == Some(r.filterIndex)
        && live == old(live) - {s.id}
        && queue == old(queue)
        && events == old(events) + TeardownEvents(s, closeThrows, clearThrows)
      ensures !r.Rejected? ==>
        && live == old(live) + {s.id}
        && r == (if poolShutdown then ExecutionRejected else Submitted)
        && queue == (if poolShutdown then old(queue) else old(queue) + [PipelineTask(s.id)])
        && events == old(events)
    {
      // The loop stops at the first filter that turns `s` away.
      var i := 0;
      while i < |filters| && Admits(filters[i], s)
        invariant 0 <= i <= |filters|
        invariant forall j :: 0 <= j < i ==> Admits(filters[j], s)
        modifies {}
      {
        i := i + 1;
      }
      AdmittedEach(filters, s);
      if i < |filters| {
        FirstRejectAt(filters, s, i);
        BreakSocketConnection(s, closeThrows, clearThrows);
        return Rejected(i);
      }
      live := live + {s.id};
      if poolShutdown {
        return ExecutionRejected;
      }
      queue := queue + [PipelineTask(s.id)];
      r := Submitted;
    }

    /**
     * Releases the resources of `s`, as they are now, and stops tracking it,
     * whatever its state was when it was admitted.
     */
    method BreakSocketConnection(s: Ctx, closeThrows: bool, clearThrows: bool)
      requires Valid()
      modifies this
      ensures Valid()
      ensures live == old(live) - {s.id}
      ensures filters == old(filters) && queue == old(queue) && poolShutdown == old(poolShutdown)
      ensures savedConfig == old(savedConfig)
      ensures events == old(events) + TeardownEvents(s, closeThrows, clearThrows)
    {
      if s.active {
        events := events + [SocketClosed(s, closeThrows)];
      }
      if s.hasTempFiles {
        events := events + [TempFilesCleared(s, clearThrows)];
      }
      live := live - {s.id};
    }

    /**
     * Tears down every tracked context, as `now` describes it, iterating over
     * a snapshot of the tracked set so that the teardown may remove from the
     * set itself.
     */
    method BreakAll(now: nat -> Status, closeThrows: set<nat>, clearThrows: set<nat>) returns (ghost order: seq<nat>)
      requires Valid()
      modifies this
      ensures Valid()
      ensures live == {}
      ensures filters == old(filters) && queue == old(queue) && poolShutdown == old(poolShutdown)
      ensures savedConfig == old(savedConfig)
      ensures multiset(order) == multiset(old(live))
      ensures events == old(events) + ShutdownEvents(order, now, closeThrows, clearThrows)
    {
      var pending := live;
      order := [];
      while pending != {}
        invariant live == pending
        invariant filters == old(filters) && queue == old(queue) && poolShutdown == old(poolShutdown)
        invariant savedConfig == old(savedConfig)
        invariant Valid()
        invariant multiset(order) + multiset(pending) == multiset(old(live))
        invariant events == old(events) + ShutdownEvents(order, now, closeThrows, clearThrows)
        decreases |pending|
      {
        var id :| id in pending;
        ghost var done := ShutdownEvents(order, now, closeThrows, clearThrows);
        ghost var step := TeardownEvents(At(id, now), id in closeThrows, id in clearThrows);
        BreakSocketConnection(At(id, now), id in closeThrows, id in clearThrows);
        assert events == (old(events) + done) + step;
        assert events == old(events) + (done + step);
        pending := pending - {id};
        ShutdownEventsSnoc(order, id, now, closeThrows, clearThrows);
        order := order + [id];
      }
    }

    /**
     * Tears down every tracked context, then shuts the pool down, dropping
     * queued pipeline tasks, and waits at most ten seconds for the
     * workers, which need `drainSeconds` to finish.
     */
    method HandleShutdown(now: nat -> Status, closeThrows: set<nat>, clearThrows: set<nat>, drainSeconds: nat)
      returns (waited: nat, ghost order: seq<nat>)
      requires Valid()
      modifies this
      ensures Valid()
      ensures live == {} && queue == [] && poolShutdown
      ensures filters == old(filters) && savedConfig == old(savedConfig)
      ensures multiset(order) == multiset(old(live))
      ensures events == old(events) + ShutdownEvents(order, now, closeThrows, clearThrows) + [PoolShutdownNow]
      ensures waited == Min(drainSeconds, AwaitTerminationSeconds)
    {
      order := BreakAll(now, closeThrows, clearThrows);
      events := events + [PoolShutdownNow];
      queue := [];
      poolShutdown := true;
      waited := Min(drainSeconds, AwaitTerminationSeconds);
    }

    /**
     * handleShutdown as written: the teardown runs inside forEach over the
     * tracked set it removes from, so with two or more tracked contexts the
     * iterator throws after the first teardown and the pool is never shut
     * down.
     */
    method HandleShutdownAsWritten(now: nat -> Status, closeThrows: set<nat>, clearThrows: set<nat>, drainSeconds: nat)
      returns (r: ShutdownOutcome, ghost torn: Option<nat>)
      requires Valid()
      modifies this
      ensures Valid()
      ensures filters == old(filters) && savedConfig == old(savedConfig)
      ensures torn.None? <==> old(live) == {}
      ensures torn.Some? ==> torn.value in old(live)
      ensures torn.None? ==> events == old(events) + [PoolShutdownNow]
      ensures torn.Some? ==>
        var id := torn.value;
        events == old(events) + TeardownEvents(At(id, now), id in closeThrows, id in clearThrows)
          + (if r.Completed? then [PoolShutdownNow] else [])
      ensures |old(live)| <= 1 ==>
        && r == Completed(Min(drainSeconds, AwaitTerminationSeconds))
        && live == {} && queue == [] && poolShutdown
      ensures |old(live)| >= 2 ==>
        && r == ConcurrentModification
        && torn.Some? && torn.value in old(live) && live == old(live) - {torn.value} && live != {}
        && queue == old(queue) && poolShutdown == old(poolShutdown)
    {
      torn := None;
      if live != {} {
        var first :| first in live;
        var others := live - {first};
        torn := Some(first);
        BreakSocketConnection(At(first, now), first in closeThrows, first in clearThrows);
        if others != {} {
          assert |old(live)| >= 2 by {
            var second :| second in others;
            assert |others| == |old(live)| - 1;
          }
          return ConcurrentModification, torn;
        }
        assert old(live) == {first};
      }
      events := events + [PoolShutdownNow];
      queue := [];
      poolShutdown := true;
      r := Completed(Min(drainSeconds, AwaitTerminationSeconds));
    }
  }
}
