/**
 * The local twin of the file queue: a service that collects (file, path)
 * pairs from a directory scan and lets worker loops hand them to a delegate
 * visitor. It refuses new work once shut down, and close records the first
 * error any worker reports.
 *
 * Workers are not threads here. A worker's loop is the same drain as the
 * queue readers' (take, visit, stop at the pill, shutdownNow on failure); the
 * schedule in which all workers run one after another once close has shut the
 * service down is modelled explicitly, as one of the schedules the source
 * allows.
 */
module FileVisitorService {
  import opened Wrappers
  import opened FileVisitor
  import opened FileEntryQueue
  import opened QueueReadingDirScanner

  /** A java.lang.IllegalStateException, identified by its message. */
  datatype IllegalStateException = IllegalStateException(message: string)

  const ShuttingDown: string := "Queue is shutting down"

  /**
   * The pending work (a VisitEntry has the shape of a queue entry, the pill
   * included), whether the service is shutting down, and the error recorded
   * by close.
   */
  datatype Service = Service(pending: seq<Entry>, shutdown: bool, exception: Option<IOException>)

  /** A service just constructed: nothing pending, accepting work, no error. */
  const Created: Service := Service([], false, None)

  /** add: queue one pair, or refuse with IllegalStateException once shutting down. */
  function Add(s: Service, file: string, path: string): (r: Result<(Service, Entry), IllegalStateException>)
    ensures r.Failure? <==> s.shutdown
    ensures r.Failure? ==> r.error == IllegalStateException(ShuttingDown)
    ensures r.Success? ==> r.value.1 == Real(file, path)
    ensures r.Success? ==> r.value.0.pending == s.pending + [Real(file, path)]
    ensures r.Success? ==> !r.value.0.shutdown && r.value.0.exception == s.exception
  {
    if s.shutdown then Failure(IllegalStateException(ShuttingDown))
    else
      var e := Real(file, path);
      Success((Service(s.pending + [e], false, s.exception), e))
  }

  /** shutdown: refuse new work and queue the pill behind the pending work. */
  function Shutdown(s: Service): (r: Service)
    ensures r.shutdown && r.exception == s.exception
    ensures |r.pending| == |s.pending| + 1 && r.pending[..|s.pending|] == s.pending
    ensures r.pending[|s.pending|] == Pill
  {
    Service(s.pending + [Pill], true, s.exception)
  }

  /** shutdownNow: drop the pending work, then shutdown. */
  function ShutdownNow(s: Service): (r: Service)
    ensures r.shutdown && r.pending == [Pill] && r.exception == s.exception
  {
    Shutdown(s.(pending := []))
  }

  /**
   * Worker.call: drain the pending work into the delegate visitor. It stops at
   * the pill (left queued for the other workers) and returns normally, or
   * stops at the first failing visit, having shut the service down at once.
   */
  function WorkerCall(s: Service, visit: Visitor): (r: (Service, seq<(string, string)>, ScanOutcome))
    ensures DrainsAs(s.pending, visit, r.0.pending, r.1, r.2)
    ensures r.0.shutdown == (s.shutdown || r.2.Failed?)
    ensures r.0.exception == s.exception
  {
    var (q, vs, o) := Drain(Queue(s.pending, 0), visit);
    (Service(q.entries, s.shutdown || o.Failed?, s.exception), vs, o)
  }

  /** What Future.get yields for a worker: the worker's return value, or the exception get throws. */
  datatype WorkerResult = Returned(error: Option<IOException>) | GetFailed(cause: string)

  /** The error a worker result contributes: the returned one, or the get failure wrapped in an IOException. */
  function ResultError(w: WorkerResult): Option<IOException>
  {
    match w
    case Returned(e) => e
    case GetFailed(cause) => Some(IOException(cause))
  }

  /** The value a worker returns for how its drain ended: the visitor's exception, or null. */
  function WorkerReturn(o: ScanOutcome): Option<IOException>
  {
    if o.Failed? then Some(o.error) else None
  }

  /**
   * The loop of close over the worker results, in iteration order: an error
   * already recorded is kept, otherwise the first non-null one is recorded.
   */
  function Collect(recorded: Option<IOException>, results: seq<WorkerResult>): (r: Option<IOException>)
    ensures recorded.Some? ==> r == recorded
    decreases |results|
  {
    if results == [] then recorded
    else Collect(if recorded.None? then ResultError(results[0]) else recorded, results[1..])
  }

  /**
   * With nothing recorded before, close records exactly the first error
   * among the results in order, and nothing when every worker returned null.
   */
  lemma {:induction false} CollectFirstError(results: seq<WorkerResult>)
    ensures var r := Collect(None, results);
            && (r.None? <==> forall i :: 0 <= i < |results| ==> ResultError(results[i]).None?)
            && (r.Some? ==> exists i :: 0 <= i < |results| && ResultError(results[i]) == r
                                        && forall j :: 0 <= j < i ==> ResultError(results[j]).None?)
  {
    if results != [] {
      var r := Collect(None, results);
      var tail := results[1..];
      if ResultError(results[0]).Some? {
        assert r == ResultError(results[0]);
      } else {
        CollectFirstError(tail);
        assert r == Collect(None, tail);
        forall i | 0 < i < |results| ensures results[i] == tail[i - 1] {
        }
        if r.Some? {
          var i :| 0 <= i < |tail| && ResultError(tail[i]) == r
                   && forall j :: 0 <= j < i ==> ResultError(tail[j]).None?;
          assert ResultError(results[i + 1]) == r;
        }
      }
    }
  }

  /** close: shutdown, then record the first error among the worker results. */
  function Close(s: Service, results: seq<WorkerResult>): (r: Service)
    ensures r.shutdown && r.pending == s.pending + [Pill]
    ensures s.exception.Some? ==> r.exception == s.exception
    ensures s.exception.None? ==> r.exception == Collect(None, results)
  {
    var s1 := Shutdown(s);
    s1.(exception := Collect(s1.exception, results))
  }

  /** throwCatchedException: throws the recorded error, if there is one. */
  function ThrowCatchedException(s: Service): (r: Result<(), IOException>)
    ensures r.Failure? <==> s.exception.Some?
    ensures r.Failure? ==> r.error == s.exception.value
  {
    match s.exception
    case Some(e) => Failure(e)
    case None => Success(())
  }

  // ---------------------------------------------------------------------------
  // Workers run one after another after close's shutdown
  // ---------------------------------------------------------------------------

  /** n workers run in turn, each on the service the previous one left, with what each get yields. */
  function RunWorkers(s: Service, n: nat, visit: Visitor): (r: (Service, seq<WorkerResult>))
    ensures |r.1| == n && r.0.exception == s.exception
    decreases n
  {
    if n == 0 then (s, [])
    else
      var (s1, _, o) := WorkerCall(s, visit);
      var (s2, rs) := RunWorkers(s1, n - 1, visit);
      (s2, [Returned(WorkerReturn(o))] + rs)
  }

  /**
   * close in the schedule where the n workers run only once close has shut
   * the service down: the service they leave, with the first error recorded.
   */
  function ScheduledClose(s: Service, n: nat, visit: Visitor): (r: Service)
    ensures r.shutdown
    ensures r.exception == Close(s, RunWorkers(Shutdown(s), n, visit).1).exception
  {
    var (s2, rs) := RunWorkers(Shutdown(s), n, visit);
    s2.(shutdown := true, exception := Collect(s2.exception, rs))
  }

  /** Workers that meet only the pill return normally and leave it queued. */
  lemma {:induction false} IdleWorkers(s: Service, n: nat, visit: Visitor)
    requires s.pending == [Pill]
    ensures RunWorkers(s, n, visit).0.pending == [Pill]
    ensures forall i :: 0 <= i < n ==> RunWorkers(s, n, visit).1[i] == Returned(None)
  {
    if n > 0 {
      var (s1, vs, o) := WorkerCall(s, visit);
      assert BeforePill(s.pending) == [];
      assert o == Finished && s1.pending == [Pill];
      IdleWorkers(s1, n - 1, visit);
      var rs := RunWorkers(s, n, visit).1;
      forall i | 0 <= i < n ensures rs[i] == Returned(None) {
        if i > 0 {
          assert rs[i] == RunWorkers(s1, n - 1, visit).1[i - 1];
        }
      }
    }
  }

  /**
   * With no work added, closing records no error, throwCatchedException
   * throws nothing and a later add is refused.
   */
  lemma NothingAddedNoError(n: nat, visit: Visitor, file: string, path: string)
    ensures var s := ScheduledClose(Created, n, visit);
            && s.exception == None
            && ThrowCatchedException(s).Success?
            && Add(s, file, path) == Failure(IllegalStateException(ShuttingDown))
  {
    var (s2, rs) := RunWorkers(Shutdown(Created), n, visit);
    IdleWorkers(Shutdown(Created), n, visit);
    CollectFirstError(rs);
  }

  /**
   * When the first pending file fails to visit, closing with at least one
   * worker records that failure and leaves only the pill: the files after it
   * are dropped and never visited.
   */
  lemma FirstFailureDropsRest(es: seq<Entry>, n: nat, visit: Visitor)
    requires n >= 1 && es != [] && AllReal(es)
    requires visit(es[0].file, es[0].path).Some?
    ensures var s := ScheduledClose(Service(es, false, None), n, visit);
            && s.exception == visit(es[0].file, es[0].path)
            && s.pending == [Pill]
            && forall e :: e in es ==> e !in s.pending
  {
    var s0 := Shutdown(Service(es, false, None));
    var err := visit(es[0].file, es[0].path);
    var (s1, vs, o) := WorkerCall(s0, visit);
    assert WorkerReturn(o) == err && s1.pending == [Pill] by {
      FirstWorkerFails(s0, es, visit);
    }
    var (s2, rs) := RunWorkers(s1, n - 1, visit);
    assert s2.pending == [Pill] by {
      IdleWorkers(s1, n - 1, visit);
    }
    assert RunWorkers(s0, n, visit) == (s2, [Returned(err)] + rs);
    assert Collect(None, [Returned(err)] + rs) == err;
  }

  /** The first worker on a shut-down service whose first file fails returns that failure and leaves the pill alone. */
  lemma FirstWorkerFails(s0: Service, es: seq<Entry>, visit: Visitor)
    requires es != [] && AllReal(es) && s0.pending == es + [Pill]
    requires visit(es[0].file, es[0].path).Some?
    ensures var (s1, _, o) := WorkerCall(s0, visit);
            && WorkerReturn(o) == visit(es[0].file, es[0].path)
            && s1.pending == [Pill] && s1.exception == s0.exception
  {
    var (s1, vs, o) := WorkerCall(s0, visit);
    var ps := Pairs(BeforePill(s0.pending));
    assert BeforePill(s0.pending) == es by {
      assert Pill !in es;
    }
    assert ps[0] == (es[0].file, es[0].path);
    assert FirstFailure(ps, visit) == Some(0);
  }
}
