/**
 * The consumer side of the file queue: a directory "scan" that takes entries
 * from the queue registered under a key and hands each to a visitor until the
 * pill ends the stream. A visitor failure shuts the queue down at once, so no
 * other reader of the same queue goes on, and is rethrown.
 */
module QueueReadingDirScanner {
  import opened Wrappers
  import opened FileVisitor
  import opened FileEntryQueue

  /** How a drain ends: the pill was met, the visitor threw, or the queue ran empty without a pill. */
  datatype ScanOutcome = Finished | Failed(error: IOException) | Blocked

  /** The position of the first pair whose visit throws, if any. */
  function FirstFailure(vs: seq<(string, string)>, visit: Visitor): (r: Option<nat>)
    ensures r.Some? ==> r.value < |vs| && visit(vs[r.value].0, vs[r.value].1).Some?
    ensures r.Some? ==> forall j :: 0 <= j < r.value ==> visit(vs[j].0, vs[j].1).None?
    ensures r.None? <==> forall j :: 0 <= j < |vs| ==> visit(vs[j].0, vs[j].1).None?
  {
    if vs == [] then None
    else if visit(vs[0].0, vs[0].1).Some? then Some(0)
    else
      match FirstFailure(vs[1..], visit)
      case None => None
      case Some(i) => Some(i + 1)
  }

  /**
   * What a drain of the given entries does, stated without running it: the
   * real entries ahead of the first pill are visited in order up to and
   * including the first that fails.
   */
  predicate DrainsAs(es: seq<Entry>, visit: Visitor, left: seq<Entry>, visited: seq<(string, string)>, o: ScanOutcome)
  {
    var ps := Pairs(BeforePill(es));
    match FirstFailure(ps, visit)
    case Some(i) =>
      visited == ps[..i + 1] && o == Failed(visit(ps[i].0, ps[i].1).value) && left == [Pill]
    case None =>
      visited == ps
      && (if Pill in es then o == Finished && left == es[|ps| + 1..] + [Pill]
          else o == Blocked && left == [])
  }

  /**
   * The loop of scan: take, visit, repeat. The pill ends it; a failing visit
   * shuts the queue down (shutdownNow) and ends it with that exception; an
   * empty queue is where the source would wait.
   */
  function Drain(q: Queue, visit: Visitor): (r: (Queue, seq<(string, string)>, ScanOutcome))
    ensures r.0.overallCount == q.overallCount
    ensures DrainsAs(q.entries, visit, r.0.entries, r.1, r.2)
    decreases |q.entries|
  {
    var (q1, t) := Take(q);
    match t
    case WouldBlock => (q1, [], Blocked)
    case EndOfStream =>
      assert BeforePill(q.entries) == [];
      (q1, [], Finished)
    case Took(e) =>
      var pair := (e.file, e.path);
      DrainStep(q.entries, e);
      match visit(e.file, e.path)
      case Some(err) =>
        (ShutdownNow(q1), [pair], Failed(err))
      case None =>
        var (q2, vs, o) := Drain(q1, visit);
        DrainCons(q.entries, visit, q2.entries, vs, o);
        (q2, [pair] + vs, o)
  }

  /** The pairs ahead of the pill in a queue with a real head: that head, then those of the rest. */
  lemma DrainStep(es: seq<Entry>, e: Entry)
    requires es != [] && es[0] == e && e.Real?
    ensures Pairs(BeforePill(es)) == [(e.file, e.path)] + Pairs(BeforePill(es[1..]))
  {
    assert BeforePill(es) == [e] + BeforePill(es[1..]);
  }

  /** A successful visit of the real head, followed by a drain of the rest, drains the whole queue. */
  lemma DrainCons(es: seq<Entry>, visit: Visitor, left: seq<Entry>, vs: seq<(string, string)>, o: ScanOutcome)
    requires es != [] && es[0].Real? && visit(es[0].file, es[0].path).None?
    requires DrainsAs(es[1..], visit, left, vs, o)
    ensures DrainsAs(es, visit, left, [(es[0].file, es[0].path)] + vs, o)
  {
    var pair := (es[0].file, es[0].path);
    DrainStep(es, es[0]);
    var ps := Pairs(BeforePill(es));
    var ps1 := Pairs(BeforePill(es[1..]));
    assert ps[1..] == ps1;
    match FirstFailure(ps1, visit)
    case Some(i) =>
      assert FirstFailure(ps, visit) == Some(i + 1);
      assert ps[..i + 2] == [pair] + ps1[..i + 1];
    case None =>
      assert FirstFailure(ps, visit) == None;
      if Pill in es[1..] {
        assert es[|ps| + 1..] == es[1..][|ps1| + 1..];
      }
  }

  /**
   * scan: drain the queue registered under the key (registering a fresh one
   * when absent). The returned pairs are those passed to the visitor.
   */
  function Scan(reg: Registry, key: Uuid, visit: Visitor): (r: (Registry, seq<(string, string)>, ScanOutcome))
    ensures var q := GetOrCreateQueue(reg, key).1;
            && r.0.Keys == reg.Keys + {key}
            && (forall k :: k in reg && k != key ==> r.0[k] == reg[k])
            && r.0[key].overallCount == q.overallCount
            && DrainsAs(q.entries, visit, r.0[key].entries, r.1, r.2)
  {
    var (reg1, q) := GetOrCreateQueue(reg, key);
    var (q1, vs, o) := Drain(q, visit);
    (Update(reg1, key, q1), vs, o)
  }

  /**
   * A queue that holds a pill always ends a scan, and leaves a pill behind
   * for the next reader; a failing visit leaves nothing else.
   */
  lemma ScanTerminates(reg: Registry, key: Uuid, visit: Visitor)
    requires Pill in GetOrCreateQueue(reg, key).1.entries
    ensures var r := Scan(reg, key, visit);
            && r.2 != Blocked
            && Pill in r.0[key].entries
            && (r.2.Failed? ==> r.0[key].entries == [Pill])
  {
  }

  /**
   * On normal exit exactly the files ahead of the first pill were visited, in
   * queue order, each once, and every visit returned normally.
   */
  lemma ScanVisitsInOrder(reg: Registry, key: Uuid, visit: Visitor)
    ensures var q := GetOrCreateQueue(reg, key).1;
            var r := Scan(reg, key, visit);
            r.2 == Finished ==>
              && Reals(r.1) == BeforePill(q.entries)
              && forall j :: 0 <= j < |r.1| ==> visit(r.1[j].0, r.1[j].1).None?
  {
  }

  /** After a visitor failure no later entry is visited: the failing pair is the last one visited. */
  lemma ScanStopsAtFailure(reg: Registry, key: Uuid, visit: Visitor)
    ensures var r := Scan(reg, key, visit);
            r.2.Failed? ==>
              && |r.1| > 0
              && visit(r.1[|r.1| - 1].0, r.1[|r.1| - 1].1) == Some(r.2.error)
              && (forall j :: 0 <= j < |r.1| - 1 ==> visit(r.1[j].0, r.1[j].1).None?)
              && r.0[key].entries == [Pill]
  {
  }
}
