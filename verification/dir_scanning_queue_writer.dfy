/**
 * The producer side of the file queue: runs a directory scan whose visitor
 * adds every visited file to the queue registered under a key, then closes
 * the queue. A scan failure drops whatever is queued, closes the queue and is
 * rethrown, so the readers stop.
 */
module DirScanningQueueWriter {
  import opened Wrappers
  import opened JavaText
  import opened FileVisitor
  import opened FileEntryQueue
  import opened QueueReadingDirScanner

  /**
   * What the directory scanner does on the node: the (file, relative path)
   * pairs it visits, in order, then the IOException it throws, if any. The
   * scanner itself (a glob over the file system) is outside this model.
   */
  datatype DirScan = DirScan(visits: seq<(string, string)>, failure: Option<IOException>)

  /**
   * invoke: find or create the queue, add every visited file, then shutdown;
   * or, when the scan throws, shutdownNow and rethrow. Returns the new
   * registry and the exception invoke throws (None when it returns).
   */
  function Invoke(reg: Registry, key: Uuid, scan: DirScan): (r: (Registry, Option<IOException>))
    ensures r.1 == scan.failure
    ensures r.0.Keys == reg.Keys + {key}
    ensures forall k :: k in reg && k != key ==> r.0[k] == reg[k]
    ensures var q := GetOrCreateQueue(reg, key).1;
            && r.0[key].overallCount == ToInt32(q.overallCount + |scan.visits|)
            && (scan.failure.None? ==> r.0[key].entries == q.entries + Reals(scan.visits) + [Pill])
            && (scan.failure.Some? ==> r.0[key].entries == [Pill])
  {
    var (reg1, q) := GetOrCreateQueue(reg, key);
    var filled := AddAll(q, scan.visits);
    var closed := if scan.failure.Some? then ShutdownNow(filled) else Shutdown(filled);
    (Update(reg1, key, closed), scan.failure)
  }

  /** Whichever way the scan ends, the queue ends up holding a pill, so its readers terminate. */
  lemma InvokeLeavesPill(reg: Registry, key: Uuid, scan: DirScan)
    ensures Pill in Invoke(reg, key, scan).0[key].entries
  {
    var e := Invoke(reg, key, scan).0[key].entries;
    assert e[|e| - 1] == Pill;
  }

  /**
   * A successful write into a new queue, read back by a visitor that never
   * fails, hands the visitor exactly the scanned pairs in scan order; the
   * pill stays for the next reader.
   */
  lemma WriteThenRead(reg: Registry, key: Uuid, visits: seq<(string, string)>, visit: Visitor)
    requires key !in reg
    requires forall j :: 0 <= j < |visits| ==> visit(visits[j].0, visits[j].1).None?
    ensures var written := Invoke(reg, key, DirScan(visits, None)).0;
            var r := Scan(written, key, visit);
            r.1 == visits && r.2 == Finished && r.0[key].entries == [Pill]
  {
    var written := Invoke(reg, key, DirScan(visits, None)).0;
    var es := written[key].entries;
    assert es == Reals(visits) + [Pill] by {
      assert GetOrCreateQueue(reg, key).1.entries == [];
    }
    var r := Scan(written, key, visit);
    assert GetOrCreateQueue(written, key).1 == written[key];
    ReadBack(visits, visit, r.0[key].entries, r.1, r.2);
  }

  /** A drain of what a successful scan wrote visits exactly the scanned pairs and finishes at the pill. */
  lemma ReadBack(visits: seq<(string, string)>, visit: Visitor, left: seq<Entry>, vs: seq<(string, string)>, o: ScanOutcome)
    requires forall j :: 0 <= j < |visits| ==> visit(visits[j].0, visits[j].1).None?
    requires DrainsAs(Reals(visits) + [Pill], visit, left, vs, o)
    ensures vs == visits && o == Finished && left == [Pill]
  {
    var es := Reals(visits) + [Pill];
    BeforePillOfReals(visits);
    var ps := Pairs(BeforePill(es));
    RealsInjective(ps, visits);
    assert FirstFailure(ps, visit) == None;
    assert Pill in es && es[|ps| + 1..] == [];
  }

  /**
   * A failing scan closes the queue even when files were queued before it:
   * the next take ends the stream and the exception is the scan's own.
   */
  lemma FailedScanClosesQueue(reg: Registry, key: Uuid, scan: DirScan)
    requires scan.failure.Some?
    ensures var r := Invoke(reg, key, scan);
            r.1 == scan.failure && Take(r.0[key]).1 == EndOfStream
  {
  }
}
