/**
 * The final step of a copy: unregister the queue under a key and shut it
 * down at once, so every worker still holding it meets the pill.
 */
module QueueShutdownAndRemover {
  import opened Wrappers
  import opened FileVisitor
  import opened FileEntryQueue
  import opened QueueReadingDirScanner

  /**
   * invoke: remove the key from the registry and, when a queue was
   * registered under it, shutdownNow that queue. Returns the new registry and
   * the removed queue as its holders now see it.
   */
  function Invoke(reg: Registry, key: Uuid): (r: (Registry, Option<Queue>))
    ensures key !in r.0 && r.0.Keys == reg.Keys - {key}
    ensures forall k :: k in r.0 ==> r.0[k] == reg[k]
    ensures r.1.Some? <==> key in reg
    ensures r.1.Some? ==> r.1.value.entries == [Pill] && r.1.value.overallCount == reg[key].overallCount
    ensures key !in reg ==> r.0 == reg
  {
    var (reg1, removed) := Remove(reg, key);
    match removed
    case None => (reg1, None)
    case Some(q) => (reg1, Some(ShutdownNow(q)))
  }

  /** A second invoke with the same key changes nothing and finds no queue. */
  lemma InvokeIdempotent(reg: Registry, key: Uuid)
    ensures var reg1 := Invoke(reg, key).0;
            Invoke(reg1, key) == (reg1, None)
  {
  }

  /** A worker still draining the removed queue visits nothing and finishes. */
  lemma HoldersFinish(reg: Registry, key: Uuid, visit: Visitor)
    requires key in reg
    ensures Drain(Invoke(reg, key).1.value, visit).2 == Finished
    ensures Drain(Invoke(reg, key).1.value, visit).1 == []
  {
    var q := Invoke(reg, key).1.value;
    assert BeforePill(q.entries) == [];
  }
}
