/**
 * The file queue that links a directory scan on one node to the copying
 * workers: a FIFO of (file, relative path) entries closed by a durable
 * end-of-stream marker (the "poison pill"), a count of the files ever added,
 * and the node-local registry of queues keyed by UUID.
 *
 * Each operation is a transition on an immutable value. Blocking is not
 * modelled: a take from an empty queue reports WouldBlock instead of waiting.
 */
module FileEntryQueue {
  import opened Wrappers
  import opened JavaText

  /** A queue entry: a real file with its path relative to the scan root, or the pill. */
  datatype Entry = Real(file: string, path: string) | Pill

  /** The entries in FIFO order (head first) and the number of files added since creation. */
  datatype Queue = Queue(entries: seq<Entry>, overallCount: Int32)

  /** A freshly constructed queue. */
  const Fresh: Queue := Queue([], 0)

  /** What one take observes: a real entry, the end of the stream, or an empty queue it would wait on. */
  datatype Taken = Took(entry: Entry) | EndOfStream | WouldBlock

  // ---------------------------------------------------------------------------
  // Operations on one queue
  // ---------------------------------------------------------------------------

  /**
   * Appends one real entry and counts it (AtomicInteger.incrementAndGet, which
   * wraps from the largest int to the smallest); returns the new entry.
   */
  function Add(q: Queue, file: string, path: string): (r: (Queue, Entry))
    ensures r.1 == Real(file, path)
    ensures r.0.entries == q.entries + [r.1]
    ensures (r.0.overallCount - (q.overallCount + 1)) % TwoTo32 == 0
    ensures q.overallCount < Int32Max ==> r.0.overallCount == q.overallCount + 1
  {
    var e := Real(file, path);
    (Queue(q.entries + [e], ToInt32(q.overallCount + 1)), e)
  }

  /**
   * Removes the head. A real head is returned; a pill head is put back at the
   * tail and ends the stream, so every later reader meets it too.
   */
  function Take(q: Queue): (r: (Queue, Taken))
    ensures r.0.overallCount == q.overallCount
    ensures r.1 == WouldBlock <==> q.entries == []
    ensures r.1 == WouldBlock ==> r.0 == q
    ensures r.1.Took? ==> r.1.entry.Real? && q.entries == [r.1.entry] + r.0.entries
    ensures r.1 == EndOfStream <==> q.entries != [] && q.entries[0] == Pill
    ensures r.1 == EndOfStream ==> r.0.entries == q.entries[1..] + [Pill]
  {
    if q.entries == [] then (q, WouldBlock)
    else
      var rest := q.entries[1..];
      assert q.entries == [q.entries[0]] + rest;
      match q.entries[0]
      case Pill => (Queue(rest + [Pill], q.overallCount), EndOfStream)
      case Real(_, _) => (Queue(rest, q.overallCount), Took(q.entries[0]))
  }

  /**
   * Meeting the pill moves it to the tail and loses no entry; a queue that
   * holds a pill keeps holding one whatever is taken.
   */
  lemma TakeKeepsPill(q: Queue)
    ensures var (q1, t) := Take(q);
            && (t == EndOfStream ==> multiset(q1.entries) == multiset(q.entries))
            && (Pill in q.entries ==> Pill in q1.entries)
  {
    if q.entries != [] {
      var rest := q.entries[1..];
      assert q.entries == [q.entries[0]] + rest;
      if q.entries[0] == Pill {
        assert multiset(rest + [Pill]) == multiset([Pill] + rest);
      }
    }
  }

  /** Closes the queue for new work: the pending entries stay ahead of one new pill. */
  function Shutdown(q: Queue): (r: Queue)
    ensures |r.entries| == |q.entries| + 1 && r.entries[..|q.entries|] == q.entries
    ensures r.entries[|q.entries|] == Pill
    ensures r.overallCount == q.overallCount
  {
    Queue(q.entries + [Pill], q.overallCount)
  }

  /** Drops all pending entries and closes the queue: only the pill is left. */
  function ShutdownNow(q: Queue): (r: Queue)
    ensures r.entries == [Pill] && r.overallCount == q.overallCount
  {
    Shutdown(Queue([], q.overallCount))
  }

  /** The entries ahead of the first pill (all of them when there is none): what readers will take. */
  function BeforePill(es: seq<Entry>): (p: seq<Entry>)
    ensures |p| <= |es| && p == es[..|p|] && AllReal(p)
    ensures |p| < |es| ==> es[|p|] == Pill
    ensures |p| == |es| <==> Pill !in es
  {
    if es == [] || es[0] == Pill then []
    else
      var p := [es[0]] + BeforePill(es[1..]);
      assert es == [es[0]] + es[1..];
      p
  }

  /** The entries for visited (file, path) pairs, in visit order. */
  function Reals(vs: seq<(string, string)>): (es: seq<Entry>)
    ensures |es| == |vs| && forall i :: 0 <= i < |vs| ==> es[i] == Real(vs[i].0, vs[i].1)
  {
    seq(|vs|, i requires 0 <= i < |vs| => Real(vs[i].0, vs[i].1))
  }

  /** The entries of a non-empty pair list: the first pair's entry, then those of the rest. */
  lemma RealsCons(vs: seq<(string, string)>)
    requires vs != []
    ensures Reals(vs) == [Real(vs[0].0, vs[0].1)] + Reals(vs[1..])
  {
    var r := [Real(vs[0].0, vs[0].1)] + Reals(vs[1..]);
    forall i | 0 <= i < |vs| ensures Reals(vs)[i] == r[i] {
      if i > 0 {
        assert r[i] == Reals(vs[1..])[i - 1];
      }
    }
  }

  /** The (file, path) pairs of real entries; Reals undoes it. */
  function Pairs(es: seq<Entry>): (vs: seq<(string, string)>)
    requires AllReal(es)
    ensures Reals(vs) == es
  {
    seq(|es|, i requires 0 <= i < |es| => (es[i].file, es[i].path))
  }

  /** The entries ahead of the pill written after some pairs are the entries of those pairs. */
  lemma BeforePillOfReals(vs: seq<(string, string)>)
    ensures BeforePill(Reals(vs) + [Pill]) == Reals(vs)
  {
    var es := Reals(vs) + [Pill];
    assert Pill !in Reals(vs);
  }

  /** Distinct pair lists give distinct entry lists. */
  lemma RealsInjective(a: seq<(string, string)>, b: seq<(string, string)>)
    requires Reals(a) == Reals(b)
    ensures a == b
  {
    assert |a| == |b|;
    forall i | 0 <= i < |a| ensures a[i] == b[i] {
      assert Reals(a)[i] == Reals(b)[i];
    }
  }

  /** Adds the pairs one by one, as a visitor that adds every visited file does. */
  function AddAll(q: Queue, vs: seq<(string, string)>): (r: Queue)
    ensures r.entries == q.entries + Reals(vs)
    ensures r.overallCount == ToInt32(q.overallCount + |vs|)
    decreases |vs|
  {
    if vs == [] then q
    else
      var q1 := Add(q, vs[0].0, vs[0].1).0;
      var r := AddAll(q1, vs[1..]);
      var n := |vs| - 1;
      CountStep(q.overallCount, q1.overallCount, r.overallCount, n);
      assert r.entries == q.entries + Reals(vs) by {
        RealsCons(vs);
        AppendAssoc(q.entries, q1.entries[|q.entries|], Reals(vs[1..]));
      }
      r
  }

  /** Appending one entry and then a run is appending the run with that entry in front. */
  lemma AppendAssoc(es: seq<Entry>, e: Entry, rest: seq<Entry>)
    ensures (es + [e]) + rest == es + ([e] + rest)
  {
  }

  /** Counting one file and then n more narrows like counting n + 1 at once. */
  lemma CountStep(c: Int32, c1: Int32, rc: Int32, n: nat)
    requires c1 == ToInt32(c + 1) && rc == ToInt32(c1 + n)
    ensures rc == ToInt32(c + (n + 1))
  {
    var r := c1;
    var d := (c + 1 - r) / TwoTo32;
    assert c + 1 - r == d * TwoTo32;
    assert (r + n) - (c + 1 + n) == (-d) * TwoTo32;
    ToInt32Congruent(r + n, c + 1 + n);
  }

  // ---------------------------------------------------------------------------
  // Repeated takes
  // ---------------------------------------------------------------------------

  /** n takes in a row: the final queue and what each take observed. */
  function TakeN(q: Queue, n: nat): (r: (Queue, seq<Taken>))
    ensures |r.1| == n && r.0.overallCount == q.overallCount
    decreases n
  {
    if n == 0 then (q, [])
    else
      var (q1, t) := Take(q);
      var (q2, ts) := TakeN(q1, n - 1);
      (q2, [t] + ts)
  }

  predicate AllReal(es: seq<Entry>)
  {
    forall i :: 0 <= i < |es| ==> es[i].Real?
  }

  /** What taking each of the given entries observes. */
  function Tooks(es: seq<Entry>): (ts: seq<Taken>)
    ensures |ts| == |es| && forall i :: 0 <= i < |es| ==> ts[i] == Took(es[i])
  {
    if es == [] then [] else [Took(es[0])] + Tooks(es[1..])
  }

  function EndsOfStream(m: nat): (ts: seq<Taken>)
    ensures |ts| == m && forall i :: 0 <= i < m ==> ts[i] == EndOfStream
  {
    if m == 0 then [] else [EndOfStream] + EndsOfStream(m - 1)
  }

  /** Real entries at the head are taken in FIFO order, leaving the rest of the queue as it was. */
  lemma {:induction false} TakeReals(es: seq<Entry>, rest: seq<Entry>, c: Int32, m: nat)
    requires AllReal(es)
    ensures TakeN(Queue(es + rest, c), |es| + m)
            == (TakeN(Queue(rest, c), m).0, Tooks(es) + TakeN(Queue(rest, c), m).1)
  {
    if es == [] {
      assert Queue(es + rest, c) == Queue(rest, c);
      assert Tooks(es) + TakeN(Queue(rest, c), m).1 == TakeN(Queue(rest, c), m).1;
    } else {
      assert AllReal(es[1..]) by {
        assert forall i :: 0 <= i < |es[1..]| ==> es[1..][i] == es[i + 1];
      }
      TakeReals(es[1..], rest, c, m);
      TakeRealsCons(es, rest, c, |es[1..]| + m, TakeN(Queue(rest, c), m));
    }
  }

  /** One real entry more in front: one Took more in front, the rest as before. */
  lemma TakeRealsCons(es: seq<Entry>, rest: seq<Entry>, c: Int32, n: nat, tail: (Queue, seq<Taken>))
    requires es != [] && es[0].Real?
    requires TakeN(Queue(es[1..] + rest, c), n) == (tail.0, Tooks(es[1..]) + tail.1)
    ensures TakeN(Queue(es + rest, c), n + 1) == (tail.0, Tooks(es) + tail.1)
  {
    AppendHeadTail(es, rest);
    TakeRealHead(Queue(es + rest, c));
    TakeNCons(Queue(es + rest, c), Queue(es[1..] + rest, c), Took(es[0]), n);
    assert Tooks(es) == [Took(es[0])] + Tooks(es[1..]);
    assert [Took(es[0])] + (Tooks(es[1..]) + tail.1) == ([Took(es[0])] + Tooks(es[1..])) + tail.1;
  }

  lemma AppendHeadTail(es: seq<Entry>, rest: seq<Entry>)
    requires es != []
    ensures (es + rest)[0] == es[0] && (es + rest)[1..] == es[1..] + rest
  {
  }

  /** Taking from a queue whose head is a real entry removes and returns that entry. */
  lemma TakeRealHead(q: Queue)
    requires q.entries != [] && q.entries[0].Real?
    ensures Take(q) == (q.(entries := q.entries[1..]), Took(q.entries[0]))
  {
  }


  /** n + 1 takes are one take followed by n more. */
  lemma TakeNCons(q: Queue, q1: Queue, t: Taken, n: nat)
    requires Take(q) == (q1, t)
    ensures TakeN(q, n + 1) == (TakeN(q1, n).0, [t] + TakeN(q1, n).1)
  {
  }

  /** A queue holding only the pill ends the stream on every take and stays as it is. */
  lemma {:induction false} PillForever(c: Int32, m: nat)
    ensures TakeN(Queue([Pill], c), m) == (Queue([Pill], c), EndsOfStream(m))
  {
    if m > 0 {
      assert [Pill][1..] + [Pill] == [Pill];
      assert Take(Queue([Pill], c)) == (Queue([Pill], c), EndOfStream);
      PillForever(c, m - 1);
    }
  }

  /**
   * After shutdown of a queue of k files, the next k takes return them in the
   * order they were added and every later take ends the stream.
   */
  lemma DrainAfterShutdown(q: Queue, m: nat)
    requires AllReal(q.entries)
    ensures TakeN(Shutdown(q), |q.entries| + m) == (Queue([Pill], q.overallCount), Tooks(q.entries) + EndsOfStream(m))
  {
    TakeReals(q.entries, [Pill], q.overallCount, m);
    PillForever(q.overallCount, m);
  }

  /** After shutdownNow every take ends the stream, however many there are. */
  lemma ShutdownNowEndsEveryTake(q: Queue, m: nat)
    ensures TakeN(ShutdownNow(q), m) == (Queue([Pill], q.overallCount), EndsOfStream(m))
  {
    PillForever(q.overallCount, m);
  }

  // ---------------------------------------------------------------------------
  // The node-local registry of queues
  // ---------------------------------------------------------------------------

  /** A java.util.UUID; only equality of keys matters. */
  type Uuid = nat

  type Registry = map<Uuid, Queue>

  /** The queue under the key, created empty and registered when the key is absent (computeIfAbsent). */
  function GetOrCreateQueue(reg: Registry, key: Uuid): (r: (Registry, Queue))
    ensures key in r.0 && r.0[key] == r.1
    ensures key in reg ==> r.0 == reg && r.1 == reg[key]
    ensures key !in reg ==> r.1 == Fresh
    ensures r.0.Keys == reg.Keys + {key}
    ensures forall k :: k in reg && k != key ==> r.0[k] == reg[k]
  {
    if key in reg then (reg, reg[key]) else (reg[key := Fresh], Fresh)
  }

  /** Unregisters the key, returning the queue it mapped to (null when none). */
  function Remove(reg: Registry, key: Uuid): (r: (Registry, Option<Queue>))
    ensures key !in r.0 && r.0.Keys == reg.Keys - {key}
    ensures r.1.Some? <==> key in reg
    ensures r.1.Some? ==> r.1.value == reg[key]
    ensures forall k :: k in r.0 ==> r.0[k] == reg[k]
  {
    if key in reg then (reg - {key}, Some(reg[key])) else (reg, None)
  }

  /** Stores a queue's new state under its key: the registry holds the same object its users change. */
  function Update(reg: Registry, key: Uuid, q: Queue): (r: Registry)
    ensures key in r && r[key] == q && r.Keys == reg.Keys + {key}
    ensures forall k :: k in reg && k != key ==> r[k] == reg[k]
  {
    reg[key := q]
  }

  /** Looking a queue up twice finds the same one and registers nothing more. */
  lemma GetOrCreateQueueIdempotent(reg: Registry, key: Uuid)
    ensures var (reg1, q1) := GetOrCreateQueue(reg, key);
            GetOrCreateQueue(reg1, key) == (reg1, q1)
  {
  }

  /** Removing a key just looked up returns the queue the lookup gave and restores the other keys. */
  lemma RemoveAfterGetOrCreate(reg: Registry, key: Uuid)
    ensures var (reg1, q1) := GetOrCreateQueue(reg, key);
            Remove(reg1, key) == (reg - {key}, Some(q1))
  {
    if key !in reg {
      assert reg[key := Fresh] - {key} == reg - {key};
    }
  }
}
