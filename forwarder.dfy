/**
 * `Forwarder` (src/log_proxy/forwarders/base.py): the bounded, drop-oldest
 * priority queue every sink owns, and one iteration of its `process` drain
 * loop.  Entries are `(created_at, counter, message)` triples; Python's
 * tuple comparison serves them by `created_at`, then by `counter`.
 */
module Forwarders {
  import Json
  import Strings

  // ---------------------------------------------------------------------------
  // Priority keys
  // ---------------------------------------------------------------------------

  /**
   * The `created_at` value of a record as the queue compares it: missing or
   * `null` (`None`), a number (`bool` counts as 0/1, as in Python), a string,
   * or a list/dict.
   */
  datatype Stamp = Absent | Number(n: int) | Text(s: string) | Container

  /** `message.get("created_at")`, as a priority key. */
  function StampOf(message: Json.Record): Stamp {
    if "created_at" !in message then Absent
    else
      match message["created_at"]
      case Null => Absent
      case Bool(b) => Number(if b then 1 else 0)
      case Int(i) => Number(i)
      case Str(s) => Text(s)
      case List(_) => Container
      case Object(_) => Container
  }

  function Rank(s: Stamp): nat {
    match s
    case Absent => 0
    case Number(_) => 1
    case Text(_) => 2
    case Container => 3
  }

  /** `<` on priority keys: numbers numerically, strings as Python orders `str`. */
  predicate StampLt(a: Stamp, b: Stamp) {
    if Rank(a) != Rank(b) then Rank(a) < Rank(b)
    else if a.Number? && b.Number? then a.n < b.n
    else if a.Text? && b.Text? then Strings.LexLt(a.s, b.s)
    else false
  }

  lemma StampLtStrictTotal(a: Stamp, b: Stamp, c: Stamp)
    ensures !StampLt(a, a)
    ensures a == b || StampLt(a, b) || StampLt(b, a)
    ensures StampLt(a, b) ==> !StampLt(b, a)
    ensures StampLt(a, b) && StampLt(b, c) ==> StampLt(a, c)
  {
    if a.Text? && b.Text? {
      Strings.LexLeTotal(a.s, b.s);
      if StampLt(a, b) && StampLt(b, a) {
        Strings.LexLeAntisymmetric(a.s, b.s);
      }
    }
    if a.Text? && b.Text? && c.Text? && StampLt(a, b) && StampLt(b, c) {
      Strings.LexLtTransitive(a.s, b.s, c.s);
    }
  }

  // ---------------------------------------------------------------------------
  // Queue entries and their order
  // ---------------------------------------------------------------------------

  /** One `(created_at, counter, message)` triple on the queue. */
  datatype Entry = Entry(stamp: Stamp, seqNo: nat, message: Json.Record)

  /** Python's `<` on two queue triples (their counters differ, so messages are never compared). */
  predicate Before(a: Entry, b: Entry) {
    StampLt(a.stamp, b.stamp) || (a.stamp == b.stamp && a.seqNo < b.seqNo)
  }

  lemma BeforeStrictTotal(a: Entry, b: Entry, c: Entry)
    ensures !Before(a, a)
    ensures Before(a, b) ==> !Before(b, a)
    ensures a.seqNo != b.seqNo ==> Before(a, b) || Before(b, a)
    ensures Before(a, b) && Before(b, c) ==> Before(a, c)
    ensures !Before(b, a) && !Before(c, b) ==> !Before(c, a)
  {
    StampLtStrictTotal(a.stamp, b.stamp, c.stamp);
    StampLtStrictTotal(b.stamp, a.stamp, c.stamp);
    StampLtStrictTotal(c.stamp, b.stamp, a.stamp);
    StampLtStrictTotal(a.stamp, c.stamp, b.stamp);
    StampLtStrictTotal(b.stamp, c.stamp, a.stamp);
    StampLtStrictTotal(c.stamp, a.stamp, b.stamp);
  }

  /** Counters on the queue are never reused. */
  predicate UniqueSeqNos(es: seq<Entry>) {
    forall i, j :: 0 <= i < j < |es| ==> es[i].seqNo != es[j].seqNo
  }

  /** Position of the entry `heappop` removes: no other entry comes before it. */
  function MinIndex(es: seq<Entry>): (i: nat)
    requires es != []
    ensures i < |es|
    ensures forall j :: 0 <= j < |es| ==> !Before(es[j], es[i])
  {
    if |es| == 1 then 0
    else
      var k := MinIndex(es[1..]) + 1;
      assert forall j :: 1 <= j < |es| ==> !Before(es[j], es[k]) by {
        forall j | 1 <= j < |es| ensures !Before(es[j], es[k]) {
          assert es[j] == es[1..][j - 1] && es[k] == es[1..][k - 1];
        }
      }
      if Before(es[k], es[0]) then
        BeforeStrictTotal(es[k], es[0], es[0]);
        k
      else
        assert forall j :: 0 <= j < |es| ==> !Before(es[j], es[0]) by {
          forall j | 0 <= j < |es| ensures !Before(es[j], es[0]) {
            BeforeStrictTotal(es[0], es[k], es[j]);
          }
        }
        0
  }

  function RemoveAt(es: seq<Entry>, i: nat): (r: seq<Entry>)
    requires i < |es|
    ensures |r| == |es| - 1
    ensures multiset(r) == multiset(es) - multiset{es[i]}
  {
    assert es == es[..i] + [es[i]] + es[i + 1..];
    es[..i] + es[i + 1..]
  }

  /** The queue after `heappop`. */
  function PopMin(es: seq<Entry>): seq<Entry>
    requires es != []
  {
    RemoveAt(es, MinIndex(es))
  }

  /** `asyncio.Queue.full()`: only a positive `maxsize` bounds the queue. */
  predicate IsFull(es: seq<Entry>, maxSize: int) {
    maxSize > 0 && |es| >= maxSize
  }

  /**
   * The queue after `put(message)`: when full, the entry that would be served
   * first is dropped; then the message is added under counter `counter`.
   */
  function PutSpec(es: seq<Entry>, maxSize: int, counter: nat, message: Json.Record): (r: seq<Entry>)
    ensures |r| == if IsFull(es, maxSize) then |es| else |es| + 1
    ensures r[|r| - 1] == Entry(StampOf(message), counter, message)
    ensures IsFull(es, maxSize) ==>
              multiset(r) == multiset(es) - multiset{es[MinIndex(es)]} + multiset{r[|r| - 1]}
    ensures !IsFull(es, maxSize) ==> r == es + [Entry(StampOf(message), counter, message)]
  {
    var kept := if IsFull(es, maxSize) then PopMin(es) else es;
    kept + [Entry(StampOf(message), counter, message)]
  }

  /** The drop-oldest rule never lets a bounded queue grow past `maxSize`. */
  lemma PutRespectsBound(es: seq<Entry>, maxSize: int, counter: nat, message: Json.Record)
    requires maxSize > 0 && |es| <= maxSize
    ensures |PutSpec(es, maxSize, counter, message)| <= maxSize
    ensures |es| == maxSize ==> |PutSpec(es, maxSize, counter, message)| == maxSize
  {
  }

  /** The entry a full queue drops is one that no other entry precedes; every other entry survives. */
  lemma PutEvictsFirstServed(es: seq<Entry>, maxSize: int, counter: nat, message: Json.Record)
    requires IsFull(es, maxSize)
    ensures var gone := es[MinIndex(es)];
            var r := PutSpec(es, maxSize, counter, message);
            (forall e :: e in es ==> !Before(e, gone))
            && (forall e :: e in es && e != gone ==> e in r)
  {
    var gone := es[MinIndex(es)];
    var r := PutSpec(es, maxSize, counter, message);
    forall e | e in es && e != gone ensures e in r {
      assert e in multiset(es) - multiset{gone};
      assert e in multiset(r);
    }
  }

  /** The entries served by successive `get`s until the queue is empty. */
  function Drain(es: seq<Entry>): seq<Entry>
    decreases |es|
  {
    if es == [] then [] else [es[MinIndex(es)]] + Drain(PopMin(es))
  }

  lemma RemoveAtKeepsUnique(es: seq<Entry>, i: nat)
    requires i < |es| && UniqueSeqNos(es)
    ensures UniqueSeqNos(RemoveAt(es, i))
  {
    var r := RemoveAt(es, i);
    forall a, b | 0 <= a < b < |r| ensures r[a].seqNo != r[b].seqNo {
      var a' := if a < i then a else a + 1;
      var b' := if b < i then b else b + 1;
      assert r[a] == es[a'] && r[b] == es[b'];
    }
  }

  /** Every entry left after `heappop` is served after the popped one. */
  lemma PoppedPrecedesRest(es: seq<Entry>)
    requires es != [] && UniqueSeqNos(es)
    ensures forall e :: e in PopMin(es) ==> Before(es[MinIndex(es)], e)
  {
    var m := MinIndex(es);
    var rest := PopMin(es);
    forall k | 0 <= k < |rest| ensures Before(es[m], rest[k]) {
      var k' := if k < m then k else k + 1;
      assert rest[k] == es[k'];
      BeforeStrictTotal(es[m], es[k'], es[k']);
    }
  }

  /** Draining the queue serves every entry exactly once. */
  lemma {:induction false} DrainPermutes(es: seq<Entry>)
    ensures |Drain(es)| == |es| && multiset(Drain(es)) == multiset(es)
    decreases |es|
  {
    if es != [] {
      DrainPermutes(PopMin(es));
    }
  }

  /** Draining a queue serves its entries in strictly increasing `(created_at, counter)` order. */
  lemma {:induction false} DrainSorted(es: seq<Entry>)
    requires UniqueSeqNos(es)
    ensures forall i, j :: 0 <= i < j < |Drain(es)| ==> Before(Drain(es)[i], Drain(es)[j])
    decreases |es|
  {
    if es != [] {
      var m := MinIndex(es);
      var rest := PopMin(es);
      RemoveAtKeepsUnique(es, m);
      DrainSorted(rest);
      DrainPermutes(rest);
      PoppedPrecedesRest(es);
      var tail := Drain(rest);
      assert Drain(es) == [es[m]] + tail;
      forall i, j | 0 <= i < j < |tail| + 1 ensures Before(([es[m]] + tail)[i], ([es[m]] + tail)[j]) {
        if i == 0 {
          assert tail[j - 1] in multiset(tail);
        }
      }
    }
  }

  /** Entries with equal `created_at` leave the queue in the order they were put. */
  lemma DrainFifoAmongEqualStamps(es: seq<Entry>)
    requires UniqueSeqNos(es)
    ensures forall i, j :: 0 <= i < j < |Drain(es)| && Drain(es)[i].stamp == Drain(es)[j].stamp ==>
              Drain(es)[i].seqNo < Drain(es)[j].seqNo
  {
    DrainSorted(es);
    var d := Drain(es);
    forall i, j | 0 <= i < j < |d| && d[i].stamp == d[j].stamp ensures d[i].seqNo < d[j].seqNo {
      StampLtStrictTotal(d[i].stamp, d[i].stamp, d[i].stamp);
    }
  }

  // ---------------------------------------------------------------------------
  // One iteration of Forwarder.process
  // ---------------------------------------------------------------------------

  /** The hooks one drain-loop iteration calls, in order. */
  datatype Hook = ConnectCall | GetCall | ProcessMessageCall | InvalidateCall | Sleep(seconds: nat)

  const RETRY_DELAY: nat := 5

  /**
   * One pass of `while True:` in `process`: connect when not connected, take
   * the next message and process it; an exception from `connect` or
   * `process_message` is answered with `invalidate()` and a 5-second sleep.
   */
  function Iteration(wasConnected: bool, connectRaises: bool, processRaises: bool): (trace: seq<Hook>)
    ensures ConnectCall in trace <==> !wasConnected
    ensures GetCall in trace <==> ProcessMessageCall in trace
    ensures GetCall in trace <==> wasConnected || !connectRaises
    ensures var raised := (!wasConnected && connectRaises) || (GetCall in trace && processRaises);
            (InvalidateCall in trace <==> raised) && (Sleep(RETRY_DELAY) in trace <==> raised)
            && (raised ==> trace[|trace| - 2..] == [InvalidateCall, Sleep(RETRY_DELAY)])
    ensures !wasConnected ==> trace[0] == ConnectCall
  {
    var connect := if wasConnected then [] else [ConnectCall];
    if !wasConnected && connectRaises then connect + [InvalidateCall, Sleep(RETRY_DELAY)]
    else connect + [GetCall, ProcessMessageCall] + (if processRaises then [InvalidateCall, Sleep(RETRY_DELAY)] else [])
  }

  // ---------------------------------------------------------------------------
  // The Forwarder class
  // ---------------------------------------------------------------------------

  class Forwarder {
    /** `asyncio.PriorityQueue(max_size)`: zero or negative means unbounded. */
    const maxSize: int
    /** The queued triples, oldest put first; the serving order is `Before`. */
    var entries: seq<Entry>
    /** `self.counter`: the number of `put`s so far. */
    var counter: nat

    ghost predicate Valid()
      reads this
    {
      (forall i, j :: 0 <= i < j < |entries| ==> entries[i].seqNo < entries[j].seqNo)
      && (forall i :: 0 <= i < |entries| ==> entries[i].seqNo < counter)
      && (maxSize > 0 ==> |entries| <= maxSize)
    }

    constructor (maxSize: int)
      ensures Valid() && this.maxSize == maxSize
      ensures entries == [] && counter == 0
    {
      this.maxSize := maxSize;
      entries := [];
      counter := 0;
    }

    /** `empty()`. */
    predicate Empty()
      reads this
    {
      entries == []
    }

    predicate Full()
      reads this
    {
      IsFull(entries, maxSize)
    }

    /** The base class never reports a connection. */
    predicate Connected() {
      false
    }

    /** The base class's `connect`, `process_message` and `invalidate` do nothing. */
    method Connect() {
    }

    method ProcessMessage(message: Json.Record) {
    }

    method Invalidate() {
    }

    /** `get()`, once the queue holds an entry: removes and returns the first-served message. */
    method Get() returns (message: Json.Record)
      requires Valid() && !Empty()
      modifies this
      ensures Valid() && counter == old(counter)
      ensures message == old(entries)[MinIndex(old(entries))].message
      ensures entries == PopMin(old(entries))
    {
      var i := MinIndex(entries);
      message := entries[i].message;
      ghost var before := entries;
      entries := RemoveAt(entries, i);
      forall a, b | 0 <= a < b < |entries| ensures entries[a].seqNo < entries[b].seqNo {
        var a' := if a < i then a else a + 1;
        var b' := if b < i then b else b + 1;
        assert entries[a] == before[a'] && entries[b] == before[b'];
      }
      forall a | 0 <= a < |entries| ensures entries[a].seqNo < counter {
        var a' := if a < i then a else a + 1;
        assert entries[a] == before[a'];
      }
    }

    /** `put(message)`: drop the first-served entry when full, then enqueue under a fresh counter. */
    method Put(message: Json.Record)
      requires Valid()
      modifies this
      ensures Valid()
      ensures entries == PutSpec(old(entries), maxSize, old(counter), message)
      ensures counter == old(counter) + 1
    {
      if Full() {
        var _ := Get();
      }
      entries := entries + [Entry(StampOf(message), counter, message)];
      counter := counter + 1;
    }

    /**
     * One iteration of `process` while a message is queued: the base class is
     * never connected, so it calls `connect`, then `get`, then
     * `process_message`, none of which can raise.
     */
    method ProcessStep() returns (trace: seq<Hook>)
      requires Valid() && !Empty()
      modifies this
      ensures Valid()
      ensures trace == Iteration(false, false, false)
      ensures entries == PopMin(old(entries)) && counter == old(counter)
    {
      trace := [];
      if !Connected() {
        Connect();
        trace := trace + [ConnectCall];
      }
      var message := Get();
      trace := trace + [GetCall];
      ProcessMessage(message);
      trace := trace + [ProcessMessageCall];
    }
  }

  /** The entries a valid queue holds have distinct counters. */
  lemma ValidQueueUnique(f: Forwarder)
    requires f.Valid()
    ensures UniqueSeqNos(f.entries)
  {
  }

  // ---------------------------------------------------------------------------
  // DatabaseForwarder
  // ---------------------------------------------------------------------------

  /** `{k: v for k, v in kwargs.items() if v}`: exactly the truthy keyword arguments, unchanged. */
  function DatabaseArgs(kwargs: Json.Record): (args: Json.Record)
    ensures forall k :: k in args <==> k in kwargs && Json.Truthy(kwargs[k])
    ensures forall k :: k in args ==> args[k] == kwargs[k]
  {
    map k | k in kwargs && Json.Truthy(kwargs[k]) :: kwargs[k]
  }

  /** Filtering is idempotent, and a falsy argument never survives it. */
  lemma DatabaseArgsIdempotent(kwargs: Json.Record)
    ensures DatabaseArgs(DatabaseArgs(kwargs)) == DatabaseArgs(kwargs)
    ensures forall k :: k in kwargs && !Json.Truthy(kwargs[k]) ==> k !in DatabaseArgs(kwargs)
  {
  }

  /** `DatabaseForwarder`: a forwarder that keeps the truthy connection arguments. */
  class DatabaseForwarder {
    const queue: Forwarder
    const args: Json.Record

    constructor (maxSize: int, kwargs: Json.Record)
      ensures fresh(queue) && queue.Valid() && queue.maxSize == maxSize && queue.entries == []
      ensures args == DatabaseArgs(kwargs)
    {
      queue := new Forwarder(maxSize);
      args := DatabaseArgs(kwargs);
    }
  }

  // ---------------------------------------------------------------------------
  // Scenario of tests/test_forwarders.py: a queue of two overflows
  // ---------------------------------------------------------------------------

  /**
   * Three messages without `created_at` put into a queue of two: the first
   * is dropped, and the `get`s that follow return the other two in order.
   */
  lemma {:induction false} OverflowScenario(m1: Json.Record, m2: Json.Record, m3: Json.Record)
    requires "created_at" !in m1 && "created_at" !in m2 && "created_at" !in m3
    ensures var q := PutSpec(PutSpec(PutSpec([], 2, 0, m1), 2, 1, m2), 2, 2, m3);
            var served := Drain(q);
            |served| == 2 && served[0].message == m2 && served[1].message == m3
  {
    var e1, e2, e3 := Entry(Absent, 0, m1), Entry(Absent, 1, m2), Entry(Absent, 2, m3);
    OverflowPuts(e1, e2, e3);
    DrainTwo(e2, e3);
  }

  /** Filling a queue of two and putting a third entry drops the first. */
  lemma {:induction false} OverflowPuts(e1: Entry, e2: Entry, e3: Entry)
    requires e1.stamp == e2.stamp == e3.stamp == Absent && e1.seqNo == 0 && e2.seqNo == 1 && e3.seqNo == 2
    requires StampOf(e1.message) == StampOf(e2.message) == StampOf(e3.message) == Absent
    ensures PutSpec(PutSpec(PutSpec([], 2, 0, e1.message), 2, 1, e2.message), 2, 2, e3.message) == [e2, e3]
  {
    assert PutSpec([], 2, 0, e1.message) == [e1];
    assert PutSpec([e1], 2, 1, e2.message) == [e1, e2];
    PutIntoFullPair(e1, e2, e3);
  }

  /** A full queue of two same-stamp entries loses the older one. */
  lemma {:induction false} PutIntoFullPair(e1: Entry, e2: Entry, e3: Entry)
    requires e1.stamp == e2.stamp && e1.seqNo < e2.seqNo && e3.stamp == StampOf(e3.message)
    ensures PutSpec([e1, e2], 2, e3.seqNo, e3.message) == [e2, e3]
  {
    assert MinIndex([e1, e2]) == 0;
    assert PopMin([e1, e2]) == [e2];
  }

  /** Two entries with the same stamp are served in counter order. */
  lemma {:induction false} DrainTwo(a: Entry, b: Entry)
    requires a.stamp == b.stamp == Absent && a.seqNo < b.seqNo
    ensures Drain([a, b]) == [a, b]
  {
    assert MinIndex([a, b]) == 0 && PopMin([a, b]) == [b];
    assert MinIndex([b]) == 0 && PopMin([b]) == [];
    assert Drain([b]) == [b];
  }
}
