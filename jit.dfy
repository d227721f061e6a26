/**
 A model of the just-in-time queue of package `queue` (queue/jit.go).

 The queue holds entries ordered by their due time. Producers add entries;
 a single consumer repeatedly polls the head and receives it once its time
 has passed. A "changed" signal is fired (closed and replaced) whenever the
 head entry changes by identity, so that a waiting consumer re-evaluates.

 Locks, blocking waits and the wall clock are not modelled: every public
 method is one atomic step, and the current time is a parameter `now`.
 */
module Jit {

  datatype Option<T> = None | Some(value: T)

  /** A scheduled unit of work (a `JITItem`). Entries are references, so two
      entries with the same time and item are still different entries, as
      two Go pointers are. `wrapped` marks the `jitItem` that `Schedule`
      allocates around a bare payload; any other entry is a caller's own
      `JITItem`, whose `item` stands for the caller's data. */
  class Entry<T> {
    const time: int
    const item: T
    const wrapped: bool

    /** `&jitItem{item: item, time: time}` */
    constructor Wrap(item: T, time: int)
      ensures this.time == time && this.item == item && wrapped
    {
      this.time := time;
      this.item := item;
      this.wrapped := true;
    }

    /** A caller-defined `JITItem` whose `Time()` is `time`. */
    constructor Custom(item: T, time: int)
      ensures this.time == time && this.item == item && !wrapped
    {
      this.time := time;
      this.item := item;
      this.wrapped := false;
    }
  }

  /** What `Next` hands to the consumer: the payload of a scheduled entry,
      or the caller's own entry as it was added. */
  datatype Delivered<T> = Payload(item: T) | Itself(entry: Entry<T>)

  // ---------------------------------------------------------------------
  // Ordering of the slice (jitSlice)
  // ---------------------------------------------------------------------

  /** `jitSlice.Less`: entry i is due strictly before entry j. */
  predicate Less<T>(s: seq<Entry<T>>, i: int, j: int)
    requires 0 <= i < |s| && 0 <= j < |s|
  {
    s[i].time < s[j].time
  }

  /** Ascending by time: no element is due before its predecessor. */
  predicate Sorted<T>(s: seq<Entry<T>>)
  {
    forall i :: 0 < i < |s| ==> s[i - 1].time <= s[i].time
  }

  /** Adjacent ordering is the same as having no inversion anywhere under
      `Less`, which is what `sort.Sort` promises of its result. */
  lemma {:induction false} SortedIffNoInversions<T>(s: seq<Entry<T>>)
    ensures Sorted(s) <==> forall i, j :: 0 <= i < j < |s| ==> !Less(s, j, i)
  {
    if Sorted(s) {
      forall i, j | 0 <= i < j < |s| ensures !Less(s, j, i) {
        SortedPairwise(s, i, j);
      }
    } else {
      var i :| 0 < i < |s| && s[i - 1].time > s[i].time;
      assert Less(s, i, i - 1);
    }
  }

  lemma {:induction false} SortedPairwise<T>(s: seq<Entry<T>>, i: int, j: int)
    requires Sorted(s) && 0 <= i <= j < |s|
    ensures s[i].time <= s[j].time
    decreases j - i
  {
    if i < j {
      SortedPairwise(s, i, j - 1);
    }
  }

  /** The head of a sorted queue is due no later than any entry in it. */
  lemma {:induction false} SortedHeadIsEarliest<T>(s: seq<Entry<T>>)
    requires Sorted(s) && s != []
    ensures forall k :: 0 <= k < |s| ==> s[0].time <= s[k].time
  {
    forall k | 0 <= k < |s| ensures s[0].time <= s[k].time {
      SortedPairwise(s, 0, k);
    }
  }

  /** Insertion of one entry into a sorted sequence, after every entry due
      at or before it. */
  function Insert<T>(s: seq<Entry<T>>, e: Entry<T>): (r: seq<Entry<T>>)
    requires Sorted(s)
    ensures Sorted(r)
    ensures multiset(r) == multiset(s) + multiset{e}
    ensures |r| == |s| + 1
    ensures r[0] == e || (s != [] && r[0] == s[0])
  {
    if s == [] || e.time < s[0].time then
      [e] + s
    else
      var rest := Insert(s[1..], e);
      assert s == [s[0]] + s[1..];
      [s[0]] + rest
  }

  /** `sort.Sort(q.queue)`. The caller may rely only on the result being
      sorted and a permutation of the input: the order among entries with
      equal times is not part of the contract, since Go's sort is not stable. */
  method SortByTime<T>(s: seq<Entry<T>>) returns (r: seq<Entry<T>>)
    ensures Sorted(r)
    ensures multiset(r) == multiset(s)
  {
    r := [];
    for i := 0 to |s|
      invariant Sorted(r)
      invariant multiset(r) == multiset(s[..i])
    {
      assert s[..i + 1] == s[..i] + [s[i]];
      r := Insert(r, s[i]);
    }
    assert s[..|s|] == s;
  }

  /** Appending an entry due strictly after the last one keeps the order
      (the fast path of `add`). */
  lemma AppendLaterKeepsSorted<T>(s: seq<Entry<T>>, e: Entry<T>)
    requires Sorted(s)
    requires s == [] || s[|s| - 1].time < e.time
    ensures Sorted(s + [e])
  {
  }

  /** The rule by which `add` fires the changed signal: the queue was empty,
      or the entry at position 0 is now a different entry. */
  predicate HeadChanged<T>(before: seq<Entry<T>>, after: seq<Entry<T>>)
  {
    before == [] || (after != [] && after[0] != before[0])
  }

  /** An entry due strictly before the current head becomes the head after
      any sorted re-arrangement, so a consumer waiting for the old head is
      woken (preemption by an earlier entry). */
  lemma {:induction false} EarlierEntryTakesHead<T>(before: seq<Entry<T>>, e: Entry<T>, after: seq<Entry<T>>)
    requires Sorted(before) && before != []
    requires Sorted(after) && multiset(after) == multiset(before) + multiset{e}
    requires e.time < before[0].time
    ensures after != [] && after[0] == e
    ensures HeadChanged(before, after)
  {
    assert e in multiset(after);
    assert after != [];
    var h := after[0];
    assert h in multiset(after);
    if h != e {
      assert h in multiset(before);
      var k :| 0 <= k < |before| && before[k] == h;
      SortedHeadIsEarliest(before);
      var m :| 0 <= m < |after| && after[m] == e;
      SortedHeadIsEarliest(after);
      assert false;
    }
  }

  /** An entry due strictly after the current head leaves the head's due
      time unchanged, whatever order the sort picks among equal times. */
  lemma {:induction false} LaterEntryKeepsDeadline<T>(before: seq<Entry<T>>, e: Entry<T>, after: seq<Entry<T>>)
    requires Sorted(before) && before != []
    requires Sorted(after) && multiset(after) == multiset(before) + multiset{e}
    requires before[0].time < e.time
    ensures after != [] && after[0].time == before[0].time && after[0] != e
  {
    assert before[0] in multiset(after);
    var m :| 0 <= m < |after| && after[m] == before[0];
    SortedHeadIsEarliest(after);
    SortedHeadIsEarliest(before);
    var h := after[0];
    assert h in multiset(after);
    if h != e {
      assert h in multiset(before);
      var k :| 0 <= k < |before| && before[k] == h;
    }
  }

  // ---------------------------------------------------------------------
  // The queue (jitQueue)
  // ---------------------------------------------------------------------

  /** One non-blocking pass over the body of `next`'s loop. */
  datatype Step<T> =
    | Closed                                  // the queue was destroyed
    | Due(entry: Entry<T>)                    // the head was due and was removed
    | Empty(signal: nat)                      // nothing queued: wait for `signal` to fire
    | NotYet(head: Entry<T>, signal: nat)     // wait for `signal` or for head.time

  /** The value `Next` returns for a finished step: nil when the queue was
      destroyed, the payload of a scheduled entry (`getItem`), or the
      caller's entry itself. */
  function Outcome<T>(s: Step<T>): (r: Option<Delivered<T>>)
    requires s.Closed? || s.Due?
  {
    match s
    case Closed => None
    case Due(e) => Some(if e.wrapped then Payload(e.item) else Itself(e))
  }

  class JitQueue<T> {
    /** `q.queue`, kept in ascending time order. */
    var queue: seq<Entry<T>>
    /** How many times `q.changed` has been closed. A consumer that captured
        the signal when `gen` was g is released once `gen > g`. */
    var gen: nat
    /** `q.changed == nil`: the signal was retired by `Destroy`. */
    var destroyed: bool

    ghost predicate Valid()
      reads this
    {
      Sorted(queue) && (destroyed ==> queue == [])
    }

    /** `NewJIT`: an empty, live queue with a fresh signal. */
    constructor ()
      ensures Valid()
      ensures queue == [] && gen == 0 && !destroyed
    {
      queue := [];
      gen := 0;
      destroyed := false;
    }

    /** `add` (and `Add`, which is `add` under the lock). On a destroyed
        queue nothing happens. Otherwise the entry is appended; when it is
        due strictly after the previous last entry the queue is left as it
        is, else it is sorted. The signal fires exactly when the queue was
        empty or the head is now a different entry. */
    method Add(e: Entry<T>)
      requires Valid()
      modifies this
      ensures Valid()
      ensures destroyed == old(destroyed)
      ensures old(destroyed) ==> queue == old(queue) && gen == old(gen)
      ensures !old(destroyed) ==>
                |queue| == |old(queue)| + 1 &&
                multiset(queue) == multiset(old(queue)) + multiset{e}
      ensures !old(destroyed) ==>
                gen == old(gen) + (if HeadChanged(old(queue), queue) then 1 else 0)
      ensures !old(destroyed) && old(queue) != [] && old(queue)[|old(queue)| - 1].time < e.time ==>
                queue == old(queue) + [e] && gen == old(gen)
    {
      if destroyed {
        return;
      }
      ghost var before := queue;
      queue := queue + [e];
      var first := queue[0];
      if |queue| > 1 && queue[|queue| - 1].time > queue[|queue| - 2].time {
        AppendLaterKeepsSorted(before, e);
        return;
      }
      queue := SortByTime(queue);
      assert |queue| == |multiset(queue)| == |before| + 1;
      if |queue| > 1 && first == queue[0] {
        return;
      }
      gen := gen + 1;
    }

    /** `Schedule`: wraps the payload in a freshly allocated entry and adds it. */
    method Schedule(item: T, time: int)
      requires Valid()
      modifies this
      ensures Valid()
      ensures destroyed == old(destroyed)
      ensures old(destroyed) ==> queue == old(queue) && gen == old(gen)
      ensures !old(destroyed) ==>
                |queue| == |old(queue)| + 1 &&
                exists k :: 0 <= k < |queue| && fresh(queue[k]) &&
                  queue[k].wrapped && queue[k].item == item && queue[k].time == time &&
                  multiset(queue) == multiset(old(queue)) + multiset{queue[k]}
      ensures !old(destroyed) ==>
                gen == old(gen) + (if HeadChanged(old(queue), queue) then 1 else 0)
      ensures !old(destroyed) && old(queue) != [] && old(queue)[|old(queue)| - 1].time < time ==>
                queue[..|old(queue)|] == old(queue) && queue[|queue| - 1].time == time &&
                gen == old(gen)
    {
      var e := new Entry.Wrap(item, time);
      Add(e);
      if !destroyed {
        assert e in multiset(queue);
        var k :| 0 <= k < |queue| && queue[k] == e;
      }
    }

    /** The non-blocking part of one iteration of `next`'s loop: capture the
        signal; on a destroyed queue report it; if the head is due strictly
        before `now` remove and return it; otherwise report what to wait for.
        Whatever is returned as due is due no later than what remains. */
    method Poll(now: int) returns (step: Step<T>)
      requires Valid()
      modifies this
      ensures Valid()
      ensures gen == old(gen) && destroyed == old(destroyed)
      ensures old(destroyed) ==> step == Closed && queue == old(queue)
      ensures !old(destroyed) && old(queue) == [] ==>
                step == Empty(gen) && queue == old(queue)
      ensures !old(destroyed) && old(queue) != [] && old(queue)[0].time < now ==>
                step == Due(old(queue)[0]) && queue == old(queue)[1..]
      ensures !old(destroyed) && old(queue) != [] && old(queue)[0].time >= now ==>
                step == NotYet(old(queue)[0], gen) && queue == old(queue)
      ensures step.Due? ==> step.entry.time < now
      ensures step.Due? ==> forall k :: 0 <= k < |queue| ==> step.entry.time <= queue[k].time
    {
      if destroyed {
        return Closed;
      }
      var signal := gen;
      if !IsEmpty() {
        var i := queue[0];
        if i.time < now {
          SortedHeadIsEarliest(queue);
          queue := queue[1..];
          return Due(i);
        }
        return NotYet(i, signal);
      }
      return Empty(signal);
    }

    /** The re-check after the timer for `captured` has elapsed: pop only if
        the queue is non-empty and `captured` is still the very entry at its
        head; otherwise leave the queue as it is. The timer waited until the
        captured entry's time, so at `now` that time has been reached. */
    method TimerExpired(captured: Entry<T>, now: int) returns (r: Option<Entry<T>>)
      requires Valid()
      requires captured.time <= now
      modifies this
      ensures Valid()
      ensures gen == old(gen) && destroyed == old(destroyed)
      ensures old(queue) != [] && old(queue)[0] == captured ==>
                r == Some(captured) && queue == old(queue)[1..]
      ensures !(old(queue) != [] && old(queue)[0] == captured) ==>
                r == None && queue == old(queue)
      ensures r.Some? ==> r.value.time <= now
    {
      if !IsEmpty() && captured == queue[0] {
        queue := queue[1..];
        return Some(captured);
      }
      return None;
    }

    /** `isEmpty` / `IsEmpty` */
    function IsEmpty(): (r: bool)
      reads this
      ensures r <==> queue == []
    {
      |queue| == 0
    }

    /** `Destroy`: empties the queue, fires the signal one final time and
        retires it, so every later `Add` is a no-op and every `Poll` reports
        `Closed`. A second call would close a nil channel (a panic in Go), so
        it is excluded. */
    method Destroy()
      requires Valid() && !destroyed
      modifies this
      ensures Valid()
      ensures queue == [] && destroyed && gen == old(gen) + 1
    {
      queue := [];
      gen := gen + 1;
      destroyed := true;
    }
  }

  // ---------------------------------------------------------------------
  // Scenarios a client can prove from the contracts alone
  // ---------------------------------------------------------------------

  /** On any live queue, a payload scheduled for a time before `now` and
      before every queued entry is what the next poll delivers, unwrapped
      the way `Next` unwraps it. */
  method ScheduleThenNext<T>(q: JitQueue<T>, item: T, time: int, now: int) returns (r: Option<Delivered<T>>)
    requires q.Valid() && !q.destroyed
    requires forall k :: 0 <= k < |q.queue| ==> time < q.queue[k].time
    requires time < now
    modifies q
    ensures q.Valid()
    ensures r == Some(Payload(item))
  {
    ghost var before := q.queue;
    q.Schedule(item, time);
    ghost var k :| 0 <= k < |q.queue| && q.queue[k].wrapped && q.queue[k].item == item &&
                   q.queue[k].time == time &&
                   multiset(q.queue) == multiset(before) + multiset{q.queue[k]};
    ghost var e := q.queue[k];
    if before == [] {
      assert |q.queue| == 1 && q.queue[0] == e;
    } else {
      EarlierEntryTakesHead(before, e, q.queue);
    }
    var step := q.Poll(now);
    r := Outcome(step);
  }

  /** Schedule `a` for now+50, then `b` for now+10. Scheduling `b` fires the
      signal, so a consumer waiting for `a` is woken; at now+5 nothing
      is due and the consumer is told to wait; `b` is delivered at now+11 and `a` at now+51. */
  method EarlierScheduleIsDeliveredFirst<T>(a: T, b: T, now: int)
    returns (woken: bool, waiting: bool, first: Option<Delivered<T>>, second: Option<Delivered<T>>)
    ensures woken
    ensures waiting
    ensures first == Some(Payload(b)) && second == Some(Payload(a))
  {
    var q := new JitQueue<T>();
    q.Schedule(a, now + 50);
    assert |q.queue| == 1;
    ghost var ea := q.queue[0];
    var signal := q.gen;
    q.Schedule(b, now + 10);
    ghost var k :| 0 <= k < |q.queue| && q.queue[k].wrapped && q.queue[k].item == b &&
             q.queue[k].time == now + 10 &&
             multiset(q.queue) == multiset{ea} + multiset{q.queue[k]};
    ghost var eb := q.queue[k];
    EarlierEntryTakesHead([ea], eb, q.queue);
    assert q.queue == [eb, ea] by {
      assert |q.queue| == 2;
      assert q.queue == [q.queue[0], q.queue[1]];
      assert multiset(q.queue) == multiset{q.queue[0]} + multiset{q.queue[1]};
    }
    woken := q.gen > signal;

    var s0 := q.Poll(now + 5);
    waiting := s0.NotYet?;
    var s1 := q.Poll(now + 11);
    first := Outcome(s1);
    var s2 := q.Poll(now + 51);
    second := Outcome(s2);
  }

  /** `IsEmpty` holds on a new queue, fails once an entry is queued, and
      holds again after the last entry has been delivered. */
  method EmptyBeforeAndAfter<T>(item: T, time: int, now: int)
    returns (atStart: bool, queued: bool, drained: bool)
    requires time < now
    ensures atStart && !queued && drained
  {
    var q := new JitQueue<T>();
    atStart := q.IsEmpty();
    q.Schedule(item, time);
    queued := q.IsEmpty();
    var step := q.Poll(now);
    drained := q.IsEmpty();
  }
}
