# Just-in-time queue: a Dafny model

This project models the just-in-time queue of the `queue` package (`queue/jit.go`).
The queue holds entries that each carry a due time. It keeps them in ascending time order.
A single consumer takes the head once its time has passed.
A "changed" signal wakes a waiting consumer whenever the head entry changes.
In Go the signal is a channel that is closed and then replaced.

Everything is in `jit.dfy`, module `Jit`:

- `Entry<T>` is a class with constant fields `time`, `item` and `wrapped`.
  Using references makes entry identity the same as Go pointer identity: two entries with equal times are still different entries.
  `Entry.Wrap` is the `jitItem` that `Schedule` allocates.
  `Entry.Custom` is a caller's own `JITItem`.
- `JitQueue<T>` is the `jitQueue` struct. Its fields are:
  - `queue`, the slice;
  - `gen`, the number of times `changed` has been closed;
  - `destroyed`, which is true once `changed` is nil.

  `Valid()` says the queue is sorted, and that a destroyed queue is empty.
- `Sorted` is the order that `sort.Sort` establishes under `jitSlice.Less`.
  `SortByTime` stands for `sort.Sort`. Its contract promises only a sorted permutation, so `Add` cannot depend on how ties are ordered. Go's sort is not stable.
- The body of `next`'s loop becomes two non-blocking steps, `Poll` and `TimerExpired`.
  `Outcome` is the unwrapping that `Next` does on a finished step.
- The clock is an integer parameter `now`. Go's `Before` and `After` become strict `<` and `>` on integers.

`Poll` delivers the head only when its time is strictly before `now`, as `i.Time().Before(time.Now())` does (queue/jit.go:130).
At exactly the head's due time `Poll` reports `NotYet`.
This matches the doc comment on `JIT`: an item is returned "immediately after" its time (queue/jit.go:36-37).

## Model

| member | source | states |
|---|---|---|
| `Jit.Less` | queue/jit.go:52 | entry i is due strictly before entry j, the order `sort.Sort` uses |
| `Jit.HeadChanged` | queue/jit.go:92-97 | the rule for firing the signal: the queue was empty before, or the entry at position 0 is now a different entry |
| `Jit.SortedIffNoInversions` | queue/jit.go:48-52 | ascending adjacent order holds iff no later element is `Less` than an earlier one, in both directions |
| `Jit.SortedHeadIsEarliest` | queue/jit.go:127-133 | in a sorted queue the head is due no later than every entry, so the popped entry is the earliest |
| `Jit.Insert` | queue/jit.go:90 | inserting into a sorted sequence gives a sorted sequence, one longer, holding exactly the old entries plus the new one |
| `Jit.SortByTime` | queue/jit.go:90 | the result is sorted by time and is a permutation of the input; nothing about tie order |
| `Jit.AppendLaterKeepsSorted` | queue/jit.go:85-88 | appending an entry due strictly after the last one keeps the queue sorted without re-sorting |
| `Jit.EarlierEntryTakesHead` | queue/jit.go:90-98 | after any sorted re-arrangement, an entry due strictly before the old head is the new head, so the head changed and the signal fires |
| `Jit.LaterEntryKeepsDeadline` | queue/jit.go:90-95 | an entry due strictly after the old head never becomes head, and the head's due time stays the same |
| `Jit.Outcome` | queue/jit.go:105-116 | what `Next` returns for a finished step: nothing for a destroyed queue, the payload of a scheduled entry, and a caller's own entry as it is |
| `Jit.Entry.Wrap` | queue/jit.go:23-34 | a scheduled entry carries the given payload and time and is marked as wrapped |
| `Jit.Entry.Custom` | queue/jit.go:12-15 | a caller's own item carries its time and is not wrapped, so `Next` hands it back as it is |
| `Jit.JitQueue.constructor` | queue/jit.go:63-69 | a new queue is empty, live and sorted, with no signal fired yet |
| `Jit.JitQueue.Add` | queue/jit.go:71-99 | on a destroyed queue nothing changes. On a live queue: the order is kept; the length grows by one; the contents are the old ones plus the entry; the signal fires exactly once iff the queue was empty or the head is now a different entry. On the fast path the entry is appended at the end and no signal fires |
| `Jit.JitQueue.Schedule` | queue/jit.go:101-103 | `Add` of a freshly allocated wrapped entry carrying the payload and time. Nothing changes on a destroyed queue. On a live queue the length grows by one and the contents are the old ones plus the new entry. The signal fires iff the queue was empty or the head changed. When the time is strictly after the last entry's, the old entries stay in place, the new one is last and no signal fires |
| `Jit.JitQueue.Poll` | queue/jit.go:118-136 | destroyed gives `Closed`. A head due strictly before `now` is removed and returned, and exactly the old tail remains. Otherwise the queue is unchanged and the captured signal is reported. A delivered entry is never early and is due no later than what remains |
| `Jit.JitQueue.TimerExpired` | queue/jit.go:146-154 | called once the timer for the captured entry has fired (its time is at most `now`). It pops and returns the captured entry only if that entry is still the very one at the head; otherwise nothing changes. A returned entry is never early |
| `Jit.JitQueue.IsEmpty` | queue/jit.go:159-167 | true iff the queue holds no entries |
| `Jit.JitQueue.Destroy` | queue/jit.go:169-175 | the queue becomes empty and destroyed, the signal fires one last time and is not replaced; requires a live queue |
| `Jit.ScheduleThenNext` | queue/jit.go:101-116 | on any live queue, scheduling a payload that is already due, and due before every queued entry, then polling makes `Next` return exactly that payload, unwrapped by `getItem` |
| `Jit.EmptyBeforeAndAfter` | queue/jit.go:159-167 | a new queue is empty; after one entry that is already due is scheduled it is not empty; once that entry is polled it is empty again |
| `Jit.EarlierScheduleIsDeliveredFirst` | queue/jit.go:77-99 | scheduling A for now+50 and then B for now+10 wakes the waiting consumer. At now+5 nothing is due. B is delivered at now+11 and A at now+51 |

## Left out

- The blocking parts of `next`: waiting on `<-changed`, and the `select` between the signal and `time.After` (queue/jit.go:138-146). No goroutines or channels exist here. The loop body is modelled as the `Poll` and `TimerExpired` steps. A waiter that held signal value g is released once `gen` exceeds g.
- The loop in `next` as a repetition: the model states each step, not the sequence of waits that connects them.
- The mutexes `nextMu` and `mu`: every public method is one atomic step.
- The real clock (`time.Now`, `time.Until`, `time.After`): replaced by the integer `now`.
- TimerExpired: the timer itself is not modelled. The requires `captured.time <= now` stands for "the timer for the captured head has fired".
- Go's `sort.Sort` algorithm: only its result is specified. `SortByTime` happens to be an insertion sort, but callers see only "sorted and permuted".
- `Destroy` on a destroyed queue: in Go it closes a nil channel and panics, so `Destroy` requires a live queue.
- `Add(nil)`: entries in the model are never null. In Go a nil item added to an empty queue is stored without any `Time()` call: `len(q.queue) > 1` is false at queue/jit.go:86, and sorting one element compares nothing. The panic comes later, at queue/jit.go:130 or in the next `Add`'s comparison.
- `Schedule(nil, t)`: `Next` then returns nil (queue/jit.go:32-34, 112-113), the same value it returns for a destroyed queue. The model's `Outcome` gives `Some(Payload(null))` for such a payload, so it always tells the two apart, and Go does not.
- Value comparison of entries: `first == q.queue[0]` (queue/jit.go:93) and `i == q.queue[0]` (queue/jit.go:148) compare interface values. For a caller's `JITItem` whose dynamic type is not a pointer, Go compares by value, and it panics if the type cannot be compared. The model always compares references, as Go does for the `*jitItem` that `Schedule` allocates.
- A `JITItem` whose `Time()` changes between calls: entry times are constants.
- The `errors` package (error descriptors and their message formatting): it holds no queue state and is outside this model.
