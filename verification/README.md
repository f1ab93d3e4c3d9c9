# Verification of the server framework's core

This project states, in Dafny, what the stateful core of the C++ server framework computes, and
proves it. Each part ties a fast or stateful form to something simple:

* **Timer wheel** — `Digits`, `Placement`, `Calendar`, `CatchUp`, `Punctual`, `Playback`, `WheelConfig`,
  `WheelRounds`, `CallbackQueue`, `TimeWheel`. Timers sit in rounds of 2^bit slots holding hand-linked nodes;
  cursors cascade buckets downward; repeats re-insert themselves; cancelling marks a shared flag.
  `Calendar` is the abstract view: waiting timers with the tick that consumes them, and the history
  of queued callbacks. `Sits` is the placement invariant in digits of the base 2^bit: a node is in the
  round where its due tick first differs from the cursor, with a larger digit. Every operation of
  class `Impl` is proved to be the calendar's step, and `Impl.Play` that any sequence of commands is
  played as a run, command by command. The theorems over runs are proved on the calendar; `Playback` restates
  them for commands and answers, down to what fetches return. `CatchUp` says in closed form what scheduling an
  overdue timer comes to, `Punctual` when a repeating timer is on time, how late it can be and when it is lost.
* **Word filter** — `Utf8`, `Suffixes`, `Characters`, `Automaton`, `WordFilter`. A byte trie with fail
  links built breadth first, compressed output links, a root transition table and an early-exit flag.
  `Suffixes` says without an automaton what a state is (the longest suffix in the vocabulary) and what
  naive search finds; once built, the class is proved equal to it, and what it answers after further
  loads is proved true.
* **Framing** — `Framing`, `Segpack`. A resumable parser over arbitrary fragments, one unfinished
  packet per socket. `Framing.Parse` sees the whole stream at once; `Fragmentation` says exactly when
  cutting the stream matters.
* **Serialization** — `LittleEndian`, `Values`, `Format`, `Serialize`, `Xor`, `Message`. The recursive
  binary format over schemas and values, its counter, writer and reader, the size-then-fill build of a
  message, the cipher, and the way of a message from value to value across a fragmented stream. A set or
  map is the ascending list of its items, whatever order they arrive in.
* **Mailbox** — `Gate`, `Mailbox`. Two message classes, slices that swap the queues out while handlers
  and other threads keep pushing, and a staged readiness gate. `Runs` says what each event does; `Actor.Serve`
  that a mailbox runs so, with the history of its events.
* **Buffer pool** — `PoolState`, `PoolSteps`, `BufferPool`. A thread-cached allocator as the steps its threads
  take between atomic operations. `PoolSteps` gives each step as a relation and proves what holds over any
  interleaving; `Pool.Run` that any schedule is such a run.
* **Merged areas** — `MergeArea`. Memoised pointer chasing with cycle detection over 2^16 slots; which area becomes
  the root is told from the rows.
* **Digests and codecs** — `Digest`, `Varint`, `Base64`. Chunked MD5 and SHA-1 over an unspecified
  block function, HMAC, zigzag varints and Base64.

`Common` and `Bytes` hold what several of these share.

Objects the source updates are classes here, with its fields and loops; each is tied to a function or
predicate on values, and the laws are lemmas about those. `ghost` fields record histories: firings
queued, messages pushed and dispatched, where a block is, what was fed to a digest.

What comes from outside enters as a parameter: clocks (`clock`, `now`), interval callbacks as functions
of the wheel clock, what readiness checks answer, which pushes happen between two steps of a slice
(`script`), when the time budget is used up (`late`), addresses of new blocks, whether a peer is on the
LAN, configured keys, and the digests' block functions.

## What the code does and does not do

Where a promised property does not hold of the code, the exact condition is proved.

* A repeating timer whose interval is below the precision can land in the slot under the cursor and wait
  a revolution. Over runs, an accepted timer is on time throughout if and only if every re-insertion carries
  it into a later tick (`Punctual.RunOnTimeIff`), and no firing is later than a revolution
  (`WithinRevolution`); `Calendar.FineIntervalIsLate` shows a late one.
* In a wheel of one round such a timer can be lost: slot 0 is never read again after the first tick. It is if
  and only if it was added before the first tick and that tick fires it with the next firing due below one
  precision (`Punctual.LostIff`); `OneRoundLoses` shows one.
* A count of 0 or below is commented as "forever"; the code makes it the largest 32-bit integer.
* Adding a repeating timer that is overdue may queue callbacks at once and still answer -1.
  `CatchUp.AddRejectedAfterFiring` says when, in terms of the interval the policy answers at that moment,
  and how many; `OverdueRejected` shows one.
* A heartbeat followed by more bytes in the same receive makes that receive fail and loses them;
  `Framing.Fragmentation` is an equivalence for that reason.
* A value may have many encodings: `pop` of a boolean takes every non-zero byte for true, and `pop` of a
  set or map takes its items in any order. Writing back what was read gives the same bytes if and only if
  every boolean byte is at most 1 and every keyed container came in its own order
  (`Format.EncodeOfDecode`, `BoolHasManyEncodings`, `SetHasManyEncodings`).
* The cipher uses only as many key bytes as the bit length of the key's length plus one, less one
  (public/cpp/tools/tab/xml/sysconfig.cpp:76-83).
* Area -1 is the table's sentinel. A row for it can leave the lists inconsistent: if and only if the first
  such row merges it nowhere, or starts a chain that runs into a cycle, holds no area below -1 and meets no
  chain of an earlier row (`MergeArea.SentinelFails`, proved by `MergeTable.Reload`). `SentinelRow` and
  `SentinelCycle` are such tables.
* `base64_decode` allots three bytes for every four letters, which is too little for some texts without padding:
  it is enough if and only if the letters before the first other byte come to at most one more than the text's
  whole quads (`Base64.DecFits`). Every encoding meets that, "QUI" does not (`UnpaddedOverflows`).
* The 64-bit `varint_length` masks 48 bits only; `Varint.Length64` says for which values it is right,
  `Length64Fails` gives one for which it is not.

## Model

| member | source | states |
|---|---|---|
| Calendar.OneShotFiresOnce | public/cpp/tools/tools/tools_time_wheel.cpp:254-325 | Over every interleaving of adds, cancels, ticks and pops, an accepted, uncancelled one-shot timer has been queued exactly once if its due time lies below the time consumed, and not at all otherwise, with its own due time and callback. |
| Calendar.RepeatFiresOnTime | public/cpp/tools/tools/tools_time_wheel.cpp:274-297 | Over every interleaving, told from what was asked for: a repeating timer with intervals of at least one precision is first due its delay after the clock at that moment, then each answer of the policy later; it has fired at each due time below the time consumed, with its callback, at most its count (the 32-bit maximum for 0 or below); it stops early only when the policy answers 0 or the next due time leaves the span. |
| Calendar.RepeatKeepsCount | public/cpp/tools/tools/tools_time_wheel.cpp:635-667 | Without the bound on intervals those due times and the count still hold, nothing fires before it is due, and a timer no longer waiting has used up its count, been stopped, or left the span. |
| Calendar.AskedAt | public/cpp/tools/tools/tools_time_wheel.cpp:274-297 | Over every run: the repeat policy is asked at the wheel clock, the start and the ticks consumed before the step, and every firing a step queues carries that clock. |
| Calendar.RepeatOnTimeIff | public/cpp/tools/tools/tools_time_wheel.cpp:651-664 | One re-insertion by a tick: the repeat is consumed by the tick it is due in if and only if that tick is later than the current one. |
| Calendar.FineIntervalIsLate | public/cpp/tools/tools/tools_time_wheel.cpp:567-580 | The concrete case in which it is not: with the default configuration an interval of 5 ms is served 256 ticks late. |
| Punctual.RunOnTimeIff | public/cpp/tools/tools/tools_time_wheel.cpp:559-668 | Over every run: an accepted, uncancelled timer is on time at every state up to some point if and only if every re-insertion before it carries the timer into a later tick. |
| Punctual.WithinRevolution | public/cpp/tools/tools/tools_time_wheel.cpp:559-668 | Over every run: every firing the add itself did not queue is queued within one revolution of the base round after its due tick, and what waits will be, unless it is lost; a wheel of two rounds or more loses nothing. |
| Punctual.LostIff | public/cpp/tools/tools/tools_time_wheel.cpp:559-580 | Over every run: an accepted, uncancelled timer waits for a tick that never comes if and only if the wheel has one round, the timer was added before the first tick, that tick is over, and in it the timer fired with firings left and the next one due below one precision. |
| Punctual.LostForever | public/cpp/tools/tools/tools_time_wheel.cpp:559-580 | A lost timer stays where it is over the rest of every run, and nothing of it is queued any more. |
| Punctual.OneRoundLoses | public/cpp/tools/tools/tools_time_wheel.cpp:559-580 | Such a run: a timer due at 0 and every 5 ms in a wheel of one round with 10 ms a tick fires once and is lost. |
| Punctual.StepOnTimeIff | public/cpp/tools/tools/tools_time_wheel.cpp:635-664 | A step of a run keeps a timer on time exactly when it carries it forward. |
| CatchUp.OverduesIsLeast | public/cpp/tools/tools/tools_time_wheel.cpp:274-297 | The closed form for how often an overdue timer fires at once is the least number of intervals after which it is no longer overdue or has left the span. |
| CatchUp.ScheduleComes | public/cpp/tools/tools/tools_time_wheel.cpp:254-325 | Every outcome of scheduling a timer, finished, linked or rejected, and the exact number of callbacks queued on the way, from its due time, count and interval. |
| CatchUp.RejectedAfterFiring | public/cpp/tools/tools/tools_time_wheel.cpp:254-325 | Scheduling queues callbacks and still rejects if and only if the timer is overdue, repeats, has firings left after catching up, and then is due at or past the span. |
| CatchUp.AddRejectedAfterFiring | public/cpp/tools/tools/tools_time_wheel.cpp:465-494 | Over every run: an add answers -1 and queues callbacks all the same if and only if that condition holds of the timer asked for; it gives their number. |
| CatchUp.AddAnswers | public/cpp/tools/tools/tools_time_wheel.cpp:465-494 | Over every run, from the delay, count and policy asked for: exactly when an add answers -1, the id it gives otherwise, whether it uses one up, and how many callbacks it queues at once. |
| CatchUp.OverdueRejected | public/cpp/tools/tools/tools_time_wheel.cpp:274-297 | Such a timer: due at 0 every 3000 ms, added 20 ms on to a wheel spanning 2560 ms. |
| Calendar.CancelSilences | public/cpp/tools/tools/tools_time_wheel.cpp:327-334 | After cancelling a waiting timer nothing more of it is queued and no later pop returns any firing of it, even one queued before. |
| Calendar.CancelTooLate | public/cpp/tools/tools/tools_time_wheel.cpp:327-338 | Cancelling a timer that no longer waits changes nothing: what is queued of it still comes out. |
| Playback.WakeOnce | public/cpp/tools/tools/tools_time_wheel.cpp:352-392 | Consuming missed ticks together changes nothing: waking at one clock and then at another leaves, for every timer, the entry and the firings that waking once at the later clock leaves. |
| Playback.TicksAlike | public/cpp/tools/tools/tools_time_wheel.cpp:380-390 | What a number of ticks does to each single timer is fixed; only the order in which timers due together are queued is not. |
| Playback.MissedTwice | public/cpp/tools/tools/tools_time_wheel.cpp:366-368 | The ticks missed at one clock and then at another are together those missed at the later one. |
| Playback.PopsDeliver | public/cpp/tools/tools/tools_time_wheel.cpp:430-463 | Over every run: the firings of an uncancelled timer that pops returned are, in order and each once, those among the queued ones that pops have passed. |
| Playback.PlayedElapsed | public/cpp/tools/tools/tools_time_wheel.cpp:352-392 | After any commands the wheel has consumed the whole ticks below the latest clock it was woken at. |
| Playback.OneShotPlayed | public/cpp/tools/tools/tools_time_wheel.cpp:327-494 | After any commands to a wheel: an accepted, uncancelled one-shot timer has been queued exactly once if its due time lies in a whole tick below the latest clock the wheel was woken at, and not at all otherwise. |
| Playback.FetchesDeliver | public/cpp/tools/tools/tools_time_wheel.cpp:430-463 | After any commands: what fetches returned of an accepted, uncancelled timer are its firings in order, all of them once a fetch found nothing. |
| Playback.OneShotDelivered | public/cpp/tools/tools/tools_time_wheel.cpp:327-494 | As the caller sees it: once a fetch finds nothing, a one-shot timer has come out exactly once, with its own callback, if the wheel was woken late enough; it never comes out early or twice. |
| Playback.PeriodicDelivered | public/cpp/tools/tools/tools_time_wheel.cpp:327-494 | The same for a fixed interval of at least one precision, from the command alone: a timer comes out, in order, at the delay from the clock it was added at and each interval after it below the latest whole tick, as far as its count and the span reach. |
| Calendar.RunThenPass | public/cpp/tools/tools/tools_time_wheel.cpp:352-392 | A pass of n ticks extends a run by n tick steps, so every statement over runs holds after it. |
| Calendar.ScheduleAccounted | public/cpp/tools/tools/tools_time_wheel.cpp:254-325 | Scheduling continues a timer's chain of firings: what is queued plus what is linked, finished or rejected accounts for its whole count. |
| Calendar.ConsumeAccounted | public/cpp/tools/tools/tools_time_wheel.cpp:635-667 | So does consuming it in a tick, including whatever catch-up follows. |
| Calendar.ScheduleTimes | public/cpp/tools/tools/tools_time_wheel.cpp:274-297 | Catch-up queues only firings already due; what it links is not yet due and is consumed no earlier than its due tick. |
| Calendar.NextTracked | public/cpp/tools/tools/tools_time_wheel.cpp:559-668 | The history invariant of an uncancelled timer survives every add, cancel, tick and pop, of it or of others; so does being on time when intervals are coarse. |
| Calendar.AddTracked | public/cpp/tools/tools/tools_time_wheel.cpp:465-494 | An accepted timer satisfies that invariant from the step that adds it. |
| Calendar.RunTracked | public/cpp/tools/tools/tools_time_wheel.cpp:465-494 | Hence at every later state of every run. |
| Calendar.AddOthers | public/cpp/tools/tools/tools_time_wheel.cpp:482-493 | Adding a timer changes neither the firings nor the waiting entry of any other. |
| Calendar.TickOthers | public/cpp/tools/tools/tools_time_wheel.cpp:634-667 | A tick leaves every timer not due in it alone. |
| Placement.TruncationKeepsDigit | public/cpp/tools/tools/tools_time_wheel.cpp:564-565 | Cutting the 64-bit quotient to 32 bits before masking does not change the slot index. |
| Placement.DigitStep | public/cpp/tools/tools/tools_time_wheel.cpp:566-577 | One step of the descent: as long as time and cursor agree above a round, the node's digit there is at most the cursor's exactly when they agree in it too. |
| Placement.AdvanceNode | public/cpp/tools/tools/tools_time_wheel.cpp:610-633 | When the cursor advances, a node stays well placed unless it is in the one bucket the carry makes ripe; that holds for every round and every carry length. |
| Placement.UnderCursor | public/cpp/tools/tools/tools_time_wheel.cpp:634-636 | The slot under the base cursor holds exactly the nodes this tick consumes. |
| WheelConfig.SafeCount | public/cpp/tools/tools/tools_time_wheel.h:79-97 | The largest number of rounds whose span fits 64 bits (the 32-bit maximum when a round has one slot). |
| WheelConfig.Normalize | public/cpp/tools/tools/tools_time_wheel.cpp:82-106 | For every requested configuration the constructor works with a positive one in which no round's span overflows 64 bits, and with as many rounds as asked for unless one more would overflow. |
| WheelConfig.MaxTime | public/cpp/tools/tools/tools_time_wheel.h:99-120 | The sum of all rounds' spans, saturating at the 64-bit limit. |
| WheelConfig.TotalIs | public/cpp/tools/tools/tools_time_wheel.h:99-120 | That sum in closed form. |
| WheelRounds.Node.Copy | public/cpp/tools/tools/tools_time_wheel.cpp:507-514 | A copied node has the same timer and cancel flag and is linked nowhere. |
| WheelRounds.Wheel.constructor | public/cpp/tools/tools/tools_time_wheel.cpp:527-542 | An empty round; only round 0 starts before its first slot. |
| WheelRounds.Rounds.constructor | public/cpp/tools/tools/tools_time_wheel.cpp:118-134 | A fresh wheel satisfies the placement invariant with nothing waiting. |
| WheelRounds.Rounds.MakeWheels | public/cpp/tools/tools/tools_time_wheel.cpp:118-134 | Distinct rounds whose slot spans are the precision times the powers of the scale. |
| WheelRounds.Layout.PushOk | public/cpp/tools/tools/tools_time_wheel.cpp:579-581 | Linking in front of a slot keeps every other node's position and successor, and nodes and ids stay in bijection. |
| WheelRounds.Layout.ClearOk | public/cpp/tools/tools/tools_time_wheel.cpp:596-606 | Detaching a slot removes exactly its nodes and ids and leaves all other lists as they were. |
| WheelRounds.Rounds.SlotIndex | public/cpp/tools/tools/tools_time_wheel.cpp:564-565 | The slot index is the due tick's digit of that round. |
| WheelRounds.Rounds.PushSlots | public/cpp/tools/tools/tools_time_wheel.cpp:559-582 | The descent links the node where its due tick first differs from the cursor, with a larger digit, or under the cursor of round 0; the branch that drops a node is never taken. |
| WheelRounds.Rounds.Settle | public/cpp/tools/tools/tools_time_wheel.cpp:559-582 | Placement of all nodes survives linking one more, and exactly that node and its id are added. |
| WheelRounds.Rounds.Insert | public/cpp/tools/tools/tools_time_wheel.cpp:299-311 | The search over rounds accepts exactly the due times below the total span, and adds exactly that timer. |
| WheelRounds.Rounds.AdvancePlacement | public/cpp/tools/tools/tools_time_wheel.cpp:610-633 | With the carry arriving in a round, all nodes outside the ripe bucket are already placed for the next cursor. |
| WheelRounds.Rounds.MoveBucket | public/cpp/tools/tools/tools_time_wheel.cpp:593-608 | Moving a ripe bucket down loses no node and restores the placement of all. |
| WheelRounds.Rounds.ShiftCursor | public/cpp/tools/tools/tools_time_wheel.cpp:610-632 | The cascade through all rounds that wrap ends with every cursor being the base cursor without its low digits and every node placed for it. |
| WheelRounds.Rounds.CursorsAfter | public/cpp/tools/tools/tools_time_wheel.cpp:612-614 | A carry that stops in some round leaves all cursors above it right. |
| WheelRounds.Rounds.EmptyBucket | public/cpp/tools/tools/tools_time_wheel.cpp:623-627 | After a wrap nothing waits in slot 0 of an upper round, so moving it down does nothing. |
| WheelRounds.Rounds.WrappedOut | public/cpp/tools/tools/tools_time_wheel.cpp:615-620 | A wheel of one round that wraps without reading its slot misses no timer due now. |
| WheelRounds.Rounds.MoveCursor | public/cpp/tools/tools/tools_time_wheel.cpp:610-632 | Advancing keeps every node and its placement. |
| WheelRounds.Rounds.TakeDue | public/cpp/tools/tools/tools_time_wheel.cpp:634-666 | Detaching the slot under the cursor takes exactly the nodes consumed by this tick. |
| WheelRounds.Rounds.Advance | public/cpp/tools/tools/tools_time_wheel.cpp:610-667 | One advance takes exactly the nodes of this tick as a list of distinct ids and leaves the others placed for the next. |
| WheelRounds.Rounds.TakeTick | public/cpp/tools/tools/tools_time_wheel.cpp:610-667 | Seen from the waiting timers: the chain holds exactly the entries due in this tick, and all others remain. |
| CallbackQueue.Queue.AppendNodes | public/cpp/tools/tools/tools_time_wheel.cpp:176-211 | A list of nodes is linked whole behind the tail, its last node becomes the tail, and its firings go on record in order; no node changes. |
| CallbackQueue.Queue.Append | public/cpp/tools/tools/tools_time_wheel.cpp:190-211 | Appending one node adds one firing to the history. |
| CallbackQueue.Queue.Take | public/cpp/tools/tools/tools_time_wheel.cpp:434-453 | Popping takes the oldest firing not yet popped and keeps the list well formed. |
| TimeWheel.Impl.constructor | public/cpp/tools/tools/tools_time_wheel.cpp:76-141 | A new wheel stands for the empty calendar. |
| TimeWheel.Impl.FinishNode | public/cpp/tools/tools/tools_time_wheel.cpp:240-248 | The final firing is queued and the id forgotten. |
| TimeWheel.Impl.FireCopy | public/cpp/tools/tools/tools_time_wheel.cpp:284-286 | A copy is queued; the node stays free to be linked again. |
| TimeWheel.Impl.LinkNode | public/cpp/tools/tools/tools_time_wheel.cpp:299-311 | A node not yet due is linked and registered, unless its due time reaches the span. |
| TimeWheel.Impl.ScheduleNode | public/cpp/tools/tools/tools_time_wheel.cpp:254-325 | Scheduling one node, with all its catch-up recursion, queues, links, registers and reports exactly what the calendar says. |
| TimeWheel.Impl.ConsumeNode | public/cpp/tools/tools/tools_time_wheel.cpp:635-664 | A due node is dropped, finished, or copied and kept, as the calendar says. |
| TimeWheel.Impl.ConsumeAll | public/cpp/tools/tools/tools_time_wheel.cpp:634-667 | Consuming a slot's list serves every node once, in whatever order, and returns exactly those to be rescheduled. |
| TimeWheel.Impl.ScheduleLocked | public/cpp/tools/tools/tools_time_wheel.cpp:254-325 | Rescheduling a list does for each id what scheduling it alone would. |
| TimeWheel.Impl.ComposeTick | public/cpp/tools/tools/tools_time_wheel.cpp:380-390 | Consuming, then rescheduling, is one calendar tick, and the registry again holds exactly the ids waiting. |
| TimeWheel.Impl.Tick | public/cpp/tools/tools/tools_time_wheel.cpp:380-390 | One tick on the heap is one tick of the calendar. |
| TimeWheel.Impl.Pass | public/cpp/tools/tools/tools_time_wheel.cpp:352-392 | A woken scheduler consumes exactly the whole ticks missed so far, each as a calendar tick, and ends less than one precision behind the clock. |
| TimeWheel.Impl.AddTimer | public/cpp/tools/tools/tools_time_wheel.cpp:465-494 | Adding refines the calendar's add: id, registry, waiting entry and catch-up firings. |
| TimeWheel.Impl.RemoveTimer | public/cpp/tools/tools/tools_time_wheel.cpp:327-338 | Cancelling marks the flag of a registered id and nothing else. |
| TimeWheel.Impl.PopNode | public/cpp/tools/tools/tools_time_wheel.cpp:430-463 | Popping returns the oldest queued firing whose timer is not cancelled, skipping only cancelled ones. |
| TimeWheel.Impl.Do | public/cpp/tools/tools/tools_time_wheel.cpp:327-494 | A command takes the steps of the calendar that are its own, an add, a cancel, a pop, or as many ticks as its clock says are missed, and answers what they answer. |
| TimeWheel.Impl.Play | public/cpp/tools/tools/tools_time_wheel.cpp:327-494 | Any sequence of commands on a new wheel is played: command by command the run takes the steps of that command and gives its answer, and it ends in the state the wheel stands for. |
| Utf8.DecodeOfEncode | public/cpp/third_party/utf8cpp/utf8/core.h:249-301 | Decoding undoes encoding, whatever follows. |
| Utf8.EncodeOfDecode | public/cpp/third_party/utf8cpp/utf8/core.h:249-301 | What the decoder accepts is the encoding of a valid code point, so no second byte sequence reads as it. |
| Utf8.EncodeIs | public/cpp/third_party/utf8cpp/utf8/core.h:344-369 | The bytes of a code point are those of section 3 of RFC 3629. |
| Utf8.DecodeIs | public/cpp/third_party/utf8cpp/utf8/core.h:249-301 | The decoder accepts exactly the sequences of the syntax in section 4 of RFC 3629: nothing overlong, no surrogates, nothing above 0x10FFFF. |
| Utf8.PointsAreLongestPrefix | public/cpp/third_party/utf8cpp/utf8/core.h:249-301 | On any bytes the code points read are those of the longest well-formed prefix. |
| Utf8.PointsOfEncodeAll | public/cpp/third_party/utf8cpp/utf8/core.h:344-369 | On well-formed text nothing is lost. |
| Suffixes.StateIsLongest | public/cpp/tools/tools/tools_filterword.cpp:79-117 | The state function picks the longest suffix that is in the trie. |
| Suffixes.StateOfAppend | public/cpp/tools/tools/tools_filterword.cpp:79-117 | The next state depends on the old state and the byte only, not on the text read. |
| Suffixes.FailStep | public/cpp/tools/tools/tools_filterword.cpp:98-113 | Where no edge fits, the next state is the one reached from the fail link. |
| Suffixes.MatchesExact | public/cpp/tools/tools/tools_filterword.cpp:247-263 | The naive list holds exactly all occurrences, each once, by end position and then longest first. |
| Suffixes.EndingExact | public/cpp/tools/tools/tools_filterword.cpp:119-139 | The hits ending at a position are exactly the suffixes that are words. |
| Suffixes.EndingByOut | public/cpp/tools/tools/tools_filterword.cpp:130-138 | They are enumerated by jumping from each to the next longest word suffix. |
| Suffixes.ContainsStep | public/cpp/tools/tools/tools_filterword.cpp:141-150 | A byte completes a first occurrence exactly when the longest word suffix after it is not empty. |
| Characters.IsAsciiEmojiSpecial | public/cpp/tools/tools/tools_filterword.cpp:40-48 | Below 0x80 the fast test agrees with the general one. |
| Characters.SpecialBlocks | public/cpp/tools/tools/tools_filterword.cpp:432-480 | Above ASCII the special code points are exactly those of these blocks; no letters are among them. |
| Characters.SpecialAscii | public/cpp/tools/tools/tools_filterword.cpp:432-480 | Within ASCII they are all but letters and digits. |
| Characters.KeptAppend | public/cpp/tools/tools/tools_filterword.cpp:321-356 | What is searched is kept one by one: special code points go, all others stay in order. |
| Characters.SearchedOfValid | public/cpp/tools/tools/tools_filterword.cpp:308-362 | For valid UTF-8 the text searched is the text with exactly the special code points deleted. |
| Characters.SearchedStep | public/cpp/tools/tools/tools_filterword.cpp:321-356 | One character at a time, kept or skipped, up to the first malformed sequence. |
| Automaton.Trie.Shallow | public/cpp/tools/tools/tools_filterword.cpp:204-233 | In breadth-first order every node no deeper than the front of the queue has been reached. |
| Automaton.Trie.WalkStep | public/cpp/tools/tools/tools_filterword.cpp:216-225 | Following a fail link where no edge fits keeps the state sought and strictly loses depth. |
| Automaton.Trie.LinkThroughFail | public/cpp/tools/tools/tools_filterword.cpp:229-229 | The output link copied from the fail node leads to the longest word that is a proper suffix. |
| Automaton.Trie.LinksOfChild | public/cpp/tools/tools/tools_filterword.cpp:209-231 | Fail link, output link and flag of a child are right once all shallower nodes are. |
| Automaton.Trie.FlagOfState | public/cpp/tools/tools/tools_filterword.cpp:230-230 | A state's flag tells whether any loaded word is a suffix of the text read. |
| Automaton.Trie.BuiltIsSane | public/cpp/tools/tools/tools_filterword.cpp:185-234 | A built automaton is sane: links lead to strictly shorter ends of a node's text, output links to words, and a raised flag means a word ends there. |
| Automaton.Trie.GrownSane | public/cpp/tools/tools/tools_filterword.cpp:152-174 | Adding a node to an automaton, built or not, keeps it sane, |
| Automaton.Trie.MarkedSane | public/cpp/tools/tools/tools_filterword.cpp:176-183 | and so does making a node a word, so searches between a load and the next build never report what is not there. |
| Automaton.Trie.EndingOfNode | public/cpp/tools/tools/tools_filterword.cpp:119-139 | A node and its output chain list exactly the words that are its suffixes, longest first. |
| Automaton.Trie.EndingOfLink | public/cpp/tools/tools/tools_filterword.cpp:130-138 | Output links strictly lose depth, so the chain ends. |
| WordFilter.Filter.Init | public/cpp/tools/tools/tools_filterword.cpp:63-69 | The empty automaton is built and has no words. |
| WordFilter.Filter.Load | public/cpp/tools/tools/tools_filterword.cpp:152-183 | Loading adds the pattern to the words and all its prefixes to the trie, and keeps the trie and root table in order; an over-long pattern leaves its path but is never a word. |
| WordFilter.Filter.FindFail | public/cpp/tools/tools/tools_filterword.cpp:213-225 | The walk up the fail links finds the node of the longest proper suffix in the trie. |
| WordFilter.Filter.LinkChildren | public/cpp/tools/tools/tools_filterword.cpp:209-232 | All children of a node are linked, each pushed once. |
| WordFilter.Filter.Build | public/cpp/tools/tools/tools_filterword.cpp:185-234 | Afterwards every node's fail link, output link and flag are what they should be, and the words are unchanged. |
| WordFilter.Filter.AdvanceState | public/cpp/tools/tools/tools_filterword.cpp:79-117 | One byte takes the state of a text to one that stands for an end of the text extended by it, once built for the longest in the trie; an out-of-range state counts as the root. |
| WordFilter.Filter.AppendMatches | public/cpp/tools/tools/tools_filterword.cpp:119-139 | Appends only hits that end here and tells whether there are any; once built exactly all of them, longest first. |
| WordFilter.Filter.Match | public/cpp/tools/tools/tools_filterword.cpp:247-263 | Lists only occurrences of loaded words, whenever it is asked; once built it equals naive search on every text. |
| WordFilter.Filter.FilterText | public/cpp/tools/tools/tools_filterword.cpp:265-280 | Keeps the length and stars only bytes covered by an occurrence; once built exactly those. |
| WordFilter.Filter.FeedAll | public/cpp/tools/tools/tools_filterword.cpp:346-356 | Reading a character's bytes reports a word only when the text read so far holds one; once built, exactly then. |
| WordFilter.Filter.IsFilter | public/cpp/tools/tools/tools_filterword.cpp:308-362 | Yes only when the text without its special characters holds a loaded word; once built, exactly then, although it stops at the first one. |
| Framing.LookStable | public/cpp/tools/serialize/segpack.cpp:166-235 | More bytes change neither a complete frame at the front nor a bad one. |
| Framing.ParseAppend | public/cpp/tools/serialize/segpack.cpp:237-264 | Parsing a stream is parsing a first part, then the rest behind what that left over. |
| Framing.ReceiveIsParse | public/cpp/tools/serialize/segpack.cpp:237-264 | One receive succeeds exactly when no heartbeat in it is followed by anything, and then equals one-shot parsing. |
| Framing.ReceiveBadLength | public/cpp/tools/serialize/segpack.cpp:99-110 | A length that is negative, or not below 8129 from outside the LAN and no robot, is refused and dispatches nothing. |
| Framing.ReceiveEmpty | public/cpp/tools/serialize/segpack.cpp:203-213 | A packet without body is a heartbeat by its protocol and goes nowhere, or is dispatched. |
| Framing.ReceiveBody | public/cpp/tools/serialize/segpack.cpp:214-234 | A packet with a body waits for its bytes, and is dispatched if and only if its clock plus the timeout is ahead of the receiver's. |
| Framing.ReceiveOther | public/cpp/tools/serialize/segpack.cpp:62-97 | What begins with another byte than 0xFF is a command, from the LAN and shorter than 10240 bytes, or fails. |
| Framing.Fragmentation | public/cpp/tools/serialize/segpack.cpp:129-264 | However a stream of acceptable frames is cut, all receives succeed if and only if every heartbeat ends a fragment; then packets and retained tail are those of the uncut stream. |
| Framing.ParseOfWire | public/cpp/tools/serialize/segpack.cpp:166-235 | Parsing undoes sending: frames, heartbeats apart, in order, and the incomplete tail. |
| Framing.WireDelivered | public/cpp/tools/serialize/segpack.cpp:129-264 | Without heartbeats: for every cut every receive succeeds, exactly the timely packets are dispatched in order, and exactly the tail is kept. |
| Framing.BeatThenFrameFails | public/cpp/tools/serialize/segpack.cpp:205-210 | A heartbeat and a frame in one receive fail and lose the frame; in two receives both succeed. |
| Framing.ReceiveRest | public/cpp/tools/serialize/segpack.cpp:237-264 | What a receive keeps is always an incomplete frame. |
| Segpack.PackHead.CheckMask | public/cpp/tools/serialize/pack_head.cpp:106-132 | Whether the mask bytes received so far are all 0xFF. |
| Segpack.PackHead.IsReady | public/cpp/tools/serialize/pack_head.cpp:190-201 | Mask failure, incomplete, or complete. |
| Segpack.PackHead.Push | public/cpp/tools/serialize/pack_head.cpp:218-246 | Takes exactly the bytes the header still lacks, unless the mask already failed. |
| Segpack.PackHead.GetValue | public/cpp/tools/serialize/pack_head.cpp:175-178 | A complete header's slots read as the little-endian integers received. |
| Segpack.LookOfHead | public/cpp/tools/serialize/segpack.cpp:99-122 | What the header alone decides about the front of the stream. |
| Segpack.Pack.Malloc | public/cpp/tools/serialize/pack.cpp:60-102 | A buffer of exactly the size asked for in place of the one there, none for sizes of zero and below. |
| Segpack.Pack.IsReady | public/cpp/tools/serialize/pack.cpp:51-58 | Header complete and at least its announced bytes received. |
| Segpack.Pack.FillPack | public/cpp/tools/serialize/segpack.cpp:129-164 | Copies exactly the missing body bytes that are there. |
| Segpack.Pack.Take | public/cpp/tools/serialize/segpack.cpp:166-235 | Consumes from a fragment what belongs to this packet; the verdict agrees with the ideal front of the stream. |
| Segpack.Receiver.Remnant | public/cpp/tools/serialize/segpack.cpp:43-60 | Takes out the socket's own unfinished packet or a new one; other sockets keep theirs. |
| Segpack.Receiver.DoPush | public/cpp/tools/serialize/segpack.cpp:166-235 | One step on the heap is one step of the ideal receive, in every case. |
| Segpack.Receiver.Push | public/cpp/tools/serialize/segpack.cpp:237-264 | A receive buffer gives exactly the events, tail and verdict of the ideal receive; other sockets are untouched. |
| Segpack.Receiver.ReceiveAll | public/cpp/tools/serialize/segpack.cpp:237-264 | A whole connection of fragments equals the ideal delivery the fragmentation theorem speaks of. |
| Segpack.Receiver.Erase | public/cpp/tools/serialize/segpack.cpp:37-41 | Forgets one socket only. |
| LittleEndian.SignedRoundTrip | public/cpp/tools/serialize/nserialize.h:283-310 | Reading undoes writing for every signed value of any width. |
| LittleEndian.UnsignedRoundTrip | public/cpp/tools/serialize/nserialize.h:389-415 | And for every unsigned value. |
| LittleEndian.PutOfSigned | public/cpp/tools/serialize/nserialize.h:283-310 | Writing undoes reading. |
| LittleEndian.PutAt | public/cpp/tools/serialize/nserialize.h:283-310 | Byte k of a number is its k-th digit to the base 256. |
| LittleEndian.PutNegative | public/cpp/tools/serialize/nserialize.h:283-310 | A negative number is written as its complement. |
| Format.DecodeOfEncode | public/cpp/tools/serialize/nserialize.h:507-947 | For every schema and every value within the size limits, reading what was written gives the value and consumes exactly its bytes, whatever follows. |
| Format.Layout | public/cpp/tools/serialize/nserialize.h:507-947 | What the bytes are: numbers lowest byte first, true as 1, texts and containers behind their length in four bytes, pairs and items one after another. |
| Format.TextLimit | public/cpp/tools/serialize/nserialize.h:507-566 | A text above 102400 bytes is neither written nor read. |
| Format.DecodedIsSound | public/cpp/tools/serialize/nserialize.h:507-947 | Whatever a reader accepts is a value of its type that the writer accepts too. |
| Format.EncodeOfDecode | public/cpp/tools/serialize/nserialize.h:507-947 | For every schema and all bytes a reader accepts: writing the value back gives the same bytes if and only if every boolean byte is at most 1, the items of every set and map came ascending strictly, and those of a hashed container in its iteration order. |
| Format.BoolHasManyEncodings | public/cpp/tools/serialize/nserialize.h:443-467 | Every non-zero byte reads as true, and only 0 and 1 are what a writer puts there. |
| Format.SetHasManyEncodings | public/cpp/tools/serialize/nserialize.h:633-683 | Any two items of a set, of any type and in either order on the wire, read as the same set, which is written in one order only. |
| Format.PlainIsCanonical | public/cpp/tools/serialize/nserialize.h:507-758 | Types without booleans and keyed containers have one encoding for each value. |
| Values.AscendingUnique | public/cpp/tools/serialize/nserialize.h:631-683 | One content has one ascending list, so comparing lists is comparing sets. |
| Values.SortAscends | public/cpp/tools/serialize/nserialize.h:668-682 | Inserting items of different keys one by one, in whatever order, gives an ascending list. |
| Values.ShuffledDistinct | public/cpp/tools/serialize/nserialize.h:838-864 | However a container is iterated, no two of its items share a key. |
| Values.WalkedBack | public/cpp/tools/serialize/nserialize.h:836-897 | Inserting the items in the order they were written gives the container back, hashed or not. |
| Values.InOrderIff | public/cpp/tools/serialize/nserialize.h:633-683 | The items read are written in the same order exactly when they came in the container's own. |
| Serialize.Counter.Count | public/cpp/tools/serialize/nserialize.h:560-947 | The size counted is the length of the encoding. |
| Serialize.Writer.BaseType | public/cpp/tools/serialize/nserialize.h:106-129 | All bytes or none; nothing outside the cursor's span is touched. |
| Serialize.Writer.PushBytes | public/cpp/tools/serialize/nserialize.h:513-537 | A length and bytes are written together or not at all. |
| Serialize.Writer.Push | public/cpp/tools/serialize/nserialize.h:507-947 | A push succeeds if and only if the value is within the limits and its encoding fits; it then writes exactly the encoding, otherwise the cursor is where it was. |
| Serialize.Writer.PushMany | public/cpp/tools/serialize/nserialize.h:571-618 | The same for containers of any schema. |
| Serialize.Then | public/cpp/tools/serialize/nserialize.h:910-927 | Writes one behind another compose, and a failed second one undoes the first's cursor move. |
| Serialize.Reader.BaseType | public/cpp/tools/serialize/nserialize.h:140-163 | Succeeds exactly when enough bytes remain. |
| Serialize.Reader.Pop | public/cpp/tools/serialize/nserialize.h:507-947 | A pop accepts exactly what the format accepts, yields its value with sets and maps in their own order, and moves the cursor by exactly what it used. |
| Serialize.Reader.PopItems | public/cpp/tools/serialize/nserialize.h:656-683 | A container is accepted exactly when all items are and a set or map holds no key twice; the items are then inserted where the container keeps them. |
| Serialize.ArrangedStep | public/cpp/tools/serialize/nserialize.h:670-680 | Inserting one more item is arranging what came before and it, and its key is held exactly when one of those has it. |
| Message.ByteXor | public/cpp/tools/tools/tools_code.cpp:329-357 | The in-place cipher from any, even negative, key position is exclusive or with the repeated key. |
| Message.CipheredTwice | public/cpp/tools/tools/tools_code.cpp:329-357 | Applying it twice is the identity, with any key, on or off. |
| Xor.XorByteBit | public/cpp/tools/serialize/structbytes.h:42-51 | A bit of an exclusive or is set where exactly one of the two is. |
| Message.HeadReadsBack | public/cpp/tools/serialize/pack_head.cpp:52-104 | Every header value set by the sender reads back at the receiver. |
| Message.SetHead | public/cpp/tools/serialize/structbytes.h:145-149 | The header written is that of the route and size. |
| Message.Fill | public/cpp/tools/serialize/structbytes.h:126-142 | Serializes and enciphers into part of a buffer, or fails exactly when it does not fit. |
| Message.ToBytes | public/cpp/tools/serialize/structbytes.h:102-170 | Succeeds exactly when the value is within limits and fits; header, payload and lengths are then right, header embedded or not. |
| Message.Npack | public/cpp/net/net_pack.h:30-63 | Counting, then filling: the pass over the buffer never runs short, and a pack results exactly when the value is sendable and not empty. Its body is the encoding itself for the two exempt protocols, and while the cipher is off or has no key; for any other each byte is the encoding's byte exclusive-or the key byte at its place. |
| Message.PayloadIs | public/cpp/tools/serialize/structbytes.h:42-51 | Which protocols stay plain, and what the bytes of all others are. |
| Message.OpenedIs | public/cpp/tools/serialize/structbytes.h:42-51 | A receiver reads the body of an exempt protocol as it came, and that of any other deciphered. |
| Message.ToStruct | public/cpp/tools/serialize/structbytes.h:64-100 | Opening a received pack yields what the format reads from its body as it came for an exempt protocol, and from its deciphered body for any other. |
| Message.OpenedIsSent | public/cpp/tools/serialize/structbytes.h:64-170 | A frame built for a value opens to that value with its actors and protocol. |
| Message.EndToEnd | public/cpp/net/net_pack.h:30-63 | Messages sent one behind another, cut anywhere on the way, arrive as exactly those messages, in order, with actors and protocol, cipher on or off. |
| Gate.NReady.SetReady | public/cpp/actor/actor_base/core/actor_base.h:103-111 | A check is filed one key above its level, behind the others there. |
| Gate.NReady.HightlevelReady | public/cpp/actor/actor_base/core/actor_base.cpp:43-56 | The lowest key with an unmet check, if any. |
| Gate.NReady.IsReady | public/cpp/actor/actor_base/core/actor_base.cpp:28-41 | Whether no check is unmet. |
| Gate.OwnMessagesPass | public/cpp/actor/actor_base/core/actor_base.h:103-111 | A level passes the gate exactly when all checks of lower levels are met, so staged loading cannot block itself. |
| Mailbox.QueueWarn.IsWarn | public/cpp/actor/actor_base/core/actor.h:62-77 | Warnings sent plus all suppressed counts, reported or pending, equal the overflowing pushes; at most one per gap. |
| Mailbox.PushConserves | public/cpp/actor/actor_base/core/actor.cpp:141-163 | Pushing keeps conservation and per-level order. |
| Mailbox.DispatchConserves | public/cpp/actor/actor_base/core/actor.cpp:220-223 | Dispatching the front of a bucket keeps them. |
| Mailbox.MoveConserves | public/cpp/actor/actor_base/core/actor.cpp:205-240 | Swapping a queue out, or putting the rest back in front, keeps them. |
| Mailbox.PushedIsDoneOrQueued | public/cpp/actor/actor_base/core/actor.cpp:133-285 | Every message has been pushed as often as it was dispatched plus as often as it is still queued. |
| Mailbox.Actor.HightValue | public/cpp/actor/actor_base/core/actor.cpp:124-131 | The most urgent priority waiting. |
| Mailbox.Actor.Push | public/cpp/actor/actor_base/core/actor.cpp:133-180 | Files the message behind its equals, keeps both depth counters equal to the queue sizes, counts an overflow exactly when the new depth exceeds the limit, and reports a new most urgent priority or readiness. |
| Mailbox.PushUrgent | public/cpp/actor/actor_base/core/actor.cpp:141-163 | Told from the priorities of the messages: a push of a priority waits behind those of its own priority and answers whether it is more urgent than every priority message waiting; a normal one answers whether no check is unmet. |
| Mailbox.SliceUrgent | public/cpp/actor/actor_base/core/actor.cpp:202-283 | Told from the priorities of the messages: a slice handles first messages with a priority below the gate, the more urgent earlier, and then only normal ones. |
| Mailbox.BucketLevel | public/cpp/actor/actor_base/core/actor.cpp:141-149 | Every bucket holds messages of its own priority only. |
| Mailbox.Actor.Interfere | public/cpp/actor/actor_base/core/actor.cpp:133-180 | Pushes that get in between two steps of a slice arrive, all of them and in order. |
| Mailbox.Actor.Dispatch | public/cpp/actor/actor_base/core/actor.cpp:220-223 | While a handler runs, exactly the pushes made by it or by others arrive, in order, and conservation holds. |
| Mailbox.Actor.ReturnHigh | public/cpp/actor/actor_base/core/actor.cpp:232-239 | What the gate held back goes in front of what arrived meanwhile, order kept. |
| Mailbox.Actor.HighPhase | public/cpp/actor/actor_base/core/actor.cpp:202-240 | Exactly the whole buckets below the gate are dispatched, most urgent first, in push order. |
| Mailbox.Actor.NormalPhase | public/cpp/actor/actor_base/core/actor.cpp:249-283 | As many messages from the front of the normal queue as weight and time allow are dispatched; the rest goes back in front of exactly what others pushed after the swap, during every handler and before the rest goes back. |
| Mailbox.Actor.ListEmpty | public/cpp/actor/actor_base/core/actor.cpp:78-104 | Answers whether nothing may run under the gate. |
| Mailbox.Actor.ActorHandle | public/cpp/actor/actor_base/core/actor.cpp:199-285 | A slice pushes exactly what the script says up to where it gets, keeps conservation, runs every priority message the gate lets pass and none other, and while ready as many normal ones as weight and time allow, also of those pushed meanwhile; it states what is left in the normal queue. |
| Mailbox.SliceWorks | public/cpp/actor/actor_base/core/actor.cpp:78-104 | With a stable gate, a positive budget and no push at its start, a slice dispatches something exactly when the mailbox was not idle. |
| Mailbox.SliceLeaves | public/cpp/actor/actor_base/core/actor.cpp:202-240 | A slice leaves at each priority what the gate held back and behind it what was pushed meanwhile. |
| Mailbox.Actor.Serve | public/cpp/actor/actor_base/core/actor.cpp:133-285 | A new mailbox under any sequence of pushes and slices runs event by event as pushing and slicing say; it has been pushed exactly what the events push, in order, and has done what the slices report; every level's pushes are its dispatched messages followed by those queued, every message has been pushed as often as handled plus queued, the more urgent messages of a slice run earlier and none at or above its gate, and depths and overflows are accounted for. |
| Mailbox.RunHistory | public/cpp/actor/actor_base/core/actor.cpp:133-285 | At every point of a run the history pushed is that of the events and their scripts, and the history done is what the slices handled. |
| Mailbox.QuietSlices | public/cpp/actor/actor_base/core/actor.cpp:199-285 | From any state of any run, n slices with the gate open and in time, during which nothing is pushed, handle all priority messages and n times the weight of normal ones. |
| Mailbox.AllHandled | public/cpp/actor/actor_base/core/actor.cpp:199-285 | Nothing starves: after enough of them every message ever pushed has been handled as often as it was pushed. |
| Mailbox.DispatchedSome | public/cpp/actor/actor_base/core/actor.cpp:215-231 | The first phase dispatches something exactly when some waiting priority passes the gate. |
| PoolState.Config.BucketOf | public/cpp/tools/serialize/socket_pool.h:274-290 | The bucket computed from the bit width is the smallest that fits the request. |
| PoolState.State.OnePlace | public/cpp/tools/serialize/socket_pool.h:194-370 | Every live block is in exactly one place: with a client, or once in one cache, pending queue, or thread's hand. |
| PoolState.State.CarryOwnerSlot | public/cpp/tools/serialize/socket_pool.h:343-366 | Cached and pending blocks carry the slot of the thread they wait at. |
| PoolState.State.StepKeeps | public/cpp/tools/serialize/socket_pool.h:194-370 | A step that puts the threads it touches in order keeps the pool in order, whatever the others are doing. |
| PoolState.State.GiveKeeps | public/cpp/tools/serialize/socket_pool.h:355-366 | Handing a block to its owner's pending queue keeps it so. |
| PoolState.State.CacheKeeps | public/cpp/tools/serialize/socket_pool.h:206-215 | So does caching it, |
| PoolState.State.DrainKeeps | public/cpp/tools/serialize/socket_pool.h:199-204 | taking over a pending queue, |
| PoolState.State.PopKeeps | public/cpp/tools/serialize/socket_pool.h:228-232 | trimming, |
| PoolState.State.TakeKeeps | public/cpp/tools/serialize/socket_pool.h:298-305 | and taking a block out of a cache. |
| PoolState.State.CountMore | public/cpp/tools/serialize/socket_pool.h:245-257 | The counter stays the number of blocks clients hold when one more is handed out. |
| PoolState.State.CountLess | public/cpp/tools/serialize/socket_pool.h:259-265 | And when one is given back. |
| BufferPool.Pool.Register | public/cpp/tools/serialize/socket_pool.h:115-131 | A thread gets the next slot once, while there is one. |
| BufferPool.Pool.MallocBegin | public/cpp/tools/serialize/socket_pool.h:267-292 | A request for no bytes gets none and changes nothing; a pooled one sets out for the smallest fitting bucket, an oversized one gets a block of its own. |
| BufferPool.Pool.DrainBegin | public/cpp/tools/serialize/socket_pool.h:196-204 | The pending queue is taken over whole, leaving clients' blocks alone. |
| BufferPool.Pool.DrainOne | public/cpp/tools/serialize/socket_pool.h:206-215 | A block taken over reaches the back of the bucket its header names. |
| BufferPool.Pool.CutLast | public/cpp/tools/serialize/socket_pool.h:228-232 | The newest block of a bucket is deleted, and nothing else changes. |
| BufferPool.Pool.Trim | public/cpp/tools/serialize/socket_pool.h:218-235 | A bucket over three times what clients hold is cut to its oldest blocks, twice what clients hold; the others are deleted. |
| BufferPool.Pool.Take | public/cpp/tools/serialize/socket_pool.h:298-309 | The block taken is the newest of the bucket, and nothing is allocated, while the bucket has one; else it is new. It has its bucket's size. |
| BufferPool.Pool.Deliver | public/cpp/tools/serialize/socket_pool.h:303-304 | The client gets a block no client held, and the counter goes up. |
| BufferPool.Pool.FreeBegin | public/cpp/tools/serialize/socket_pool.h:333-344 | The counter goes down, or an oversized block is deleted. |
| BufferPool.Pool.FreeEnd | public/cpp/tools/serialize/socket_pool.h:346-369 | The block ends in the own cache, in its owner's pending queue, or deleted, as its slot says. |
| BufferPool.Pool.Do | public/cpp/tools/serialize/socket_pool.h:267-370 | Any step of any thread is taken as its relation says if the thread is where it can take it, and otherwise changes nothing; the pool stays in order, and the clients' blocks change by exactly what the step answers. |
| BufferPool.Pool.Run | public/cpp/tools/serialize/socket_pool.h:267-370 | Any schedule is a run of these steps, with their answers; clients hold exactly what was handed out and not taken back, as many distinct blocks as there were such steps: no two live allocations share one. |
| PoolSteps.StepAccounts | public/cpp/tools/serialize/socket_pool.h:267-370 | A step hands out what no client held, takes back what one did, and leaves every other client's block where it is, with its size. |
| PoolSteps.RunHolders | public/cpp/tools/serialize/socket_pool.h:267-370 | Over every run from a pool without clients: clients hold exactly what the answers so far gave them and did not take back. |
| PoolSteps.Balance | public/cpp/tools/serialize/socket_pool.h:267-370 | They are as many distinct blocks as were handed out less those given back. |
| PoolSteps.HandedOnce | public/cpp/tools/serialize/socket_pool.h:267-370 | Over every run: a block is handed out twice only if it was given back in between. |
| PoolSteps.HeldUntilTaken | public/cpp/tools/serialize/socket_pool.h:267-370 | Over every run: a block handed out stays its client's, with the same header, until it is given back, whatever the threads do. |
| PoolSteps.RequestMet | public/cpp/tools/serialize/socket_pool.h:267-309 | Over every run: the block a thread is handed for a request has at least the bytes asked for, whatever it drained or trimmed and whatever others did meanwhile. |
| PoolSteps.OversizedMet | public/cpp/tools/serialize/socket_pool.h:283-290 | An oversized request gets a block of its size at once. |
| PoolSteps.PickReuses | public/cpp/tools/serialize/socket_pool.h:297-309 | In every state: a thread takes the newest block of its bucket and makes a new one only when the bucket is empty. |
| PoolSteps.OwnBlockReused | public/cpp/tools/serialize/socket_pool.h:267-370 | Over every run: a thread that gives back a block of its own and next asks for one of the same bucket is handed that very block, whatever other threads do meanwhile. |
| PoolSteps.OthersLeave | public/cpp/tools/serialize/socket_pool.h:194-370 | What one thread has in its caches and in hand is left alone by every step of another. |
| PoolSteps.Progress | public/cpp/tools/serialize/socket_pool.h:267-370 | No thread is ever stuck: in every state each has a step it can take. |
| MergeArea.NextVisitStamp | public/cpp/actor/tab/ttab_mergearea.h:71-80 | A stamp no slot carries, even when the 32-bit counter wraps. |
| MergeArea.Visit | public/cpp/actor/tab/ttab_mergearea.h:82-112 | The walk ends on every table; its path holds no area twice and none resolved before, and ends at a resolved area, in a cycle, of whose path the least area becomes the root, or where nothing follows. |
| MergeArea.PaintResolves | public/cpp/actor/tab/ttab_mergearea.h:114-118 | Giving the whole path that root keeps all roots consistent. |
| MergeArea.ResolveMergeid | public/cpp/actor/tab/ttab_mergearea.h:82-119 | Roots found stay, the area asked for is resolved unless it is the sentinel, and the path is new. |
| MergeArea.FillDirect | public/cpp/actor/tab/ttab_mergearea.h:65-69 | The direct table holds each area's last row. |
| MergeArea.MergeTable.Reload | public/cpp/actor/tab/ttab_mergearea.h:53-131 | Merge ids and lists are those of the roots exactly when no list is kept for the sentinel, and one is kept exactly when the rows say so (`SentinelFails`), never without a row for it; then an area's merge id is the end of its chain or, if that runs into a cycle, the least area on the chain of the first row it meets, every row's area is in the list of its merge id and no area is visited twice in the whole reload. |
| MergeArea.CycleIsFirst | public/cpp/actor/tab/ttab_mergearea.h:94-99 | A visit that runs into its own path has met no earlier row, its path is its whole chain, and the least area of it becomes the root of all. |
| MergeArea.LeastOfCycle | public/cpp/actor/tab/ttab_mergearea.h:94-99 | When the first row that meets a cycle lies on it, that is the least area of the cycle. |
| MergeArea.TargetIsLast | public/cpp/actor/tab/ttab_mergearea.h:65-69 | The last row of an area decides where it merges into. |
| MergeArea.SentinelRowFails | public/cpp/actor/tab/ttab_mergearea.h:86-94 | A row that merges the sentinel nowhere cannot be served by any roots, merge ids and lists, however they are computed. |
| MergeArea.SentinelRow | public/cpp/actor/tab/ttab_mergearea.h:121-129 | A table that meets the condition: one row that merges the sentinel into itself. |
| MergeArea.SentinelCycle | public/cpp/actor/tab/ttab_mergearea.h:88-112 | Another, in which the sentinel merges into an area: its chain runs into a cycle of two areas above it. |
| MergeArea.UnmetIffApart | public/cpp/actor/tab/ttab_mergearea.h:88-112 | The visit of the sentinel meets nothing resolved before exactly when its chain is apart from the chains of all earlier rows. |
| MergeArea.RootAlongChain | public/cpp/actor/tab/ttab_mergearea.h:84-112 | Walking on does not change the root; a chain that ends has its last area as root. |
| MergeArea.SameRootIffMeets | public/cpp/actor/tab/ttab_mergearea.h:82-119 | Two areas share a root exactly when their merge entries lead to a common area, cycles included. |
| MergeArea.MergeIdOfRoot | public/cpp/actor/tab/ttab_mergearea.h:160-163 | Roots are idempotent. |
| MergeArea.MergeIdShared | public/cpp/actor/tab/ttab_mergearea.h:160-163 | An area and the one it merges into have the same merge id. |
| MergeArea.ListsPartition | public/cpp/actor/tab/ttab_mergearea.h:155-158 | The merge lists are pairwise disjoint and each row's area is in the list of its root. |
| Digest.FoldAppend | public/cpp/tools/tools/tools_hash.cpp:355-378 | Folding the block function over joined whole blocks is folding one after the other. |
| Digest.CountAdd | public/cpp/tools/tools/tools_hash.cpp:357-364 | The two 32-bit counters hold the bit count modulo 2^64 after any chunk: the carry is found by comparing. |
| Digest.FirstBlock | public/cpp/tools/tools/tools_hash.cpp:367-370 | A chunk that completes the buffered block runs the function over the right 64 bytes. |
| Digest.Context.Update | public/cpp/tools/tools/tools_hash.cpp:355-378 | After any chunks the state covers all whole blocks fed and the buffer begins with the rest. |
| Digest.LengthOf | public/cpp/tools/tools/tools_hash.cpp:385-388 | The counters written out are the length field, in either byte order. |
| Digest.PaddedIs | public/cpp/tools/tools/tools_hash.cpp:380-397 | The padded message, byte by byte: the text, 0x80, zeros, the number of bits in eight bytes; the fewest blocks that hold it. |
| Digest.EmitAt | public/cpp/tools/tools/tools_hash.cpp:399-403 | Every byte of the digest, from the words of the state. |
| Digest.Context.FinishSha | public/cpp/tools/tools/tools_hash.cpp:380-403 | Padding byte by byte gives the fold over the padded message (section 4 of RFC 3174). |
| Digest.Context.FinishMd5 | public/cpp/tools/tools/tools_hash.cpp:86-108 | Padding in one piece gives the fold over the padded message (sections 3.1 and 3.2 of RFC 1321). |
| Digest.Context.Finish | public/cpp/tools/tools/tools_hash.cpp:380-397 | Either way the digest is the hash of everything fed. |
| Digest.DigestOf | public/cpp/tools/tools/tools_hash.cpp:405-413 | However a text is cut, its digest is the hash of the whole. |
| Digest.PadSwap | public/cpp/tools/tools/tools_hash.cpp:448-452 | Turning the outer pad into the inner one in place gives the inner pad. |
| Digest.HmacRaw | public/cpp/tools/tools/tools_hash.cpp:426-461 | Equals the nested construction of section 2 of RFC 2104 for every key length. |
| Digest.HmacIs | public/cpp/tools/tools/tools_hash.cpp:426-461 | That construction in full: key hashed when longer than a block, zeros, exclusive-or 0x36 inside and 0x5C outside. |
| Varint.ZigZagRoundTrip | public/cpp/tools/tools/tools_code.cpp:26-46 | Every signed value of 32 or 64 bits survives zigzag. |
| Varint.ZigZagIs | public/cpp/tools/tools/tools_code.cpp:26-46 | Zero and above become their doubles, negative values the odd numbers between. |
| Varint.GroupsAt | public/cpp/tools/tools/tools_code.cpp:204-222 | Byte k holds the k-th seven bits, with the top bit while others follow. |
| Varint.GroupsLeast | public/cpp/tools/tools/tools_code.cpp:204-222 | No byte is spent on leading zeros. |
| Varint.RawEnds | public/cpp/tools/tools/tools_code.cpp:225-293 | The decoder reads up to the first byte whose top bit is clear, and fails without one. |
| Varint.UnZigZagRoundTrip | public/cpp/tools/tools/tools_code.cpp:26-46 | And every unsigned one is reached. |
| Varint.EncodeGroups | public/cpp/tools/tools/tools_code.cpp:204-222 | The loop writes the whole encoding if and only if it fits, and touches nothing behind it. |
| Varint.Encode | public/cpp/tools/tools/tools_code.cpp:161-223 | With varints on or off, 32 or 64 bits. |
| Varint.Decode | public/cpp/tools/tools/tools_code.cpp:225-293 | What the decoder makes of arbitrary bytes. |
| Varint.DecodeOfEncode | public/cpp/tools/tools/tools_code.cpp:161-293 | Decoding undoes encoding for every value, whatever bytes follow, and uses exactly the bytes written. |
| Varint.Length32 | public/cpp/tools/tools/tools_code.cpp:146-159 | Is the number of bytes the encoder writes. |
| Varint.Ladder64Exact | public/cpp/tools/tools/tools_code.cpp:126-144 | The 64-bit length is right if and only if no bit above its 48-bit masks is set alone. |
| Varint.Length64 | public/cpp/tools/tools/tools_code.cpp:126-144 | What it returns for every value, and the same condition for its being the number of bytes the encoder writes. |
| Varint.Length64Fails | public/cpp/tools/tools/tools_code.cpp:133-135 | A value whose 64-bit length comes out as one byte although more are written. |
| Base64.Enc | public/cpp/tools/tools/tools_base.cpp:69-103 | Writes exactly the encoding of section 4 of RFC 4648, of the announced size. |
| Base64.AlphaIs | public/cpp/tools/tools/tools_base.cpp:30-34 | The letters are those of table 1 of RFC 4648. |
| Base64.InvIs | public/cpp/tools/tools/tools_base.cpp:36-56 | No other byte is read as a letter. |
| Base64.QuadIs | public/cpp/tools/tools/tools_base.cpp:69-103 | Four letters hold the 24 bits of three bytes, highest first. |
| Base64.Dec | public/cpp/tools/tools/tools_base.cpp:105-152 | Decodes exactly the letters before the first other byte, whatever the quad buffer held before, into a buffer that holds what they decode to. |
| Base64.DecFits | public/cpp/tools/tools/tools_base.cpp:64-67 | What a text decodes to fits into the bytes `base64_decode` allots if and only if the letters before its first other byte come to at most one more than its whole quads. |
| Base64.EncodingFits | public/cpp/tools/tools/tools_base.cpp:64-103 | Every encoding meets that. |
| Base64.UnpaddedOverflows | public/cpp/tools/tools/tools_base.cpp:295-306 | A text that does not: three letters without padding. |
| Base64.RoundTrip | public/cpp/tools/tools/tools_base.cpp:69-152 | Decoding undoes encoding for every byte string. |
| Base64.StaleTail | public/cpp/tools/tools/tools_base.cpp:137-146 | Stale places of the last quad do not affect the bytes written. |

## Left out

Timer wheel

- TimeWheel.Impl.Tick: the base cursor is a 32-bit integer in the source, so ticks are bounded by a precondition; other 64-bit sums of times are unbounded integers, and only the configuration's overflow is proved absent.
- TimeWheel.Impl.RemoveTimer: operations are atomic here. In the source add, cancel and tick hold the wheel's lock; the cancel flag is an atomic of its own; `addtimer` reads the clock before it takes the lock, which the free parameter `clock` covers.
- TimeWheel.Impl.PopNode: the source unlinks a node under the callback queue's own lock and reads its cancel flag after releasing it; a pop here takes effect when it reads the flag, and pops between two callbacks of one tick are not steps of the model.
- TimeWheel.Impl.FinishNode: a queued node is only unlinked when popped; freeing nodes, and the rejected node that `remove` and `addtimer` both own, are not modelled.
- WheelRounds.Rounds.MoveBucket: the list is detached before it is walked, where the source clears the slot at the end; neighbouring rounds are found by index instead of by stored pointers.
- Calendar.OneShotFiresOnce: what a callback does, the callback thread and its semaphore, and the destructor are not part of this model; the policy of a repeating timer is a pure function of the wheel clock.

Word filter

- WordFilter.Filter.Match: positions and node numbers are unbounded integers; between a load and the next build its answers are proved true but not complete.
- WordFilter.Filter.Build: the source first grows the output links to the number of nodes; they always are that long.
- `check_name`, `charcount` and the UTF-32 conversions: single loops over code points.

Framing and serialization

- Segpack.Receiver.Push: rate limiting is left out (an unlimited budget); `push(nullptr, 0)` is `Receiver.Erase`; a telnet command is an event with its text, its execution is not modelled.
- Framing.Look: the sum of a packet's send time and the timeout does not wrap, where the source adds 32-bit integers.
- Segpack.Pack.Malloc: memory is never refused.
- Format.DecodeOfEncode: a protobuf message is its encoded bytes; the host is little-endian, so its raw integer bytes are the wire format.
- Values.Arranged: a hashed map has no order of its own; it is named here by the ascending list of its items, and its iteration order is some function of that content, where the standard library may also let the history decide.
- Values.SameKey: keys are the same when neither comes before the other, so +0.0 and -0.0 are one key; a NaN key, for which `<` is no order, is not part of this model.
- Serialize.Reader.PopItems: `reserve` for a count the bytes cannot hold may throw in the source; here the pop fails when the bytes run out.
- Serialize.Counter.Count: the count is an unbounded integer; the source's 32-bit count is reached by `Npack`, which requires the size to fit.
- Serialize.Reader.Pop: after a failed pop the cursor is wherever it got to, as in the source, and nothing is said about it.
- Message.ToStruct: it deciphers in place, so a pack can be opened once.
- Hexadecimal text (`to_hex`, `to_bytes`) and the pointer forms of `serialize_format`: easy.

Mailbox

- Mailbox.Actor.ActorHandle: `release`, which drops what gate or weight held back, is left out; a slice's log line about its weight too.
- Mailbox.QueueWarn.IsWarn: counters do not wrap.
- Gate.NReady.HightlevelReady: the answers of the checks are fixed while one scan runs, and no check is registered during a slice.

Buffer pool

- BufferPool.Pool.Run: threads live forever; operations are split at atomics and critical sections, and the model allows more interleavings than the source, such as several drains in one request or none.
- BufferPool.Pool.MallocBegin: memory is never refused.
- BufferPool.Pool.FreeBegin: only blocks clients hold are given back; the header's magic number, which guards against others, is not modelled.
- PoolState.State.Counts: of the statistics only the per-bucket number of allocated blocks is modelled.

Digests and codecs

- Digest.Hash: the block functions of MD5 and SHA-1 are parameters.
- Digest.Context.FinishMd5: the flag that makes a second `finalize` do nothing, and wiping the context, are left out; lengths passed to MD5 as 32-bit integers are unbounded here.
- Varint.Decode: seven-bit groups shifted past the width, undefined in C++ and reached by malformed input only, lose their bits here.
- Base64.Dec: writing past the caller's buffer is not modelled, so the buffer must hold what is decoded; `Base64.DecFits` says for which texts the buffer of the source's caller does.

Everything else of the repository: sockets and transports, databases, scripts, code generators, the administration pages and plain configuration tables, which do input and output or hold no state worth a proof.
