# OSCL containers, timers and shared buffers

This project models the parts of the OSCL portability layer that hold state and
proves what they promise. Each class below has the fields of the original, its
methods follow the original's branches and writes, and each method is proved
against a function or a predicate on values; further lemmas are about those.

* **Ordered map** (`RbLinks`, `RbColors`, `RbSteps`, `RbClone`, `RbSearch`,
  `RbBase`, `RbTree`, `SortedMap`, `MapRuns`, `OsclMap`). A red-black tree of
  node objects with a header sentinel. `Sync` ties the real fields to a snapshot
  `mem` that adds each node's position, the range its subtree covers and its
  black height; `Shaped` says the links form one tree with a given in-order
  sequence of nodes; `RedBlack` is the colour discipline; `Ends` is about the
  header's minimum, maximum and root; `Sound` is all of them. Keys are ordered
  by any strict weak order.
* **Timer multiplexer** (`TimerSpec`, `TimerRuns`, `TimerLaws`, `TimerDrift`,
  `OsclTimer`).
  A callback is an arbitrary finite list of requests and cancels. The ghost set
  `live` holds the allocated entries; `Ledger` says each is in exactly one of
  the three vectors. The scheduler's timer object is a flag, whether a wakeup is
  pending, and the delay last asked for.
* **Tag tree** (`TagOrder`, `TagSpec`, `TagCopy`, `TagSort`, `OsclTagTree`).
  The node map is the sorted contents that `OsclMap` is proved to keep.
  `State.vals` is the tag-to-value map and `State.worn` the stored tags whose
  node lists a child.
* **Media fragments** (`FragSpec`, `OsclMediaData`). Parallel arrays of
  fragments and buffers, shared reference-counted buffers, and a local buffer
  given out from the front.
* **Reference counters and handles** (`HandleSpec`, `OsclHandles`,
  `RefProtocol`). Counters, shared pointers and counted fragments in any number,
  each a program variable or a part of a tracked buffer, which takes the handles
  in it along when it goes. The ghost `Heap` mirrors all of them in the value
  `st`; a method may read or write only what is there. The locked counters are a
  state machine over single steps of any number of threads.
* **UUID text** (`UuidText`, `OsclUuid`). The parsing constructor with its
  cursors.

Some bodies are declared but not defined in the headers modelled here. The
rotations, `rebalance` and `rebalance_for_erase` are written out as the standard
algorithm, one for both sides, and what the tree relies on is proved of them.
`tag_ancestor` drops the last dotted component and `tag_depth` counts how often
that can be done. `PV_atoi` is any function that decodes a string of hexadecimal
digits of the given length; nothing is known of it otherwise. `RunIfNotReady`
does what its comment says: nothing when a wakeup is already pending.

A method that follows a function of the specification is only as good as that
function, so each such function has laws of its own, stated of the entries, tags,
handles, counts or bytes themselves: `TimerLaws`, `TimerDrift.OutOfBand` and
`RestartRun`, `TagSpec.RunStores` and `EraseIs`, `FragSpec.PlaceIs`, the `...Is`
and `...Count` lemmas of `HandleSpec`, `RefProtocol.CallsCounted`,
`MapRuns.RunRefines` and `InsertAllIs`, `UuidText.AlikeIff`.

Where behaviour differs from what one might expect, the code is followed and the
difference is stated exactly: recurring requests made in callbacks
(`QueuedAsDirectIff`), the full period waited after them (`ReplayedDelayIff`),
recurring timers without a positive period (`SpentFires`), what destruction
during a tick leaves allocated (`Timer.Destroy`), tags that stay after their last
child (`EraseIff`, `RunWorn`, `WornOut`), a tag tree assigned to itself
(`TagTree.Assign`), the guard of `AddFragment` (`GuardMisses`), handles assigned
from inside the object they are the last to hold (`AssignSafeIff`,
`NextOfLastFails`), handles with equal objects and different counters
(`SharedPtr.Bind`), and UUID fields that are too wide (`WideFieldIsCut`).

`SeqEdits` and `Words` hold the vector edits and the 32-bit conversions that
several parts share.

## Model

| member | source | states |
|---|---|---|
| `RbLinks.RotShaped` | app/jni/oscl/oscl_tree.h:316-317 | A rotation, on either side, keeps the links one binary tree with the same nodes in the same order. |
| `RbBase.Base.Rotate` | app/jni/oscl/oscl_tree.h:316-317 | The pointer writes of a rotation do exactly that to the real nodes, root link included. |
| `RbBase.Base.Rebalance` | app/jni/oscl/oscl_tree.h:318 | From a tree that is a red-black tree but for a new red node, to a red-black tree with the same nodes and order, black root, right header links. |
| `RbBase.Base.RebalanceForErase` | app/jni/oscl/oscl_tree.h:319-322 | The node asked for is the one returned; the in-order sequence of node identities loses it alone; the rest is again a red-black tree whose header links are right. |
| `RbBase.Base.RepairShort` | app/jni/oscl/oscl_tree.h:319-322 | The repair walk after a black node was unlinked ends with all black counts right and touches neither order nor header ends. |
| `RbSteps.HeightBound` | app/jni/oscl/oscl_tree.h:318-322 | No node of a sound tree with n nodes is deeper than 2 log2(n + 1). |
| `RbSteps.HeaderKnown` | app/jni/oscl/oscl_tree.h:168-173 | In a non-empty sound tree "red and its own grandparent" singles out the header, which is what -- tests. |
| `RbSteps.HeaderTestIff` | app/jni/oscl/oscl_tree.h:168-173 | Whatever the colours, the root passes that test exactly when it is red, so the test is right exactly when the root is black. |
| `RbBase.Base.Next` | app/jni/oscl/oscl_tree.h:138-158 | ++ gives the in-order successor, and the header after the last node, also when the root is the last. |
| `RbBase.Base.Prev` | app/jni/oscl/oscl_tree.h:168-192 | -- gives the in-order predecessor, and the last node from the header: it undoes ++ at every position. |
| `RbBase.Base.Minimum` | app/jni/oscl/oscl_tree.h:69-76 | minimum is the first node in order below x. |
| `RbBase.Base.Maximum` | app/jni/oscl/oscl_tree.h:77-84 | maximum is the last node in order below x. |
| `RbBase.Base.Attach` | app/jni/oscl/oscl_tree.h:758-788 | The link writes of insert, header ends included, put z at one position of the order, and rebalancing keeps the tree sound. |
| `RbClone.CopySound` | app/jni/oscl/oscl_tree.h:801-828 | A set of clones with cloned links is itself a sound tree in the same order and colours. |
| `RbBase.Base.Copy` | app/jni/oscl/oscl_tree.h:801-828 | copy(x, p): new nodes only, one for each node below x, with the same colours, items and mutual links, the top hanging on p. |
| `RbBase.Base.CopyAll` | app/jni/oscl/oscl_tree.h:363-381 | The copy under a fresh header has the same shape, colours, keys and values position by position, and right minimum, maximum and root links. |
| `RbTree.Tree.constructor` | app/jni/oscl/oscl_tree.h:353-361 | An empty tree: the header is red and is its own leftmost and rightmost. |
| `RbTree.Tree.Begin` | app/jni/oscl/oscl_tree.h:416-431 | begin() is the first node in order, or end() when there is none. |
| `RbTree.Tree.LowerBound` | app/jni/oscl/oscl_tree.h:602-618 | The first position whose key is not less than k. |
| `RbTree.Tree.UpperBound` | app/jni/oscl/oscl_tree.h:638-654 | The first position whose key is greater than k. |
| `RbTree.Tree.Find` | app/jni/oscl/oscl_tree.h:562-576 | end() exactly when no key is equivalent to k, else the one position that holds it. |
| `RbTree.Tree.EqualRange` | app/jni/oscl/oscl_tree.h:674-682 | From the lower bound, one element if k is present and none if not. |
| `SortedMap.BoundsMeet` | app/jni/oscl/oscl_tree.h:602-682 | Any lower and any upper bound of k in a sorted sequence are equal or, if k is present, one apart. |
| `RbTree.Tree.Distance` | app/jni/oscl/oscl_tree.h:861-877 | The walk by ++ from first to last takes exactly as many steps as their positions differ, so it ends. |
| `RbTree.Tree.Count` | app/jni/oscl/oscl_tree.h:594-600 | 1 exactly when find(k) is not end(), else 0. |
| `RbTree.Tree.Insert` | app/jni/oscl/oscl_tree.h:758-788 | At a place that fits the key, the contents gain the pair at its sorted position and no other node moves in the order. |
| `RbTree.Tree.InsertUnique` | app/jni/oscl/oscl_tree.h:445-468 | Sorted insertion unless an equivalent key is there, in which case nothing changes; the node returned is the one at that key, and the flag says which happened. |
| `RbTree.Tree.InsertHint` | app/jni/oscl/oscl_tree.h:470-503 | With every hint position, begin(), end() and the empty tree included: the same contents and the same returned position as insert_unique. |
| `RbTree.Tree.Hint` | app/jni/oscl/oscl_tree.h:470-503 | Where the hint is taken, the slot chosen is free and lies where the key sorts. |
| `RbSearch.NeighbourGap` | app/jni/oscl/oscl_tree.h:489-498 | Of two neighbours in order, the left one has no right child or the right one has no left child. |
| `RbTree.Tree.InsertAll` | app/jni/oscl/oscl_tree.h:511-515 | A run of insert_unique over an array of pairs. |
| `MapRuns.InsertAllIs` | app/jni/oscl/oscl_tree.h:511-515 | After it everything that was there is there, and of the pairs with equivalent keys the first one, if that key is new; in ascending order. |
| `RbTree.Tree.EraseAt` | app/jni/oscl/oscl_tree.h:517-526 | erase(position) takes that entry alone; all other nodes stay, with their identities and order. |
| `RbTree.Tree.EraseRange` | app/jni/oscl/oscl_tree.h:537-543 | erase(first, last) takes exactly the entries between them, by clear() when that is everything. |
| `RbTree.Tree.EraseKey` | app/jni/oscl/oscl_tree.h:528-535 | Returns whether the key was there, as a count, and removes it alone. |
| `RbTree.Tree.EraseWithoutRebalance` | app/jni/oscl/oscl_tree.h:790-799 | Recursing right and looping left frees every node of a subtree, each while it is still allocated, hence once. |
| `RbTree.Tree.Clear` | app/jni/oscl/oscl_tree.h:550-560 | Only the header stays allocated, with the links of an empty tree. |
| `RbTree.Tree.Copy` | app/jni/oscl/oscl_tree.h:363-381 | The copy constructor: disjoint nodes, same form, same contents. |
| `RbTree.Tree.Assign` | app/jni/oscl/oscl_tree.h:389-413 | operator=: nothing on self-assignment, else a fresh copy of the same form, and the source is unchanged. |
| `RbTree.Tree.Destroy` | app/jni/oscl/oscl_tree.h:383-387 | The destructor leaves no node allocated. |
| `OsclMap.Map.Subscript` | app/jni/oscl/oscl_map.h:202-205 | operator[] inserts the default object exactly when no equivalent key is there, and denotes the value at the key. |
| `OsclMap.Map.SubscriptAssign` | app/jni/oscl/oscl_map.h:202-205 | m[k] = v: only the value at k changes, or one entry is added. |
| `OsclMap.Map.Walk` | app/jni/oscl/oscl_map.h:152-172 | From begin(), i increments reach position i, and reach end() exactly when i is the number of entries. |
| `OsclMap.Map.EraseAt` | app/jni/oscl/oscl_map.h:234-237 | erase(position) through an iterator reached by i increments takes the i-th entry alone. |
| `OsclMap.Map.EraseRange` | app/jni/oscl/oscl_map.h:248-251 | erase(first, last) takes exactly the entries between the two iterators. |
| `OsclMap.Map.Apply` | app/jni/oscl/oscl_map.h:202-257 | Each call has the effect on the sorted entries that its specification says. |
| `OsclMap.Map.Run` | app/jni/oscl/oscl_map.h:202-257 | So does every run of calls, with every hint and every iterator a caller may legally hold. |
| `MapRuns.StepRefines` | app/jni/oscl/oscl_map.h:202-257 | For every strict weak order, one call on the sorted entries is the same call on the key-to-value map they denote, with keys equivalent under the order taken for one. |
| `MapRuns.RunRefines` | app/jni/oscl/oscl_map.h:202-257 | So every run of calls on the sorted entries refines the same run on a mathematical map. |
| `MapRuns.TotalIsPlain` | app/jni/oscl/oscl_map.h:202-257 | When only equal keys are equivalent, these are plain insertion, removal and update of a map. |
| `MapRuns.InsertIs` | app/jni/oscl/oscl_tree.h:445-468 | Under any strict weak order: an inserted pair is there afterwards exactly when no equivalent key was, and nothing else comes or goes. |
| `OsclTimer.Timer.constructor` | app/jni/oscl/oscl_timer.h:210-228 | A timer starts idle, with nothing allocated. |
| `OsclTimer.Timer.Request` | app/jni/oscl/oscl_timer.h:270-300 | Outside a callback one entry is appended, a wakeup is pending, after a full period unless one was pending already, and the expected time is set if it was 0; inside, the call is only queued and the list of pending timers is unchanged. |
| `OsclTimer.Timer.Cancel` | app/jni/oscl/oscl_timer.h:304-332 | Outside a callback the first entry with the ID, and the parameter unless that is -1, goes, and no other; inside, the call is only queued. |
| `OsclTimer.Timer.CountDown` | app/jni/oscl/oscl_timer.h:352-374 | Every entry is decremented or reset once, the due ones call back in order on their own or the global observer, and whatever the callbacks ask is queued in order while the list stays as it is. |
| `OsclTimer.Timer.Sweep` | app/jni/oscl/oscl_timer.h:377-390 | The removal loop ends and leaves exactly the entries with a positive counter, in order. |
| `OsclTimer.Timer.ReplayCancels` | app/jni/oscl/oscl_timer.h:392-399 | The queued cancels act in order, each on its first match, and each queued entry is freed once. |
| `OsclTimer.Timer.ReplayRequests` | app/jni/oscl/oscl_timer.h:401-409 | The queued requests are appended in order, as one-shot timers, and each queued entry is freed once. |
| `OsclTimer.Timer.Rearm` | app/jni/oscl/oscl_timer.h:411-443 | The jitter adjustment, and the delay asked for unless a wakeup is already pending. |
| `OsclTimer.Timer.TimerBaseElapsed` | app/jni/oscl/oscl_timer.h:346-444 | One tick is the tick of the specification: new list, callbacks made, expected time, wakeup and delay; and exactly the pending entries stay allocated. |
| `OsclTimer.Timer.IdleExact` | app/jni/oscl/oscl_timer.h:274-289 | Between ticks the allocated entries are exactly those pending, each once. |
| `OsclTimer.Timer.Apply` | app/jni/oscl/oscl_timer.h:270-444 | Any wakeup or outside call takes list, callbacks, expected time and delay where the specification says, keeps every pending timer distinct, and never leaves timers pending without a wakeup. |
| `OsclTimer.Timer.Run` | app/jni/oscl/oscl_timer.h:270-444 | The same for every run of wakeups and calls. |
| `OsclTimer.Timer.Clear` | app/jni/oscl/oscl_timer.h:336-343 | In any state, inside a callback too, Clear frees every pending entry once and leaves what is queued. |
| `OsclTimer.Timer.Destroy` | app/jni/oscl/oscl_timer.h:231-248 | The destructor frees every pending entry once: between ticks nothing stays allocated, during one exactly what the callbacks have queued. |
| `OsclTimer.Timer.SetFrequency` | app/jni/oscl/oscl_timer.h:251-257 | Every frequency gives a period below 2^30 microseconds, where the jitter adjustment is exact. |
| `TimerRuns.FireOnce` | app/jni/oscl/oscl_timer.h:350-374 | In one tick a pending timer calls back once if it is due and has an observer, else not at all. |
| `TimerLaws.FiredIs` | app/jni/oscl/oscl_timer.h:350-366 | The callbacks of a tick are exactly those of the timers whose counter is 1 or less: to their own observer, or to the global one if they have none, with their ID and parameter; none when there is neither. |
| `TimerLaws.FiredInOrder` | app/jni/oscl/oscl_timer.h:350-366 | They come in the order in which the timers were requested. |
| `TimerLaws.SweptIs` | app/jni/oscl/oscl_timer.h:355-390 | Which entries a tick leaves, with which counters: one less, or the period again for a recurring timer that is due; spent ones go when a one-shot timer is due. |
| `TimerLaws.SweptInOrder` | app/jni/oscl/oscl_timer.h:355-390 | What is left stays in the order of the requests. |
| `TimerRuns.SweptIff` | app/jni/oscl/oscl_timer.h:355-390 | A tick takes a timer off the list, cancels aside, exactly when its counter stays spent and some one-shot timer is due. |
| `TimerRuns.OneShotFires` | app/jni/oscl/oscl_timer.h:346-390 | A one-shot timer that nobody cancels fires once, at the max(1, counter)-th tick from here, whatever other timers and callbacks do. |
| `TimerRuns.RecurringFires` | app/jni/oscl/oscl_timer.h:346-390 | A recurring timer with a positive period fires at the tick its counter says and at every period after it, and at no other tick. |
| `TimerRuns.SpentFires` | app/jni/oscl/oscl_timer.h:346-390 | A recurring timer without a positive period fires at every tick up to and including the first in which some one-shot timer is due, and then never. |
| `TimerRuns.RequestFires` | app/jni/oscl/oscl_timer.h:270-300 | Requested with cycles n outside a callback: one-shot fires exactly at tick max(1, n), recurring exactly at n, 2n, 3n and so on, and with n below 1 at every tick until it is swept. |
| `TimerRuns.AllFired` | app/jni/oscl/oscl_timer.h:346-374 | The callbacks that a run logs of a timer are those of its ticks, added up. |
| `TimerRuns.RequestCount` | app/jni/oscl/oscl_timer.h:270-390 | So over any run without a cancel of it, a one-shot timer is called back once from tick max(1, n) on, a recurring one as often as n goes into the ticks. |
| `TimerLaws.RequestCalls` | app/jni/oscl/oscl_timer.h:270-374 | Over any run, cancelled or not, a requested timer calls back only with its ID and parameter, on its own observer if it has one and else on the global one. |
| `TimerLaws.CallsInOrder` | app/jni/oscl/oscl_timer.h:301-312 | The calls made in a tick are those of its callbacks, callback by callback, and no others. |
| `TimerLaws.QueuesHold` | app/jni/oscl/oscl_timer.h:282-287 | Each of the two queues holds the calls of its kind, in the order they were made. |
| `TimerLaws.TickReplays` | app/jni/oscl/oscl_timer.h:392-409 | They take effect when the counting is over, as if made directly then: first the cancels in the order they were made, then the requests in theirs, each for a one-shot timer. |
| `TimerLaws.QueuedFires` | app/jni/oscl/oscl_timer.h:392-409 | A timer requested in a callback with cycles n fires once, max(1, n) ticks after that tick, on the observer and with the ID and parameter asked for. |
| `TimerRuns.FieldsKept` | app/jni/oscl/oscl_timer.h:346-409 | Whatever happens in between, a timer still pending differs from what was requested in its counter alone. |
| `TimerLaws.CancelIff` | app/jni/oscl/oscl_timer.h:318-331 | Cancel(id, param) changes nothing exactly when no timer has that ID, and that parameter unless it is -1. |
| `TimerLaws.CancelTakes` | app/jni/oscl/oscl_timer.h:318-331 | Otherwise it takes off the first such timer and no other. |
| `TimerRuns.UnnamedSpared` | app/jni/oscl/oscl_timer.h:304-332 | A timer whose ID no Cancel uses together with its parameter or with -1 is never taken off by one. |
| `TimerRuns.RequestsSurvive` | app/jni/oscl/oscl_timer.h:392-409 | A cancel made in a callback takes off no timer requested in the same tick, whichever was called first. |
| `TimerRuns.QueuedAsDirectIff` | app/jni/oscl/oscl_timer.h:401-409 | Requests made in callbacks end up as direct requests would exactly when none of them asked for a recurring timer. |
| `TimerRuns.QueuedRecurringIsLost` | app/jni/oscl/oscl_timer.h:405 | A recurring request made in a callback becomes a one-shot timer. |
| `TimerDrift.InBandIff` | app/jni/oscl/oscl_timer.h:411-443 | With the jitter within one period, the delay is the period less the jitter exactly when that fits in 31 bits, and then it runs out at the new expected time modulo 2^32. |
| `TimerDrift.InBandExact` | app/jni/oscl/oscl_timer.h:411-443 | For periods below 2^30 it always does, and the delay lies between 0 and two periods. |
| `TimerDrift.OutOfBand` | app/jni/oscl/oscl_timer.h:411-443 | With the jitter beyond one period, the expected time restarts at the wakeup; the delay is 0 after a late one and the period less the jitter after an early one, or 0 if that takes more than 31 bits. |
| `TimerDrift.JitterIs` | app/jni/oscl/oscl_timer.h:414-415 | The jitter of a wakeup is how late it comes, early as negative, as far as 31 bits tell. |
| `TimerDrift.LongPeriodFails` | app/jni/oscl/oscl_timer.h:414-435 | At a period of 2^30 a wakeup one period early is given no delay at all. |
| `TimerDrift.NextJitter` | app/jni/oscl/oscl_timer.h:411-435 | The next jitter is the lateness of the next wakeup alone. |
| `TimerDrift.DriftFree` | app/jni/oscl/oscl_timer.h:411-435 | k in-band rounds move the expected time by exactly k periods, whatever the lateness of each. |
| `TimerDrift.DriftFreeRun` | app/jni/oscl/oscl_timer.h:270-444 | Over any run of the timer whose ticks each come within a period of the delay asked for, leave timers pending and ask for none in a callback, the expected time moves by one period for each tick, exactly. |
| `TimerDrift.RestartRun` | app/jni/oscl/oscl_timer.h:270-444 | Over a run with ticks as late as may be, the expected time is as many periods after the last tick that came more than a period late as ticks have come since. |
| `TimerDrift.EarlyTick` | app/jni/oscl/oscl_timer.h:411-443 | A tick more than a period early leaves the clock off course: the wakeup after it, when it comes to time, counts as late and restarts the count once more. |
| `TimerDrift.RestartAt` | app/jni/oscl/oscl_timer.h:421-428 | Period 1000, expected at 1000, woken at 4500: the count restarts at 4500. |
| `TimerDrift.FirstOnCourse` | app/jni/oscl/oscl_timer.h:270-300 | The first request after an idle spell sets a delay that runs out at the expected time. |
| `TimerDrift.StoppedThenStarted` | app/jni/oscl/oscl_timer.h:440-443 | A tick that leaves no timer stops the clock, and the next request starts it from its own time. |
| `TimerDrift.ReplayedDelayIff` | app/jni/oscl/oscl_timer.h:401-443 | After a tick in which a callback requested a timer a full period is waited, which meets the new expected time exactly when there was no jitter. |
| `TimerDrift.ReplayedOnCourseIff` | app/jni/oscl/oscl_timer.h:401-443 | So such a tick leaves the pending wakeup due at the expected time exactly when it came to time itself. |
| `TimerDrift.ReplayedDelayLate` | app/jni/oscl/oscl_timer.h:401-443 | A wakeup 10 late with a request in a callback: the next one comes 10 after the new expected time. |
| `TagOrder.CmpIsOrder` | app/jni/oscl/oscl_tagtree.h:76-79 | Compared with any bound that reaches the end of one string, the sign of the bounded comparison is that of whole strings, and 0 means equal. |
| `TagOrder.TagOrderTotal` | app/jni/oscl/oscl_tagtree.h:64-79 | tag_cmp(x, y) < 0 is a strict total order. |
| `TagOrder.LessIs` | app/jni/oscl/oscl_tagtree.h:64-79 | It is the order of whole strings: where they first differ the smaller character decides, and a string that ends there comes first. |
| `TagOrder.PrefixFirst` | app/jni/oscl/oscl_tagtree.h:76-79 | A proper prefix comes first. |
| `TagOrder.AncestorDropsComponent` | app/jni/oscl/oscl_tagtree.h:80 | The ancestor lacks the last dot and the component after it, or is empty when there is no dot. |
| `TagOrder.DepthCountsDots` | app/jni/oscl/oscl_tagtree.h:81 | The depth is one more than the number of dots, as for a.b.c.d; an empty first component is not counted. |
| `TagOrder.TruncateDepth` | app/jni/oscl/oscl_tagtree.h:429-437 | The tag inserted has at most maxDepth components when a maximum is set. |
| `TagOrder.TruncateAbove` | app/jni/oscl/oscl_tagtree.h:429-437 | It is the tag given, or what stands before one of its dots, or the root. |
| `TagSort.SwapPasses` | app/jni/oscl/oscl_tagtree.h:143-155 | A swap of neighbours keeps what a pass has put in its final place and carries the largest one on. |
| `OsclTagTree.TagNode.SortChildren` | app/jni/oscl/oscl_tagtree.h:136-158 | sort_children ends, with the same children in tag order, reading only children that have not been destroyed. |
| `TagSpec.GrowIs` | app/jni/oscl/oscl_tagtree.h:419-492 | Inserting adds the tag and its missing ancestors, changes no stored value, and keeps the tags closed under ancestors. |
| `TagSpec.ChainIs` | app/jni/oscl/oscl_tagtree.h:443-484 | The tags inserted with a tag are what stands before each of its dots, the root and itself. |
| `TagSpec.RunClosed` | app/jni/oscl/oscl_tagtree.h:419-546 | Over every run of insert, operator[], erase and clear the stored tags are closed under ancestors; while nothing is erased, exactly the ancestors of stored tags list a child. |
| `TagSpec.EraseIff` | app/jni/oscl/oscl_tagtree.h:501-513 | erase takes a stored tag away exactly when its node lists no child. |
| `TagSpec.EraseIs` | app/jni/oscl/oscl_tagtree.h:501-513 | An erased tag that lists a child loses its value, any other goes, and every other tag keeps its value. |
| `TagSpec.ErasedInner` | app/jni/oscl/oscl_tagtree.h:501-513 | With a and a.b inserted, erasing a leaves both and takes the value that a had. |
| `TagSpec.EraseLeaf` | app/jni/oscl/oscl_tagtree.h:492-513 | While nothing was erased before, that is exactly when no stored tag lies below it. |
| `TagSpec.RunWorn` | app/jni/oscl/oscl_tagtree.h:419-546 | Over every run: exactly when no child was made below its present node, whatever was erased since. |
| `TagSpec.RunStores` | app/jni/oscl/oscl_tagtree.h:398-546 | Over every run of insert, operator[], assignment through it, erase and clear: which tags are stored and the value of each, read off the calls from the last backwards. |
| `TagSpec.WornOut` | app/jni/oscl/oscl_tagtree.h:501-513 | After a.b is erased, erasing a leaves a behind: erase never unlinks a node from its parent. |
| `OsclTagTree.TagTree.constructor` | app/jni/oscl/oscl_tagtree.h:308-315 | A tree with the root tag only, whose parent is null. |
| `OsclTagTree.TagTree.Insert` | app/jni/oscl/oscl_tagtree.h:419-492 | The value of every stored tag afterwards and which of them list a child; each list that was there gains only nodes made by this call, at its end; the node returned and whether it was made; every non-root node has the stored node of its ancestor as parent and is on its list. |
| `OsclTagTree.TagTree.Subscript` | app/jni/oscl/oscl_tagtree.h:398-401 | operator[] inserts a default value exactly when the tag is not stored. |
| `OsclTagTree.TagTree.Erase` | app/jni/oscl/oscl_tagtree.h:501-513 | A node that lists children loses its value and stays; any other leaves the map and is destroyed; every other tag keeps its node and value, and all links stay right. |
| `OsclTagTree.TagTree.EraseByTag` | app/jni/oscl/oscl_tagtree.h:524-533 | The same by tag, with the count of tags found; nothing changes when there is none. |
| `OsclTagTree.TagTree.Clear` | app/jni/oscl/oscl_tagtree.h:537-546 | Every node is destroyed, once, and the map is empty. |
| `OsclTagTree.TagTree.Destroy` | app/jni/oscl/oscl_tagtree.h:344-351 | The destructor leaves no node allocated. |
| `OsclTagTree.TagTree.ExactChildren` | app/jni/oscl/oscl_tagtree.h:443-484 | While no destroyed child is listed, the list of each node is exactly its stored children, each once. |
| `OsclTagTree.TagTree.ParentStored` | app/jni/oscl/oscl_tagtree.h:443-484 | In every tree the public calls can reach, a non-root node has the stored node of its ancestor tag as parent and is on its list. |
| `OsclTagTree.TagTree.ErasesLeaf` | app/jni/oscl/oscl_tagtree.h:501-513 | While no destroyed child is listed, a node lists no child, and so goes when erased, exactly when no stored tag lies below it. |
| `OsclTagTree.TagTree.ReachedErasesLeaf` | app/jni/oscl/oscl_tagtree.h:308-546 | That is so in every tree reached from the constructor by calls other than erase. |
| `OsclTagTree.TagTree.Apply` | app/jni/oscl/oscl_tagtree.h:398-546 | Each call has the effect of its specification and keeps all links; only erase can leave a destroyed child listed. |
| `OsclTagTree.TagTree.Run` | app/jni/oscl/oscl_tagtree.h:398-546 | The same for every run; without erase, every list stays exact. |
| `TagCopy.CopyExact` | app/jni/oscl/oscl_tagtree.h:319-340 | Inserting the entries of a tree again, in the order of its map, gives exactly its tags and values. |
| `TagCopy.DescendantFirst` | app/jni/oscl/oscl_tagtree.h:319-340 | In an order that puts a descendant first, the ancestor would keep a default value. |
| `OsclTagTree.TagTree.Copy` | app/jni/oscl/oscl_tagtree.h:319-325 | The copy constructor: fresh nodes, exact lists, the tag-to-value map of the source. |
| `OsclTagTree.TagTree.Assign` | app/jni/oscl/oscl_tagtree.h:329-340 | operator=: the tree takes over the maximum depth and the tag-to-value map of the source exactly when that is another tree or holds nothing; assigned to itself it ends up empty, root included. |
| `OsclMediaData.BufferState.Decrement` | app/jni/oscl/oscl_media_data.h:87-98 | The buffer is handed back exactly when the count comes down to zero. |
| `OsclMediaData.FragGroup.AddFragment` | app/jni/oscl/oscl_media_data.h:213-252 | Which status; and on success fragments and buffers, kept aligned, gain the pair at the position asked for, by shifting or in an empty slot, or at the end; length in 32 bits; one more reference. |
| `OsclMediaData.FragGroup.Clear` | app/jni/oscl/oscl_media_data.h:199-211 | Every slot gives back its reference once, and the group is empty. |
| `FragSpec.GuardMisses` | app/jni/oscl/oscl_media_data.h:216-219 | The guard lets a write past the arrays through exactly when the group is full and no empty slot is taken over. |
| `FragSpec.FullGroupFails` | app/jni/oscl/oscl_media_data.h:216-219 | With two fragments in a group of two the guard passes, and insertion and append both write past the arrays. |
| `FragSpec.SumPlace` | app/jni/oscl/oscl_media_data.h:222-251 | The length grows by that of the new fragment, wherever it goes. |
| `FragSpec.ConcatPlace` | app/jni/oscl/oscl_media_data.h:222-251 | The new bytes appear before those of the fragment at the position asked for, or after all others when there is none; all others stay in order. |
| `FragSpec.PlaceIs` | app/jni/oscl/oscl_media_data.h:222-251 | Element by element: a position outside the list appends, one inside fills an empty slot or shifts what is there. |
| `OsclMediaData.World.AddFragment` | app/jni/oscl/oscl_media_data.h:213-252 | Among any number of groups that share buffers, every count stays the number of slots that hold the buffer. |
| `OsclMediaData.World.Clear` | app/jni/oscl/oscl_media_data.h:199-211 | A group that is cleared hands back exactly the buffers that no slot of any group holds afterwards. |
| `OsclMediaData.MediaData.GetLocalFragment` | app/jni/oscl/oscl_media_data.h:317-329 | The next bytes of the local buffer, apart from every fragment listed, or what is left and no pointer. |
| `OsclMediaData.MediaData.AddLocalFragment` | app/jni/oscl/oscl_media_data.h:394-446 | Which status; and on success the pieces read in order are the old ones with the source bytes inserted, local fragments stay apart and inside the part given out. |
| `OsclMediaData.MediaData.AddFragment` | app/jni/oscl/oscl_media_data.h:213-252 | The same reading for fragments of other memory. |
| `OsclMediaData.MediaData.AddLocalAll` | app/jni/oscl/oscl_media_data.h:394-446 | After any run of AddLocalFragment at any positions: the bytes are those of the same insertions into a list of strings, and every byte given out is read. |
| `OsclMediaData.MediaData.LengthIsBytes` | app/jni/oscl/oscl_media_data.h:171-174 | The length is the number of bytes the fragments hold, in 32 bits. |
| `OsclMediaData.MediaData.Clear` | app/jni/oscl/oscl_media_data.h:331-345 | The same as for the group, and the whole local buffer is available again. |
| `OsclHandles.RefCounter.constructor` | app/jni/oscl/oscl_refcounter.h:102-106 | A counter starts with the one reference of its maker. |
| `OsclHandles.RefCounter.AddLoose` | app/jni/oscl/oscl_refcounter.h:117-120 | A reference that the program takes itself is counted. |
| `OsclHandles.RefCounter.RemoveRef` | app/jni/oscl/oscl_refcounter.h:125-141 | At zero the buffer is deallocated once, with the handles in it, which give up their references in turn, and the counter goes with the buffer or after it; every call made on the way is on a counter that is there. |
| `OsclHandles.RefCounter.DropLoose` | app/jni/oscl/oscl_refcounter.h:125-141 | Giving up a reference that the program holds takes one off its references and off the count, or deallocates the buffer if it was the last; every count stays the number of references. |
| `OsclHandles.Heap.Balanced` | app/jni/oscl/oscl_refcounter.h:125-141 | Then every counter ever made has its buffer exactly while there are references to it, and has deallocated it once when there are none. |
| `HandleSpec.DropOk` | app/jni/oscl/oscl_refcounter.h:125-141 | The whole cascade leaves counts equal to the references left, and references, homes and the handles inside buffers in agreement. |
| `OsclHandles.SharedPtr.constructor` | app/jni/oscl/oscl_shared_ptr.h:63-64 | A handle holds the object and the reference given, which is the program's no longer, whether it is a variable or lives in a tracked object. |
| `OsclHandles.SharedPtr.Copy` | app/jni/oscl/oscl_shared_ptr.h:68-76 | A copy is one more reference to what the source holds, counted once, and compares equal to it. |
| `OsclHandles.SharedPtr.Destroy` | app/jni/oscl/oscl_shared_ptr.h:79-85 | A variable that goes takes one off the count of what it holds, or, if it was the last, has the buffer deallocated with everything that depends on it. |
| `OsclHandles.SharedPtr.BindNew` | app/jni/oscl/oscl_shared_ptr.h:185-196 | The old reference is dropped, with all that goes with it; the handle holds the object and the reference given, which is the program's no longer and is not counted again. |
| `OsclHandles.BindAndDestroy` | app/jni/oscl/oscl_shared_ptr.h:79-196 | A variable bound to a fresh counter and then destroyed has the buffer deallocated, once. |
| `OsclHandles.SharedPtr.Unbind` | app/jni/oscl/oscl_shared_ptr.h:132-135 | The reference is dropped and the handle is null. |
| `OsclHandles.SharedPtr.Bind` | app/jni/oscl/oscl_shared_ptr.h:166-183 | With the early return for equal objects: the old reference is dropped before the other handle is read, and everything stays counted; the handles compare equal afterwards exactly when the objects differed or the counters were the same. |
| `OsclHandles.MemFrag.constructor` | app/jni/oscl/oscl_refcounter_memfrag.h:70-74 | A fragment holds the memory and the reference given, which is the program's no longer. |
| `OsclHandles.MemFrag.Copy` | app/jni/oscl/oscl_refcounter_memfrag.h:79-86 | Copying a memory fragment adds a reference and copies all three fields. |
| `OsclHandles.MemFrag.Assign` | app/jni/oscl/oscl_refcounter_memfrag.h:103-129 | All three fields are those of the source, whose reference is added after the old one is dropped; nothing on self-assignment. |
| `OsclHandles.MemFrag.Destroy` | app/jni/oscl/oscl_refcounter_memfrag.h:138-144 | Destroying a fragment takes one off the count, or has the buffer deallocated if it was the last. |
| `HandleSpec.SurvivesIff` | app/jni/oscl/oscl_refcounter.h:125-141 | A handle is still there after a reference was given up exactly when it lives in no buffer, or in one that the handles outside and the references of the program still keep. |
| `HandleSpec.KillSurvives` | app/jni/oscl/oscl_shared_ptr.h:79-85 | The same when a variable goes out of scope. |
| `HandleSpec.DropLooseSurvives` | app/jni/oscl/oscl_refcounter.h:125-141 | The same when the program gives up a reference of its own. |
| `HandleSpec.AssignSafeIff` | app/jni/oscl/oscl_shared_ptr.h:170-181 | Assignment reads and writes only handles that are there exactly when both survive the loss of the reference the target gives up. |
| `HandleSpec.BindNewOk` | app/jni/oscl/oscl_shared_ptr.h:188-194 | Binding to a new object writes a handle that is there exactly when the target survives that. |
| `HandleSpec.AssignIs` | app/jni/oscl/oscl_shared_ptr.h:166-183 | Assignment: the target has the item and the reference of the source, the handles lost are those that do not survive, all others are as they were, and only two counts change if nothing is lost. |
| `HandleSpec.AssignCount` | app/jni/oscl/oscl_shared_ptr.h:166-183 | Whatever is lost: each count goes down by the handles on it that were lost and the reference given up, and up by the one taken. |
| `HandleSpec.BindNewIs` | app/jni/oscl/oscl_shared_ptr.h:185-196 | Binding to a new object, the same, but that the reference given is taken off the program's own and no count goes up. |
| `HandleSpec.BindNewCount` | app/jni/oscl/oscl_shared_ptr.h:185-196 | Whatever is lost: each count goes down by the handles on it that were lost and the reference given up, and never up. |
| `HandleSpec.BoundAlone` | app/jni/oscl/oscl_shared_ptr.h:185-196 | A variable bound to a fresh counter is the one reference to it, and the counter goes when the variable does. |
| `HandleSpec.MakeIs` | app/jni/oscl/oscl_shared_ptr.h:63-64 | A new handle has the item and reference given; the program has that reference no longer and no count changes. |
| `HandleSpec.CopyIs` | app/jni/oscl/oscl_shared_ptr.h:68-76 | A copied handle has the item and reference of the source, whose count alone goes up, by one. |
| `HandleSpec.AddLooseIs` | app/jni/oscl/oscl_refcounter.h:117-120 | A reference the program takes is one more of its own and one more counted, and nothing else changes. |
| `HandleSpec.DropLooseIs` | app/jni/oscl/oscl_refcounter.h:125-141 | One it gives up is one less of its own; it is one less counted and nothing else changes unless it was the last, and then the counter goes. |
| `HandleSpec.KillIs` | app/jni/oscl/oscl_shared_ptr.h:79-85 | The same for the reference of a variable that goes. |
| `HandleSpec.SafeCases` | app/jni/oscl/oscl_shared_ptr.h:166-183 | So assignment between variables is always safe, and so is any from a target that holds nothing or shares its counter. |
| `HandleSpec.SharedIsSafe` | app/jni/oscl/oscl_shared_ptr.h:166-183 | Between handles that share a counter nothing is destroyed and no count changes. |
| `HandleSpec.MemberOfLastFails` | app/jni/oscl/oscl_shared_ptr.h:170-176 | Assigning a handle that lives in an object to the only handle on that object always reads it after it was destroyed. |
| `HandleSpec.NextOfLastFails` | app/jni/oscl/oscl_shared_ptr.h:170-176 | On a list of two nodes p = p->next does that. |
| `HandleSpec.SameObjectOtherCounter` | app/jni/oscl/oscl_shared_ptr.h:168 | Two handles on one object with a counter each: Bind changes neither, and they do not compare equal. |
| `RefProtocol.StepOk` | app/jni/oscl/oscl_refcounter.h:292-324 | Every step of any thread keeps: the count is the references owned plus those in flight, one thread at most is past the lock, and the buffer is there while anyone can use it. |
| `RefProtocol.ProtocolSafe` | app/jni/oscl/oscl_refcounter.h:292-324 | In every interleaving no step of addRef or removeRef is taken on a counter that is gone, the buffer is destroyed at most once and not while a reference is owned, and between calls the count is the number of references. |
| `RefProtocol.OneInside` | app/jni/oscl/oscl_refcounter.h:292-324 | In every interleaving at most one thread is past the lock. |
| `RefProtocol.LastRemover` | app/jni/oscl/oscl_refcounter.h:302-318 | Whoever is about to destroy the buffer is the last: nobody else owns or is using a reference. |
| `RefProtocol.DestroyedAtZero` | app/jni/oscl/oscl_refcounter.h:302-324 | Once all calls have returned, buffer and counter are gone exactly when no reference is left, and the buffer was destroyed exactly once. |
| `RefProtocol.CallsCounted` | app/jni/oscl/oscl_refcounter.h:292-324 | Once all calls have returned, each addRef has added one to the count and to what its caller owns, and each removeRef has taken one off both, in whatever interleaving. |
| `RefProtocol.SomeoneCanStep` | app/jni/oscl/oscl_refcounter.h:385-419 | While a thread is inside a call some thread can step, although the last one never unlocks. |
| `OsclUuid.Uuid.constructor` | app/jni/oscl/oscl_uuid.h:81-201 | The cursor loop computes the reading of the text, for every text, passes PV_atoi the position and length the original passes, a negative one for a short field too, and never reads past the last character itself. |
| `UuidText.ParseText` | app/jni/oscl/oscl_uuid.h:77-79 | Any number of fields in text form, with any number of digits each, reads as their numbers, cut to the fields; what follows the bracket is ignored. |
| `UuidText.RoundTrip` | app/jni/oscl/oscl_uuid.h:77-79 | Any text form of a UUID reads back as that UUID. |
| `UuidText.PrintParse` | app/jni/oscl/oscl_uuid.h:77-79 | Every UUID has a text form, and it reads back as that UUID. |
| `UuidText.WideFieldIsCut` | app/jni/oscl/oscl_uuid.h:120-126 | A number too wide for its field reads as another number exactly when they agree in the low 16 bits. |
| `UuidText.AlikeIff` | app/jni/oscl/oscl_uuid.h:112-180 | Two texts with as many fields read alike exactly when the first eleven fields agree, each in as many low bits as the field has: too wide a field is cut and a twelfth ignored. |
| `UuidText.MissingIsZero` | app/jni/oscl/oscl_uuid.h:81-201 | Fields left out read as zero. |
| `UuidText.BrokenOff` | app/jni/oscl/oscl_uuid.h:96-201 | A text that breaks off reads as the fields that were ended; the first character does not matter. |
| `UuidText.ParseFits` | app/jni/oscl/oscl_uuid.h:81-201 | Whatever the text, every field of the result fits its width. |
| `OsclUuid.Uuid.Equals` | app/jni/oscl/oscl_uuid.h:214-230 | Equal exactly when all eleven fields are. |
| `OsclUuid.ParsedEquals` | app/jni/oscl/oscl_uuid.h:81-230 | Parsing any text form of a UUID gives one that compares equal to it. |

## Left out

- OsclMediaData.FragGroup.AddFragment: requires a slot for the fragment when the group is full, which the original's guard does not ensure; `GuardMisses` says exactly when it fails to.
- OsclMediaData.World.AddFragment: the same.
- OsclMediaData.MediaData.AddFragment: the same.
- OsclMediaData.MediaData.AddLocalFragment: the same, and so for runs of it in AddLocalAll, where as many slots are needed as fragments are accepted.
- OsclTagTree.TagTree.Erase: children lists are exact only until an erase; after it they hold the stored children and possibly destroyed ones, as in the original.
- OsclTagTree.TagNode.SortChildren: requires that no listed child has been destroyed, which holds until the first erase; afterwards the original reads the tags of destroyed nodes.
- OsclTagTree.TagTree.ExactChildren: that a list holds no node twice also rests on addresses not being used again while a destroyed node is still listed.
- OsclTimer.Timer.CountDown: callbacks request and cancel; one that clears or destroys the timer would leave the counting loop with an iterator into entries that are gone.
- OsclTimer.Timer.Request: entry counters are integers without the wrap-around of int32, which only a counter of -2^31 would meet.
- OsclMediaData.BufferState.Decrement: the count is an integer without the wrap-around of int32.
- OsclHandles.RefCounter.AddLoose: counts are integers without the wrap-around of uint32.
- OsclHandles.SharedPtr.Bind: requires that both handles survive the drop of the target's reference, and so do MemFrag.Assign and BindNew of theirs; `AssignSafeIff` and `BindNewOk` say exactly when they do.
- SetExactFrequency and SetObserver, which store their argument; `LongPeriodFails` needs a period that only SetExactFrequency can set.
- Allocation failure and leaving: every allocation succeeds, and a zero frequency, for which the original leaves, is not passed.
- C++ construction and destruction of keys and values: nodes and entries are tracked as allocated or not.
- Const iterators and const overloads, which have the same bodies; erase over an array of keys, a loop over erase by key.
- The Oscl_Map copy constructor and assignment, which forward to the tree.
- The scheduler, the tick counter and the observers: times, and what callbacks do, are parameters.
- Oscl_DefAllocWithRefCounter, which counts for an allocator in the same way.
- OSCLMemAutoPtr, exclusive pointers, name strings and memory statistics.
- IsLocalData, GetMediaFragment, GetMediaSize and reserved-fragment counts of media data; message chaining by AppendNext.
- Memory pools, file cache, streams, threads and locks as such, sockets, DNS, logging and configuration: only declared or operating-system plumbing.
