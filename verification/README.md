# Verification of the Kibou runtime

A Dafny model of the stateful parts of the Kibou base library and of the txtar format, with proofs
of what these parts promise. Each module follows one component:

- `Cancellation` — errors and results of cancellation, shared by the next two.
- `CancelProtocol` — the cancellation tree as a concurrent protocol: every lock-to-unlock region of a
  token is one atomic step, and any number of NewChild and Cancel calls may be in flight.
- `CancelHistory` — runs of the protocol by their steps: what decided a result, where errors, calls and tokens
  come from, in which order a call works.
- `CancelToken` — the same tree as objects, run by one goroutine: termination and breadth-first order.
- `ClockDeadline` — deadlines of chains of clock tokens.
- `LexicalPath` — the in-place path normaliser refines a stack of path components, and its result is the only
  normal form that leads to the same place as the path.
- `OrderedMapSpec`, `OrderedMap` — the insertion-ordered map: an association list, a row of slots with
  tombstones and its cost, and the chunked implementation.
- `Deque` — the ring buffer and the cost of its growth.
- `Bits`, `BitVec` — machine words as numbers with bitwise operators on their binary digits, and the
  packed bit vector.
- `Utf8`, `GraphemeWindow` — UTF-8 validation against section 4 of RFC 3629, and windows inside
  grapheme clusters.
- `TrimSpace`, `Txtar`, `TxtarFS` — the archive format, its parser and printer, and its file system form.
- `SnapshotPrune` — the traversal that deletes unused snapshots.

`dafny verify dfyconfig.toml` checks everything.

Objects whose methods change fields are classes; their contracts tie the new state to a function of the
old one, and the lemmas of the same module say what that function guarantees over every run. Go's
run-time assertions are preconditions where they check the caller, and unreachable branches where they
check an invariant.

Where the documentation in the source says more than its code does, the model follows the code:

- The capacity chosen for a deque is documented to be at least the doubled old capacity (capped at the
  largest integer). This holds exactly up to half the largest integer, and beyond that only for the
  largest request (`Deque.DocumentedBoundExactlyWhen`, `Deque.DocumentedBoundFails`).
- The window of a large grapheme cluster is documented to hold half of the allowed code points before
  the offset and the rest after it. This holds exactly when the cluster has that many on both sides
  (`GraphemeWindow.BalancedExactlyWhen`); after the letter of an accented letter that is too large it
  holds exactly for windows of up to three code points (`GraphemeWindow.AccentedBalancedIff`,
  `GraphemeWindow.ShortSideIsNotBalanced`).
- The ordered map is documented to hold up to 2^48 live entries. The code limits the used slots, which
  tombstones also occupy. A map with n live entries can stand at the limit, where the next insertion
  fails the range check, exactly when 2^46 < n <= 2^48 (`OrderedMap.LimitReachedIff`,
  `OrderedMap.LimitReachedEarly`).
- Reparsing a printed archive changes nothing, except for inputs that end in a marker line closed by a
  lone carriage return (`Txtar.ParseFormatParse`, `Txtar.DanglingMarkerFails`).
- A Cancel that has returned need not have cancelled all descendants: another call may still hold some
  of them in its queue (`CancelProtocol.ReturnedCallMayLeaveLiveDescendant`). All of them are cancelled
  exactly when no call in flight owes one of them (`CancelProtocol.DescendantsCanceledIff`).
- Growth of a deque is amortised only while the buffer doubles. Two copies per push are enough for
  every run that ends with a given capacity exactly up to half the range of integers and one growth
  beyond it (`Deque.AmortizedExactlyWhen`).

## Model

| member | source | states |
|---|---|---|
| CancelProtocol.NoCheckEverFires | base/cancel/token.go:273-343 | In every interleaving entry i of a token's children has that token as parent and i as index, a cancelled token has no children, and no sanity check of unregisterChild has fired |
| CancelProtocol.NoCancellationLost | base/cancel/token.go:231-263 | In every reachable state a live token under a cancelled one is in the pending queue of a call in flight |
| CancelProtocol.DescendantsCanceledIff | base/cancel/token.go:191-263 | In every reachable state all descendants of a cancelled token are cancelled iff no call in flight has a live one of them pending, whatever other calls do |
| CancelProtocol.QuiescenceCancelsDescendants | base/cancel/token.go:191-263 | Consequence: once all calls have returned every descendant of a cancelled token is cancelled, also those created during the cancellation |
| CancelProtocol.ErrorWrittenOnce | base/cancel/token.go:380-398 | Over any continuation of any run an error once set never changes, and the done channel is closed once if the error is set and not at all otherwise |
| CancelProtocol.OneWinnerPerToken | base/cancel/token.go:380-398 | A token is cancelled iff exactly one attempt on it reported CanceledByUs, and that attempt's error is the token's |
| CancelProtocol.ReturnedCallsAreTruthful | base/cancel/token.go:83-104 | Cancel is synchronous; a call that returns CanceledByUs fixed the error, and no two such calls have the same target |
| CancelHistory.ResultTellsTarget | base/cancel/token.go:231-263 | Over every run a returned call returned CanceledByUs iff its target was live in the state in which the call took its first critical section, which it takes exactly once |
| CancelProtocol.ErrorComesFromAncestor | base/cancel/token.go:191-263 | A token's error was passed by an outside caller to Cancel on the token or on an ancestor |
| CancelHistory.ErrorWasRequested | base/cancel/token.go:191-263 | A token's error was given by a step of the run that called Cancel on the token or on an ancestor |
| CancelHistory.CallIsMade | base/cancel/token.go:191-232 | Every call goes back to the step that made it: an outside Cancel with its target and error, or a construction under a cancelled parent with the parent's error |
| CancelHistory.TokenIsMade | base/cancel/token.go:191-208 | Every token goes back to the step that made it, with that step's origin, and keeps a parent iff the parent was live |
| CancelHistory.RequestIsServed | base/cancel/token.go:191-232 | Every NewRoot, NewChild and Cancel of a run has its token or call, with the requested origin, target and error |
| CancelHistory.ListedChildrenAreLive | base/cancel/token.go:240-242 | In every reachable state a child on a token's list is live, or is the target of a call that is about to take it off the list |
| CancelHistory.QueuesAreByDepth | base/cancel/token.go:244-253 | In every interleaving the queue of each call is in order of depth over two levels, and the parents of its tokens are cancelled |
| CancelProtocol.CallsInFlightFinish | base/cancel/token.go:231-263 | From every reachable state and along every continuation, with new tokens and calls at any point, the calls take at most the remaining work plus four steps for each new request |
| CancelProtocol.WholeRunIsLinear | base/cancel/token.go:191-263 | Over any whole run the calls take at most four steps for each token created and each Cancel begun |
| CancelProtocol.NoCallBlocks | base/cancel/token.go:231-263 | The tokens that the next step of a call in flight touches exist, so the step is defined; the model has no mutex, and this is no proof that locks cannot deadlock |
| CancelProtocol.ReturnedCallMayLeaveLiveDescendant | base/cancel/token.go:255-259 | A concrete run in which a Cancel has returned CanceledByUs above a live descendant that another call owes |
| CancelProtocol.StepKeepsInv | base/cancel/token.go:273-398 | Each critical section preserves the whole invariant and takes nothing back |
| CancelProtocol.RunKeepsInv | base/cancel/token.go:191-398 | The invariant holds along every run |
| CancelProtocol.UnregisterKeepsTree | base/cancel/token.go:290-348 | The swap-remove passes all its checks, keeps the links exact, and keeps every other child registered |
| CancelProtocol.UnregisterSwaps | base/cancel/token.go:313-345 | Entry by entry, the last sibling takes the freed place and index |
| CancelProtocol.RegisterKeepsTree | base/cancel/token.go:273-282 | Registering a new token keeps the tree invariant |
| CancelProtocol.DetachKeepsTree | base/cancel/token.go:380-398 | Cancelling a token and detaching its children keeps the tree invariant |
| CancelProtocol.StepLosesNothing | base/cancel/token.go:255-259 | No step drops a live token below a cancelled one from all queues |
| CancelProtocol.StepKeepsAttempts | base/cancel/token.go:380-398 | Each step keeps the correspondence between winning attempts and cancelled tokens |
| CancelProtocol.StepKeepsRequests | base/cancel/token.go:191-263 | Each step keeps every error and every pending visit traceable to a request on an ancestor |
| CancelProtocol.InternalStepDoesWork | base/cancel/token.go:231-263 | Each step of a call in flight strictly lowers the remaining work |
| CancelProtocol.ErrorAppears | base/cancel/token.go:380-398 | A token gets an error only when a call visits it, and then that call's error |
| CancelProtocol.OutsideStepAddsWork | base/cancel/token.go:191-208 | A new token or a new call adds at most four to the remaining work |
| CancelToken.RawToken.Cancel | base/cancel/token.go:231-263 | With no other call at work, Cancel gives the error to exactly the live tokens of the subtree, each once, by non-decreasing depth; outside it only the receiver leaves its sibling list; on an already cancelled receiver nothing changes |
| CancelToken.RawToken.Drain | base/cancel/token.go:247-253 | The queue loop terminates, cancels exactly the live tokens below the detached children in order of depth, and changes no children outside |
| CancelToken.RawToken.Visit | base/cancel/token.go:248-250 | One round keeps the queue distinct, sorted by depth over two levels, and complete |
| CancelToken.RawToken.CancelSelfAndDetachChildren | base/cancel/token.go:380-398 | Sets the error and moves the children to the queue iff the token was live, and loses no orphan |
| CancelToken.RawToken.CancelSelfAndUnregister | base/cancel/token.go:232-243 | The part before the loop: the receiver is cancelled and dropped from its parent's children |
| CancelToken.RawToken.UnregisterChild | base/cancel/token.go:290-348 | Removes exactly the child from the children as a multiset, keeps the tree exact, and its checks are unreachable |
| CancelToken.RawToken.SwapRemove | base/cancel/token.go:324-345 | The children are swap-removed, the last one gets the freed index, and no other index changes |
| CancelToken.SwapRemovedDropsOne | base/cancel/token.go:324-345 | A swap-remove drops exactly one occurrence of the removed child and keeps all others |
| CancelToken.RawToken.RegisterChild | base/cancel/token.go:273-282 | Appends the child and sets its index, or returns the error of a cancelled receiver and changes nothing |
| CancelToken.NewChildToken | base/cancel/token.go:191-208 | A new token joins the tree registered under a live parent, or is born cancelled with the parent's error and no parent |
| CancelToken.QueueAdvances | base/cancel/token.go:247-253 | Popping a token and appending its children keeps breadth-first order |
| CancelToken.CanceledBelow | base/cancel/token.go:255-259 | In a settled tree every token below a cancelled one is cancelled |
| ClockDeadline.DeadlineIsEarliest | base/cancel/clock_token.go:98-142 | A chain has a deadline iff some token has an option, and no option of any token is earlier |
| ClockDeadline.DeadlineIsOneOfTheOptions | base/cancel/clock_token.go:98-142 | The deadline is the instant of one of these options |
| ClockDeadline.SourceNamesAncestor | base/cancel/deadline/deadline.go:55-105 | Source level k names the k-th ancestor, which set that instant itself with the matching kind; all tokens further out have strictly later options |
| ClockDeadline.DeadlineMeans | base/cancel/clock_token.go:98-142 | In terms of the options alone: an option of the ancestor that the source names gives the instant, from now plus a timeout or as an absolute deadline, with the kind to match; no option in the chain runs out earlier |
| ClockDeadline.TightestIsOneOf | base/cancel/clock_token.go:98-142 | The construction keeps the inherited deadline unless an option is strictly earlier, and then takes the first earliest option |
| ClockDeadline.NewClockToken | base/cancel/clock_token.go:98-131 | The loop computes the tightest deadline: none of the options runs out earlier, and it is the parent's or that of an option, a timeout with the timeout kind and an absolute deadline with the absolute kind; the clock is read once, iff there is a timeout |
| ClockDeadline.ReinterpretForChild | base/cancel/deadline/deadline.go:55-72 | Same instant and kind of source one level further up, within NewSource's conditions |
| ClockDeadline.BornCanceledIff | base/cancel/clock_token.go:157-181 | A token is cancelled at construction iff its parent is cancelled or some option in its chain lies at or before now; the parent's error wins, and otherwise the error names the earliest deadline of the chain |
| ClockDeadline.Arm | base/cancel/clock_token.go:164-181 | A timer is started for exactly the remaining positive delay |
| LexicalPath.LexicallyNormalize | base/core/pathx/lexical.go:24-98 | The result is the join of the component-stack resolution plus the trailing-separator rule, and the only normal form of the path; all buffer and input accesses are in range |
| LexicalPath.NormalFormIsUnique | base/core/pathx/lexical.go:21-98 | A text is the normal form iff it leads to the same place as the path from every working directory, has no empty element, "." only alone, ".." only in front of a relative path, and a trailing separator iff it is the root or the path has one and it is neither "." nor ".." |
| LexicalPath.CleanIffSamePlace | base/core/pathx/lexical.go:42-98 | Two paths have the same normal form up to a trailing separator iff they lead to the same place from every working directory |
| LexicalPath.DotDotCancels | base/core/pathx/lexical.go:64-77 | A proper element and ".." behind it cancel after every prefix, rooted or relative |
| LexicalPath.DotsDropOut | base/core/pathx/lexical.go:58-63 | "." and empty elements drop out |
| LexicalPath.RootIsItsParent | base/core/pathx/lexical.go:67-77 | ".." at the root drops out |
| LexicalPath.LexicalBuffer.AppendByte | base/core/pathx/lexical.go:115-126 | Appends to the contents whether they still alias the input or live in the buffer |
| LexicalPath.LexicalBuffer.RemoveLastPathElement | base/core/pathx/lexical.go:136-141 | Cuts the contents at the last separator, not below the limit |
| LexicalPath.LexicalBuffer.ShouldPreserveTrailingSeparator | base/core/pathx/lexical.go:150-164 | True iff the contents are neither empty, ".", "..", the root, nor end in a separator |
| LexicalPath.LexicalBuffer.String | base/core/pathx/lexical.go:143-148 | Returns the contents |
| LexicalPath.CutPops | base/core/pathx/lexical.go:136-141 | On a rendered stack this cut removes exactly the last element |
| LexicalPath.WriteDotDot | base/core/pathx/lexical.go:64-77 | The ".." branch performs the stack operation on the text and keeps the limit in step |
| LexicalPath.WriteElement | base/core/pathx/lexical.go:78-85 | The element branch appends a separator where needed and the whole element |
| LexicalPath.NextElement | base/core/pathx/lexical.go:56-87 | One round of the loop keeps text, stack, limit and remaining input in agreement |
| LexicalPath.Finish | base/core/pathx/lexical.go:89-97 | Empty output becomes "." and a trailing separator is kept under the rule |
| LexicalPath.NormalIsIdempotent | base/core/pathx/lexical.go:21-98 | Normalising twice is normalising once |
| LexicalPath.NormalIsNotEmpty | base/core/pathx/lexical.go:89-91 | The normal form is never empty |
| LexicalPath.ComponentsOfRender | base/core/pathx/lexical.go:78-85 | Splitting a rendered stack, with or without a trailing separator, gives the stack back |
| LexicalPath.SplitComponents | base/internal/pathx/pathx.go:334-348 | The splitting loop yields exactly the non-empty elements in order |
| LexicalPath.LexicallyContains | base/core/pathx/pathx.go:313-329 | For a relative path the depth counter accepts iff the normal form does not begin with ".." |
| LexicalPath.InsideIffNormalHasNoDotDot | base/core/pathx/pathx.go:313-329 | The same equivalence for the specification of the counter |
| LexicalPath.CounterTracksStack | base/core/pathx/pathx.go:313-329 | On a stack without ".." the counter is the height of the stack |
| OrderedMapSpec.RunRefinesList | base/collections/ordered_map.go:63-201 | After any run the live entries and every lookup are those of an insertion-ordered association list |
| OrderedMapSpec.RunByHistory | base/collections/ordered_map.go:63-162 | After any run a lookup finds what the last operations on that key left, and the keys stand in the order of the insertions that brought them in |
| OrderedMapSpec.StepRefinesList | base/collections/ordered_map.go:98-162 | One operation on the slots, compaction included, is the operation on the list, and finds the same old value |
| OrderedMapSpec.StepLookups | base/collections/ordered_map.go:98-141 | An operation gives its key the kept, the new or no value and leaves every other lookup alone |
| OrderedMapSpec.StepOrder | base/collections/ordered_map.go:98-141 | A new key goes to the end, a replaced one stays in place, a deleted one leaves a gap, and no other entry moves |
| OrderedMapSpec.RunCost | base/collections/ordered_map.go:125-186 | In every reachable map the used slots are fewer than four times the live entries, and three times the moved entries are at most the successful deletes |
| OrderedMapSpec.ReachedIffDense | base/collections/ordered_map.go:125-179 | The density bound is exact: used slots and live entries occur together in some run iff live <= used < 4 * live |
| OrderedMapSpec.FillThenDeleteMakesRow | base/collections/ordered_map.go:125-179 | Inserting keys and deleting the first of them leaves that many tombstones, and no compaction as long as more than a quarter is live |
| OrderedMapSpec.StepCost | base/collections/ordered_map.go:125-179 | Each tombstone pays a third of a move |
| OrderedMapSpec.CompactionKeepsLive | base/collections/ordered_map.go:164-179 | Compaction keeps the live entries and their order |
| OrderedMap.OrderedMap.Lookup | base/collections/ordered_map.go:63-70 | Returns the value the slots hold for the key |
| OrderedMap.OrderedMap.Len | base/collections/ordered_map.go:73-75 | The number of positions is the number of live entries |
| OrderedMap.OrderedMap.Keys | base/collections/ordered_map.go:80-93 | The keys of the live entries in order |
| OrderedMap.OrderedMap.InsertOrKeep | base/collections/ordered_map.go:98-104 | The slots take the specified step; the result says whether the key was absent |
| OrderedMap.OrderedMap.InsertOrReplace | base/collections/ordered_map.go:110-120 | The slots take the specified step; the old value is returned |
| OrderedMap.OrderedMap.Delete | base/collections/ordered_map.go:125-141 | The slots take the specified step, with zeroed tombstone and compaction; the old value is returned |
| OrderedMap.OrderedMap.InsertNew | base/collections/ordered_map.go:143-162 | One more present slot at the end, with positions, bits and chunks in agreement |
| OrderedMap.OrderedMap.CompactIfNeeded | base/collections/ordered_map.go:164-179 | Packs the live entries iff they are at most a quarter of the used slots |
| OrderedMap.OrderedMap.CopyLive | base/collections/ordered_map.go:169-178 | The nested loops copy exactly the live entries in order |
| OrderedMap.PositionRoundTrip | base/collections/ordered_map.go:188-201 | Packing and splitting a position are inverse, and the packed position of slot i is i |
| OrderedMap.SetPresent | base/collections/ordered_map.go:159 | Setting a present bit changes that bit only |
| OrderedMap.ClearPresent | base/collections/ordered_map.go:138 | Clearing a present bit changes that bit only |
| OrderedMap.PositionsCount | base/collections/ordered_map.go:73-75 | Positions that agree with the slots are as many as the live entries |
| OrderedMap.RangeCheckNeverFires | base/collections/ordered_map.go:190-196 | With at most 2^46 live entries a reachable map stays inside the supported positions |
| OrderedMap.LimitReachedIff | base/collections/ordered_map.go:190-196 | A map with n live entries can stand at 2^48 used slots, where the next insertion fails the range check, iff 2^46 < n <= 2^48 |
| OrderedMap.LimitReachedEarly | base/collections/ordered_map.go:23 | A run that stands at the limit with 2^46 + 1 live entries, below the documented 2^48 |
| Deque.Deque.PushFront | base/collections/deque.go:87-100 | Puts the value before the contents, with the specified growth and copy count; slots outside the window stay zero |
| Deque.Deque.PushBack | base/collections/deque.go:106-116 | Puts the value after the contents, likewise |
| Deque.Deque.PopFront | base/collections/deque.go:129-148 | Returns and removes the first element, zeroes its slot, keeps the capacity |
| Deque.Deque.PopBack | base/collections/deque.go:153-168 | Returns and removes the last element, zeroes its slot, keeps the capacity |
| Deque.Deque.TryPopFront | base/collections/deque.go:118-123 | None and no change on the empty deque, PopFront otherwise |
| Deque.ContentsAreThePushes | base/collections/deque.go:83-168 | Over any run the element at index i is the value whose push put it there and that no pop has taken since; so a pop takes the last value pushed at its end, or else the oldest from the other end |
| Deque.Deque.ReserveMore | base/collections/deque.go:71-81 | Room for n more elements, same contents |
| Deque.Deque.ReserveCapacity | base/collections/deque.go:185-205 | Moves the contents to a larger zeroed buffer iff the capacity is too small |
| Deque.Deque.SplitContiguous | base/collections/deque.go:209-212 | The two slices together are the contents |
| Deque.Deque.PhysicalIndex | base/collections/deque.go:253-261 | The slot of an offset, inside the buffer |
| Deque.SlotIsModulo | base/collections/deque.go:18-23 | That slot is (head + offset) mod capacity |
| Deque.CapacityFor | base/collections/deque.go:219-234 | The new capacity is at least 4 and the wanted one, and fits an integer |
| Deque.GrowthIsAmortized | base/collections/deque.go:173-205 | Without reservations growth copies at most two elements per push over any run of any length that ends with a capacity of at most 2^62 + 1 |
| Deque.AmortizedExactlyWhen | base/collections/deque.go:229-233 | The bound holds for all runs that end with a given capacity iff that capacity is at most 2^62 + 1 |
| Deque.AppendsCost | base/collections/deque.go:229-233 | Plain appends double the capacity up to 2^62 and then copy the whole buffer for each element, which breaks the bound from 2^62 + 2 elements on |
| Deque.LargeBuffersGrowByOne | base/collections/deque.go:229-233 | Beyond half the largest integer each push copies the whole buffer |
| Deque.DocumentedBoundExactlyWhen | base/collections/deque.go:214-234 | The documented capacity bound holds iff the old capacity is at most half the largest integer or the request is the largest one |
| Deque.DocumentedBoundFails | base/collections/deque.go:214-234 | A concrete request on which the documented bound fails |
| BitVec.BitVec.Set | base/collections/bit_vec.go:53-56 | Exactly bit i becomes set; unused bits stay zero |
| BitVec.BitVec.Clear | base/collections/bit_vec.go:61-64 | Exactly bit i becomes unset; unused bits stay zero |
| BitVec.BitVec.Get | base/collections/bit_vec.go:45-48 | Reads bit i |
| BitVec.BitVec.FindAtOrBefore | base/collections/bit_vec.go:71-85 | The answer of a linear scan to the left |
| BitVec.BitVec.FindAtOrAfter | base/collections/bit_vec.go:92-109 | The answer of a linear scan to the right; the unused-bit assertion is unreachable |
| BitVec.LowBitsMask | base/collections/bit_vec.go:148-152 | The n lowest bits and no other are set, also for n = 64 where the shift overflows |
| BitVec.BitMask | base/collections/bit_vec.go:140-142 | Exactly bit i mod 64 is set |
| BitVec.TopOfWord | base/collections/bit_vec.go:79-82 | The leading-zero count finds the highest set bit |
| BitVec.BottomOfWord | base/collections/bit_vec.go:100-101 | The trailing-zero count finds the lowest set bit |
| Utf8.FirstInvalidSpan | base/utf8/utf8.go:90-101 | None iff the text is UTF8-octets; otherwise the text before the span is the longest valid prefix and the span is truncated or malformed |
| Utf8.InvalidSpanAt | base/utf8/utf8.go:104-138 | A span of 1 to 4 bytes that is a truncated encoding at the end, or non-extendable with all bytes but the last a proper prefix of an encoding; the "complete encoding" assertions are unreachable |
| Utf8.LeadByteInfoIsGrammar | base/utf8/utf8.go:158-179 | The table of lead bytes is the grammar |
| Utf8.ValidIffOctets | base/utf8/utf8.go:140-153 | Reading characters left to right accepts exactly UTF8-octets |
| Utf8.ExtendableIff | base/utf8/utf8.go:104-138 | The table decides which bytes are a proper prefix of an encoding |
| Utf8.DecodeTellsInvalid | base/utf8/utf8.go:66-74 | Replacement character with size 1 means exactly invalid input |
| Utf8.ParseText | base/utf8/text.go:35-42 | Succeeds iff the text is valid; otherwise reports the first invalid span and its bytes, and all checks of NewTextParseError hold |
| Utf8.NewTextParseError | base/utf8/text.go:117-140 | Stores the bytes padded with zeros |
| Utf8.CodePointContaining | base/utf8/text.go:64-87 | None iff the offset is a boundary; otherwise the character around it |
| Utf8.BoundaryIff | base/utf8/utf8.go:82-84 | In valid text the positions between characters are those without a tail byte |
| GraphemeWindow.SegmentedText.FindGraphemeClusterContaining | base/internal/uniseg/uniseg.go:90-154 | None iff at a boundary; otherwise a codepoint-aligned window inside the cluster around the offset, at most maxCodePoints long, full iff the cluster has at most that many, and otherwise with the exact share on each side |
| GraphemeWindow.SegmentedText.Optimistic | base/internal/uniseg/uniseg.go:104-121 | Finds the whole cluster iff it has at most maxCodePoints codepoints |
| GraphemeWindow.SegmentedText.GrowBalanced | base/internal/uniseg/uniseg.go:129-148 | The loop takes each budget or all codepoints of that side, whichever is less |
| GraphemeWindow.SegmentedText.NextCodePointEnd | base/internal/uniseg/uniseg.go:157-161 | The next boundary, one code point on |
| GraphemeWindow.SegmentedText.PreviousCodePointStart | base/internal/uniseg/uniseg.go:163-169 | The previous boundary, one code point back |
| GraphemeWindow.SegmentedText.constructor | base/internal/uniseg/uniseg.go:29-36 | The bit vector marks 0 and the cluster ends and nothing else |
| GraphemeWindow.BalancedExactlyWhen | base/internal/uniseg/uniseg.go:77-79 | The documented split of a window holds iff both sides of the cluster are long enough |
| GraphemeWindow.AccentedBalancedIff | base/internal/uniseg/uniseg.go:77-79 | After the letter of any accented letter that is too large, every window the code may return is split as documented iff it has room for at most three code points |
| GraphemeWindow.ShortSideIsNotBalanced | base/internal/uniseg/uniseg.go:90-154 | The code on a letter with five combining accents and room for four code points returns a window with one code point before the offset, not two |
| Txtar.FormatThenParse | tools/txtar/archive.go:53-88 | Parse undoes Format on exactly the well-formed archives |
| Txtar.ParseFormatParse | tools/txtar/archive.go:57-143 | Parsing, printing and parsing again changes nothing iff no marker dangles before a lone carriage return |
| Txtar.ParseFormatParseWithoutReturn | tools/txtar/archive.go:57-143 | In particular for every input that does not end in a carriage return |
| Txtar.DanglingMarkerFails | tools/txtar/archive.go:121-126 | A family of inputs on which it fails |
| Txtar.ParsedIsWellFormedIff | tools/txtar/archive.go:78-88 | The parser returns a well-formed archive iff no marker dangles |
| Txtar.Format | tools/txtar/archive.go:57-65 | The loop writes the comment, marker lines and data in order |
| Txtar.FormatSplits | tools/txtar/archive.go:57-65 | The printer writes the comment and, file by file in order, "-- name --", a newline and the data, each text closed by a newline |
| Txtar.Parse | tools/txtar/archive.go:78-88 | The loop computes the line-by-line parse |
| Txtar.ParseSplits | tools/txtar/archive.go:78-112 | The parser cuts its input into the comment and, file by file in order, marker line and data; it drops nothing and adds at most the final newline |
| Txtar.FindFileMarker | tools/txtar/archive.go:100-112 | Jumping from one newline-marker to the next finds what going line by line finds |
| Txtar.MarkerIff | tools/txtar/archive.go:117-131 | In terms of bytes: a line is the marker of a name iff it is "-- ", white space, the trimmed name, white space, " --" and a line ending that only the end of the input may omit |
| Txtar.SkipToMarker | tools/txtar/archive.go:106-110 | No marker line is skipped by a jump |
| Txtar.FindPrintedMarker | tools/txtar/archive.go:100-131 | After a good text a printed marker line gives back text, name and rest |
| Txtar.MarkerLineParses | tools/txtar/archive.go:117-131 | A printed marker line is read as its name |
| Txtar.MarkerNameIsGood | tools/txtar/archive.go:117-131 | A name that is read is non-empty, trimmed and free of newlines |
| Txtar.FoundNothingIffMarkerFree | tools/txtar/archive.go:100-112 | The parser finds no marker iff no line of the text is one |
| Txtar.ClosedIsGoodIff | tools/txtar/archive.go:106-109 | Closing the last line gives a marker-free text iff no marker dangles |
| TrimSpace.TrimIsIdempotent | tools/txtar/archive.go:130 | Trimming is idempotent |
| TrimSpace.TrimmedIff | tools/txtar/archive.go:130 | A string is trimmed iff it has no white space at either end |
| TrimSpace.TrimSplits | tools/txtar/archive.go:130 | Trimming takes concatenations of white-space characters off both ends, and what is left neither starts nor ends with one |
| TrimSpace.TrimIs | tools/txtar/archive.go:130 | Such a decomposition determines the trimmed text |
| TrimSpace.SpaceEncodingIff | tools/txtar/archive.go:130 | White space is the UTF-8 encoding of a code point with the Unicode property White_Space |
| TxtarFS.Filesystem.InitFiles | tools/txtar/fs.go:71-84 | Succeeds iff all names are valid, not ".", distinct, and none is an ancestor of another; the nodes are then exactly the root, the files and the directories above them |
| TxtarFS.ValidPathIff | tools/txtar/fs.go:71-84 | By positions: a valid name is UTF-8 and "." or has no empty, "." or ".." element |
| TxtarFS.DirSplits | tools/txtar/fs.go:87-100 | The directory of a name is the name up to its last slash, or the root |
| TxtarFS.Filesystem.Insert | tools/txtar/fs.go:87-100 | Succeeds iff the path is new and its existing ancestors are directories; adds it and the missing directories, each listed |
| TxtarFS.Filesystem.Directory | tools/txtar/fs.go:104-114 | Succeeds iff neither the directory nor an ancestor exists as a file |
| TxtarFS.ReadsBack | tools/txtar/fs.go:118-159 | Every name of the archive reads back as its data |
| TxtarFS.OnlyFilesRead | tools/txtar/fs.go:130-159 | Directories and invalid names are invalid to read, all other names do not exist |
| TxtarFS.ModifiedIffMoved | tools/txtar/fs.go:118-159 | When the archive has changed since loading, a loaded name reads as the new data iff the file of that index still has its name and size; otherwise the modification is reported |
| TxtarFS.ListedOnceInParent | tools/txtar/fs.go:87-100 | Every node but the root is listed exactly once, in its parent directory |
| TxtarFS.InsertableIffCompatible | tools/txtar/fs.go:71-114 | The next file can be inserted iff its name is compatible with all earlier ones |
| TxtarFS.AncestorsPresent | tools/txtar/fs.go:104-114 | A listed node has all its ancestors, as directories |
| SnapshotPrune.SnapshotDir.Prune | base/check/golden/golden.go:152-222 | The stack loop terminates and leaves exactly the used files, the root, and the directories with a used file beneath them |
| SnapshotPrune.PrunedMeans | base/check/golden/golden.go:149-152 | What is left, in terms of the tree alone: a file iff it is used, a directory iff it is the root or lies above a used file |
| SnapshotPrune.SnapshotDir.VisitEntries | base/check/golden/golden.go:192-219 | The loop over the entries of a directory keeps the traversal invariant, in any order of entries |
| SnapshotPrune.SnapshotDir.Leave | base/check/golden/golden.go:170-184 | A directory is removed iff it holds no used file, and otherwise marks its parent |
| SnapshotPrune.SnapshotDir.EnterTop | base/check/golden/golden.go:186-219 | Entering a directory takes it out of the unvisited ones |
| SnapshotPrune.MarkIsExact | base/check/golden/golden.go:170-176 | When a directory is left its mark says exactly whether a used file lies beneath it |
| SnapshotPrune.VisitUsedEntry | base/check/golden/golden.go:211-214 | A used file stays and marks its directory |
| SnapshotPrune.VisitUnusedEntry | base/check/golden/golden.go:215-217 | An unused file is removed and nothing else |
| SnapshotPrune.ExitUnused | base/check/golden/golden.go:176-181 | Removing a directory without used files keeps the invariant |
| SnapshotPrune.ExitUsed | base/check/golden/golden.go:182-183 | Keeping a directory and marking its parent keeps the invariant |
| SnapshotPrune.KeptByItsEntries | base/check/golden/golden.go:149-152 | A directory is kept iff one of its entries is a used file or a kept directory |
| SnapshotPrune.PruningIsIdempotent | base/check/golden/golden.go:149-152 | What is left is a tree, and pruning it again changes nothing |

## Left out

- `delve/`, `tools/present`, `tools/blog`, `tools/playground`, `tools/imports`, `tools/gopls`, `tools/copyright`, `tools/cover`: debugger backends, templates and thin wrappers.
- `base/fsx`, `base/syscaps`, `base/cmdx`, `base/logx`, `base/envx`: wrappers over the operating system and third-party libraries.
- Windows paths: the separator is "/" and there is no volume name.
- Channels and the Go memory model below mutex granularity: a lock-to-unlock region is one step and the done channel counts how often it is closed.
- In the protocol any token may be the target of an outside Cancel as soon as it exists, which includes more runs than the code has.
- The shrink-by-clone heuristic of unregisterChild, which keeps the contents.
- The real clock and timers: the instant a construction reads is a parameter, and durations and instants do not overflow.
- Grapheme segmentation: the cluster ends are a parameter, taken to be code point boundaries that include the end of the text. `CheckSpan` reads two bits of the vector that `SegmentedText` proves exact.
- Symbolic links and I/O errors in pruning; reading a directory yields its entries in any order, fixed when it is entered.
- Go's amortised slice and map costs, `openFile` and `openDir` cursors, error texts, and the formatting of parse errors.
- Pair, Set, Stack, MonotoneMap, Counter, LineTable and errorx: no modelled component depends on more than their obvious meaning; stacks and sets are Dafny sequences and sets.
- The library's UTF-8 decoder is modelled by the grammar; `Utf8.EncodeOfCodePoint` and `Utf8.CodePointOfEncode` show that this decoder inverts the encoding of RFC 3629.
- Bytes of paths are modelled as characters in `LexicalPath`, because the algorithm only compares them with "/" and ".".
- OrderedMap.OrderedMap.InsertNew: requires room below 2^48 used slots, where the source stops with an assertion.
- CancelToken.RawToken.Cancel: one goroutine only; interleavings are the subject of CancelProtocol.
- CancelProtocol.NoCallBlocks: says that a step is defined, not that a lock is free, because a lock-to-unlock region is a single step here.
