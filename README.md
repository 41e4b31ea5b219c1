# Nexora storage network and workrate arbitrator, modelled in Dafny

Nexora is a RimWorld mod that adds a digital storage network to a map. Its core has two pieces of integer bookkeeping and the small containers around them.

**The workrate arbitrator** (`LocalNetwork` with `DynWorkRate`)
- The network's CPUs provide a pool of workrate (`TotalWorkrate`) and a device quota (`MaxDevices`).
- Machines hold claims (`DynWorkRate`) on that pool. The claims are kept in a list by descending priority.
- A request preempts lower-priority claims and grants what is available.
- A claim can be released whole or in part.
- When the CPUs change, the claims are rebalanced: evicted over the quota, shrunk from the lowest priority up, then topped up from the highest priority down.
- The invariant throughout is conservation: `UsedWorkrate` equals what the listed claims hold.

**Item routing** (the storage half of `LocalNetwork`)
- Drives are kept in a set and in a list sorted by descending priority.
- An incoming stack is offered to the drives in priority order.
- Counts across drives are summed and saturated at `int.MaxValue`.
- `AutoOrganize` moves things up: each thing of a lower drive is taken out whole and routed again when the next-higher drive has room for it. Throughout, no thing is in two drives.

**The drive ledger** (`ItemStorage`)
- A drive keeps a list of stacks (`Container`) and an index from def to thing to slot (`IndexTable`).
- Inserting merges into the first compatible stack or appends.
- Removing is a swap-remove that patches the index.
- The invariant is that the list and the index agree.

**Capacity policies and their parsers**
- The policies are: unlimited, a stack-count limit, a mass budget with a dirty cache, and a byte budget with a per-thing answer cache.
- Budgets are configured as strings such as `"5k"` or `"100kb"`, read by two memoised suffix parsers.
- Byte amounts are formatted with binary units.

**The auto-worker** (`Building_AutoWorker`)
- It claims 60 · 2^level workrate.
- It overclocks by merging an extra claim into the one it holds.
- It underclocks a level at a time while its claim is not met.
- It releases its claim whenever a bill finishes or is cancelled.

**Supporting pieces**
- The access interface's holding proxy hands things back to the network.
- `PooledArray<T>` is an array-backed stack that doubles its buffer.

## How the model is organised

The modules follow the program. Each is a file of its own.

| file | module | source |
|---|---|---|
| `things.dfy` | `Things` | The engine's things, which the mod only uses: a `Thing` is a value with a reference (id, def, stuff), a stack count, a kind, a holder and a destroyed flag. It also holds `int` range and the 32-bit wrap. |
| `sorted_lists.dfy` | `SortedLists` | Lists kept by descending priority, `List.BinarySearch` with a descending comparer, insertion and removal at an index, sums. |
| `formats.dfy` | `Formats` | `CompProperties_DataFormat.Value` and `CompProperties_DataFormatBytes.Value`, the two suffix parsers with their memo, and `ToString(decimal)`. |
| `policies.dfy` | `Policies` | The four capacity policies (`CompDataFormat` and its subclasses) as one class with a `kind`. |
| `ledger.dfy` | `Ledger` | `ItemStorage`. |
| `workrate.dfy` | `Workrate` | `DynWorkRate` and the workrate half of `LocalNetwork`, as `WorkrateNetwork`. |
| `routing.dfy` | `Routing` | The storage half of `LocalNetwork`, as `StorageNetwork`. |
| `access_interface.dfy` | `AccessInterface` | `AccessInterfaceThingOwnerProxy` and `Building_AccessInterface.Accepts`. |
| `auto_worker.dfy` | `AutoWorker` | The workrate and bill bookkeeping of `Building_AutoWorker`. |
| `pooled_array.dfy` | `Pooled` | `PooledArray<T>`. |

**How the source is carried over**
- Code that changes state in place is modelled as classes with `modifies` clauses: the claims, the network, the drive, the policy caches, the worker, the proxy and the pooled array.
- The decisions those methods make are stated by pure functions: the preemption scan `Preempt`, the rebalance steps `Evict`, `Shrink`, `Reduce` and `TopUp`, the grant `Request`, the parsers, and the policy answers.
- Each method is proved to follow its function, and the promised properties are proved about the functions as lemmas.
- C# `int` arithmetic that can overflow is modelled as unbounded integers, except where the code depends on the width. There the wrap or saturation is written out (`WrapInt32`, `Saturated`, `IntMax` caps).
- `decimal` and `float` values are modelled as exact rationals (`real`).
- Things have no identity in a value model. The engine's fresh things come from a supply of ids (`freshId`, `nextId`) that the caller provides.

**Where the code and the intent differ**
- Six places are recorded under "Findings" below. For each there is a member modelling the code as written, with a lemma that shows the discrepancy. There is also a corrected member, which the rest of the model uses.
- `CompProperties_DataFormatBytes.Value` is declared `override`, but the base property in `CompProperties_DataFormat.cs` is not virtual. Code that reaches the byte parser through a `CompProperties_DataFormat` reference would therefore get the metric parser.
  - The model takes the evident intent that a byte-budget policy reads its limit with the byte parser.
  - `FormatProps` carries a `bytes` flag for this.

## Model

| member | source | states |
|---|---|---|
| Things.WrapInt32 | Source/Nexora/network/LocalNetwork.cs:235-236 | The unchecked `int` sum of the CPUs' capacities: the result is in `int` range, congruent to the exact sum modulo 2^32, and equal to it whenever it fits. |
| Things.SplitOff | Source/Nexora/ItemStorage.cs:100 | Splitting off at least the whole stack hands over the thing itself, now unheld. Splitting off fewer makes a new thing with a fresh id, the same def and exactly the requested count. |
| Things.Absorb | Source/Nexora/ItemStorage.cs:108-111 | Absorbing a stack adds its count to the target, which keeps its identity and holder. The absorbed thing is left empty and destroyed. |
| Things.TotalUnitsAppend | Source/Nexora/ItemStorage.cs:119-121 | Appending a stack adds its count to the units a list holds. |
| Things.TotalUnitsNonNegative | Source/Nexora/ItemStorage.cs:233 | A list of stacks that each hold units holds at least one unit per stack. |
| SortedLists.InsertAt | Source/Nexora/network/LocalNetwork.cs:84 | `List.Insert`: the element is at the index, everything before is unchanged, and everything after moves up by one. |
| SortedLists.RemoveAt | Source/Nexora/ItemStorage.cs:228 | `List.RemoveAt`: everything before the index is unchanged, and everything after moves down by one. |
| SortedLists.RemoveInserted | Source/Nexora/network/LocalNetwork.cs:84 | Removing at an index what was just inserted there restores the list. |
| SortedLists.RemoveFirst | Source/Nexora/network/LocalNetwork.cs:118 | `List.Remove`: a missing element leaves the list alone, and a present one is removed at its first position. |
| SortedLists.RemoveFirstDistinct | Source/Nexora/network/LocalNetwork.cs:118 | Removing from a list without duplicates keeps it duplicate-free and removes exactly that element. |
| SortedLists.BinarySearch | Source/Nexora/network/LocalNetwork.cs:76-83 | `List.BinarySearch` with the descending comparer, over a list sorted by descending key. A non-negative result points at an equal key. A negative result means the key is absent. Either way, the insertion index (`~r` when negative) is a place where the key fits the order. |
| SortedLists.InsertKeepsDescending | Source/Nexora/network/LocalNetwork.cs:76-84 | Inserting a key where it fits keeps the list in descending order. |
| SortedLists.RemoveKeepsDescending | Source/Nexora/network/LocalNetwork.cs:118 | Removing any element keeps the list in descending order. |
| SortedLists.SumInsert | Source/Nexora/network/LocalNetwork.cs:74-84 | Inserting a value adds it to the sum. |
| SortedLists.SumRemove | Source/Nexora/network/LocalNetwork.cs:114-118 | Removing the value at an index takes it off the sum. |
| Formats.TrimIdempotent | Source/Nexora/comp/CompProperties_DataFormat.cs:28 | `Trim` is idempotent. |
| Formats.TrimPadded | Source/Nexora/comp/CompProperties_DataFormatBytes.cs:28 | Trimming a word padded with white space on either side gives the word back. |
| Formats.ParseUnsigned | Source/Nexora/comp/CompProperties_DataFormat.cs:46 | The unsigned number grammar (digits, optionally a point and more digits) yields only non-negative values. |
| Formats.LoggedIsZero | Source/Nexora/comp/CompProperties_DataFormat.cs:46-54 | For both parsers, a parse that logs an error yields 0. |
| Formats.PlainNumber | Source/Nexora/comp/CompProperties_DataFormat.cs:29 | A bare number has multiplier 1 in both parsers: the value is the number, and nothing is logged. |
| Formats.NoSuffix | Source/Nexora/comp/CompProperties_DataFormat.cs:29-45 | A string ending in a digit matches no suffix in either parser, so the multiplier is 1 and nothing is cut. |
| Formats.MetricScales | Source/Nexora/comp/CompProperties_DataFormat.cs:28-45 | A number followed by `k`, `m` or `b` in either case is scaled by 10^3, 10^6 or 10^9. |
| Formats.BytesScales | Source/Nexora/comp/CompProperties_DataFormatBytes.cs:28-54 | A number followed by `tb`, `gb`, `mb` or `kb` in any case is scaled by 2^40, 2^30, 2^20 or 2^10. |
| Formats.BytesBare | Source/Nexora/comp/CompProperties_DataFormatBytes.cs:50-54 | A number followed by a bare `b` is read as that many bytes. |
| Formats.SuffixBDisagrees | Source/Nexora/comp/CompProperties_DataFormat.cs:40-44 | The two parsers disagree on `b`: for "Nb" the metric reading is 10^9 times the byte reading. |
| Formats.CaseInsensitive | Source/Nexora/comp/CompProperties_DataFormatBytes.cs:28 | Both parsers give the same result for a string and its lower-case form. |
| Formats.NoDigitIsError | Source/Nexora/comp/CompProperties_DataFormat.cs:46-54 | A non-empty string without a digit yields 0 and logs an error in both parsers. |
| Formats.FormatProps.constructor | Source/Nexora/comp/CompProperties_DataFormat.cs:10-14 | A fresh property block has not read its value yet and has logged nothing. |
| Formats.FormatProps.Value | Source/Nexora/comp/CompProperties_DataFormatBytes.cs:16-69 | The getter returns the parse of the configured string, memoises it, and returns the same value on every later read. An error is logged only on the first read of a value that does not parse. Any valid block holds the parse of its configured text, not only a fresh one. |
| Formats.ScaleBytes | Source/Nexora/comp/CompProperties_DataFormatBytes.cs:73-81 | The division loop of `ToString(decimal)`: the unit index is at most that of EB, the mantissa times 1024^index is the input, and the mantissa is below 1024 unless the unit is EB. When a unit above B is used, the mantissa is at least 1. |
| Formats.FormatBytes | Source/Nexora/comp/CompProperties_DataFormatBytes.cs:71-84 | `ToString(decimal)`: the mantissa before rounding times 1024^index is the input, and it is below 1024 unless the unit is EB. The shown value is that mantissa rounded to whole hundredths, at most 0.005 away. It is at most 1024 (not below 1024) unless the unit is EB, and at least 1 when a unit above B is used. |
| Formats.RoundTwo | Source/Nexora/comp/CompProperties_DataFormatBytes.cs:83 | The format `0.##` shows a value in whole hundredths, at most 0.005 away from it, and never shows a non-negative value as negative. |
| Formats.RoundTwoBetween | Source/Nexora/comp/CompProperties_DataFormatBytes.cs:83 | Rounding to two places never carries a value across a whole number: at or below n stays at or below n, at or above n stays at or above n. |
| Formats.FullKilobyteShown | Source/Nexora/comp/CompProperties_DataFormatBytes.cs:77-83 | 1048575 bytes stays in KB, with a mantissa below 1024, and is shown as 1024 ("1024KB"). |
| Formats.DivideStep | Source/Nexora/comp/CompProperties_DataFormatBytes.cs:77-81 | One division by 1024 together with one step up in unit keeps the represented amount. |
| Policies.TypeAnswer | Source/Nexora/comp/CompDataFormatType.cs:7-11 | The stack-count limit answers `int.MaxValue` or 0, and answers positively exactly when fewer stacks than the limit are stored. |
| Policies.TypeAnswerAntitone | Source/Nexora/comp/CompDataFormatType.cs:9-10 | More stored stacks never raise the stack-count answer. |
| Policies.FreeMass | Source/Nexora/comp/CompDataFormatMassFormat.cs:45 | The free mass is `max(limit - mass, 0)`: never negative, and either 0 or the difference. |
| Policies.MassAnswerAsWritten | Source/Nexora/comp/CompDataFormatMassFormat.cs:42-52 | The mass answer exactly as the code computes it. A thing of non-positive unit mass gets `int.MaxValue`. The `(int)` conversion fails (no answer) exactly when the floored quotient exceeds `int.MaxValue`. |
| Policies.MassAnswerFits | Source/Nexora/comp/CompDataFormatMassFormat.cs:42-52 | The corrected mass answer is in `0..int.MaxValue` and is the largest count whose mass fits in the free mass, unless it is capped at `int.MaxValue`. |
| Policies.MassAsWrittenAgrees | Source/Nexora/comp/CompDataFormatMassFormat.cs:51 | Wherever the code's conversion succeeds, the corrected answer equals the code's. |
| Policies.MassAnswerOverflows | Source/Nexora/comp/CompDataFormatMassFormat.cs:51 | A 3·10^9 limit on an empty drive, for a thing of unit mass 1, makes the code's conversion fail. The corrected answer is `int.MaxValue`. |
| Policies.Ceil | Source/Nexora/comp/CompDataFormatBytes.cs:55 | `decimal.Ceiling`: the least integer at or above the value. |
| Policies.TotalBytesCovers | Source/Nexora/comp/CompDataFormatBytes.cs:51-56 | The total bytes are the exact cost (16 per stack plus 0.5 per unit) rounded up to less than one byte more. |
| Policies.BytesAnswerFits | Source/Nexora/comp/CompDataFormatBytes.cs:35-40 | The byte answer is 0 when there is no room. Otherwise it is the number of half-byte units that fit, capped at `int.MaxValue`. |
| Policies.NewStackGetsLess | Source/Nexora/comp/CompDataFormatBytes.cs:30-34 | A thing that would start a new stack never gets a larger byte answer than one that merges. |
| Policies.DataFormat.AnswerRange | Source/Nexora/comp/CompDataFormat.cs:11 | Every policy answers a count in `0..int.MaxValue`. |
| Policies.DataFormat.AnswerByKind | Source/Nexora/comp/CompDataFormatType.cs:7-10 | The answer depends only on the asked thing's def and stuff. Which particular stack is asked about does not matter. |
| Policies.DataFormat.constructor | Source/Nexora/comp/CompDataFormatMassFormat.cs:9-10 | A new policy starts with a dirty mass cache, a zero byte total and an empty answer cache. |
| Policies.DataFormat.Mass | Source/Nexora/comp/CompDataFormatMassFormat.cs:12-26 | `Mass` returns the drive's total mass when the cache is dirty, and the cached mass otherwise. Afterwards the cache holds the result and is clean. |
| Policies.DataFormat.OnChange | Source/Nexora/comp/CompDataFormatBytes.cs:76-80 | The byte policy's `OnChange` clears the answer cache and recomputes the byte total. |
| Policies.DataFormat.OnChanged | Source/Nexora/comp/CompDataFormatMassFormat.cs:32-40 | After a drive changes, the mass policy is marked dirty. In the corrected model the byte policy also refreshes its caches. Either way, the caches again agree with the drive. |
| Policies.DataFormat.GetCountCanAccept | Source/Nexora/comp/CompDataFormatBytes.cs:21-44 | The policy's answer is in `0..int.MaxValue`. With caches that agree with the drive, it is exactly the policy's answer for the drive's contents. |
| Policies.DataFormat.ByteQuery | Source/Nexora/comp/CompDataFormatBytes.cs:21-44 | The byte answer comes from the cache when one is present. Otherwise it is computed from the cached total, and cached only when positive. |
| Policies.StaleByteCache | Source/Nexora/comp/CompDataFormatBytes.cs:23-26 | With the cache as written, a 100-byte drive keeps answering 168 after those 168 units have filled it. The answer computed from its contents is 0. |
| Policies.StaleAfterLoad | Source/Nexora/ItemStorage.cs:142-161 | The load path tells the policy nothing, so the byte total keeps its initial 0. A 100-byte drive loaded with one 168-unit stack is full, yet its first query answers 200. |
| Ledger.IndexIff | Source/Nexora/ItemStorage.cs:182-190 | Under agreement, the index maps a thing to slot `i` exactly when slot `i` holds that thing. |
| Ledger.AgreeUnique | Source/Nexora/ItemStorage.cs:147-158 | A list determines the index that agrees with it. |
| Ledger.IndexedDefs | Source/Nexora/ItemStorage.cs:192-195 | A def is in the index exactly when some stored stack has it. |
| Ledger.SwapRemove | Source/Nexora/ItemStorage.cs:216-228 | The swap-remove shrinks the list by exactly one. |
| Ledger.SwapRemoveMultiset | Source/Nexora/ItemStorage.cs:216-228 | The swap-remove removes exactly the element at the index, and every other element stays. |
| Ledger.AgreeRemove | Source/Nexora/ItemStorage.cs:210-228 | The index patch of `Remove` (drop the entry, move the last stack's slot, drop an emptied def) keeps the index agreeing with the swap-removed list. |
| Ledger.AgreeAppend | Source/Nexora/ItemStorage.cs:119-121 | Indexing a new thing at the old length keeps agreement with the appended list. |
| Ledger.FirstMerge | Source/Nexora/ItemStorage.cs:106-117 | The merge target is the first stack that is compatible and would not overflow `int`, or none when no stack is. |
| Ledger.KeptMembers | Source/Nexora/ItemStorage.cs:144-146 | The load filter keeps exactly the loaded things that are present, not empty minified things and not pawnless corpses. |
| Ledger.ItemStorage.constructor | Source/Nexora/ItemStorage.cs:13-19 | A new drive is empty and agrees with its empty index. |
| Ledger.ItemStorage.Count | Source/Nexora/ItemStorage.cs:233 | `Count` is the number of stacks. |
| Ledger.ItemStorage.IndexOf | Source/Nexora/ItemStorage.cs:182-190 | `IndexOf` gives -1 for null and for unknown things, and the slot recorded in the index otherwise. |
| Ledger.ItemStorage.IndexOfFinds | Source/Nexora/ItemStorage.cs:182-190 | `IndexOf` finds slot `i` exactly when slot `i` holds the thing. |
| Ledger.ItemStorage.ContainsIff | Source/Nexora/ItemStorage.cs:192-195 | `Contains(def)` holds exactly when some stored stack has that def. |
| Ledger.ItemStorage.GetCountCanAccept | Source/Nexora/ItemStorage.cs:126-129 | The drive forwards to its policy, whose answer for its contents it returns. |
| Ledger.ItemStorage.FindMerge | Source/Nexora/ItemStorage.cs:106-117 | The merge scan finds the first mergeable stack. |
| Ledger.ItemStorage.TryAddItem | Source/Nexora/ItemStorage.cs:54-124 | For a thing that is unheld or held by this drive. A null, non-item or bugged-corpse thing gets -1 and changes nothing. A count of `min(answer, stack)` at or below 0 gets 0 and changes nothing. A thing this drive holds gets its stack count and changes nothing. Otherwise exactly `min(answer, stack)` units are merged into the first compatible stack or appended, the rest stays with the caller, and list and index keep agreeing. |
| Ledger.ItemStorage.TakeLoose | Source/Nexora/ItemStorage.cs:56-124 | An unheld thing is refused with -1, or accepted up to the drive's answer, with the units stored growing by the count accepted. |
| Ledger.ItemStorage.Accept | Source/Nexora/ItemStorage.cs:93-123 | The accepting half of `TryAddItem`: the split-off units are merged into the first mergeable stack or appended as a new indexed stack held by the drive. |
| Ledger.ItemStorage.AcceptedUnits | Source/Nexora/ItemStorage.cs:100-123 | Accepting `num` units grows the units stored by exactly `num`. When only part of the stack is taken, the caller keeps the rest. |
| Ledger.ItemStorage.MergeInto | Source/Nexora/ItemStorage.cs:110 | Merging adds the units to one stack and leaves the index alone. |
| Ledger.ItemStorage.Append | Source/Nexora/ItemStorage.cs:119-122 | Appending adds the stack at the end and indexes it at the old length. |
| Ledger.ItemStorage.Remove | Source/Nexora/ItemStorage.cs:197-231 | `Remove` succeeds exactly for a non-null thing that is indexed here. Failure changes nothing. Success swap-removes its slot, patches the index, clears the thing's holder, and keeps list and index agreeing. |
| Ledger.ItemStorage.PostLoadInit | Source/Nexora/ItemStorage.cs:142-161 | After loading, the drive holds exactly the kept things, in their order, each now held by the drive, with an index that agrees. The policy's caches are refreshed, as the corrected change hook does. |
| Ledger.ItemStorage.TryAddCount | Source/Nexora/ItemStorage.cs:169-175 | Corrected `TryAdd(item, count)`: when `min(stack, count, answer)` is at or below 0 it takes nothing. Otherwise it takes exactly that many units. |
| Ledger.ItemStorage.TryAdd | Source/Nexora/ItemStorage.cs:177-180 | `TryAdd(item)` reports true exactly when the thing is accepted and `min(answer, stack)` is positive. A loose thing it reports true for grows the units stored. A false result changes nothing. |
| Ledger.MergeKeeps | Source/Nexora/ItemStorage.cs:108-111 | Growing a stack by a non-overflowing amount keeps agreement and the drive's holding. |
| Ledger.AppendKeeps | Source/Nexora/ItemStorage.cs:119-121 | Appending a new thing held by the drive keeps agreement and holding. |
| Ledger.RemoveKeeps | Source/Nexora/ItemStorage.cs:210-228 | A swap-remove keeps agreement and holding, and the removed thing is no longer indexed. |
| Ledger.LoadedNotIndexed | Source/Nexora/ItemStorage.cs:147-158 | During the load loop, the next loaded thing is not yet in the index, so `Dictionary.Add` does not throw. |
| Ledger.SplitCount | Source/Nexora/ItemStorage.cs:171 | The count `TryAdd(item, count)` computes, `min(stack, count, answer)`, is the least of the three. |
| Ledger.SplitCountZero | Source/Nexora/ItemStorage.cs:171-173 | A full drive, or a count of 0, makes that count 0 or less, which the code passes to `SplitOff`. |
| Ledger.Claim | Source/Nexora/ItemStorage.cs:147-158 | The load loop takes every kept thing into its own slot, held by the drive, and builds an index that agrees with the list. |
| Workrate.HeldInsert | Source/Nexora/network/LocalNetwork.cs:74-84 | Inserting a claim adds what it holds to what the claims hold. |
| Workrate.HeldRemove | Source/Nexora/network/LocalNetwork.cs:114-118 | Removing a claim takes what it holds off what the claims hold. |
| Workrate.Preempt | Source/Nexora/network/LocalNetwork.cs:45-69 | The corrected scan keeps a prefix of the claims and cuts nothing negative. A cut falls on the last kept claim, is smaller than what it held, and leaves exactly the requested value available. |
| Workrate.PreemptReleases | Source/Nexora/network/LocalNetwork.cs:53-65 | A lower-priority victim is released whole when the device quota applies or when it holds no more than the requested value, as the test at line 61 says. A victim the shortfall would empty anyway, possible only while over-committed, is released whole too. |
| Workrate.PreemptCuts | Source/Nexora/network/LocalNetwork.cs:66-68 | Outside the quota, a victim holding more than the requested value (and more than the shortfall) is cut by the shortfall, and the scan ends there. |
| Workrate.PreemptStops | Source/Nexora/network/LocalNetwork.cs:45-51 | The scan stops without touching anything once enough is available, the list is exhausted, or the next claim's priority is not below the request's. |
| Workrate.PreemptOnlyLower | Source/Nexora/network/LocalNetwork.cs:48-51 | Only claims of strictly lower priority than the request are released or cut. |
| Workrate.PreemptAccounting | Source/Nexora/network/LocalNetwork.cs:61-68 | What becomes available is exactly what the released claims held plus the cut. |
| Workrate.PreemptExhausts | Source/Nexora/network/LocalNetwork.cs:45-51 | A scan that ends short of the request has no lower-priority claim left. |
| Workrate.PreemptNoOverreach | Source/Nexora/network/LocalNetwork.cs:45-69 | A cut leaves exactly the requested value available. Any excess over the request (and over what was available before) comes from the last claim released whole, which was still needed when it was taken. |
| Workrate.PreemptAsWritten | Source/Nexora/network/LocalNetwork.cs:45-69 | The scan as written, which cuts by the requested value. It keeps a prefix and never lowers what is available. |
| Workrate.PreemptOvercuts | Source/Nexora/network/LocalNetwork.cs:67 | A request for 50 with 20 available, against a lower-priority claim holding 80: as written the claim loses 50 and 70 ends up available, more than the request can use. The corrected scan cuts 30. Against a claim holding 40, both scans release it whole. |
| Workrate.PreemptOnlyCutDiffers | Source/Nexora/network/LocalNetwork.cs:45-69 | On a network that is not over-committed, the corrected scan keeps the same claims as the code as written. When no claim is cut the two agree outright. Where the code cuts the last kept claim by the requested value, the corrected scan cuts the same claim by the shortfall. |
| Workrate.Evict | Source/Nexora/network/LocalNetwork.cs:237-243 | Quota eviction keeps a prefix of `maxDevices` claims (none when the quota is negative), or all claims when they are within it. |
| Workrate.Shrink | Source/Nexora/network/LocalNetwork.cs:245-262 | Shrinking never lengthens the list. |
| Workrate.Reduce | Source/Nexora/network/LocalNetwork.cs:245-270 | After the shrink phase and its forced reset, at most the total is in use. |
| Workrate.TopUp | Source/Nexora/network/LocalNetwork.cs:272-293 | The top-up keeps the number of claims. |
| Workrate.ShrinkKeepsPrefix | Source/Nexora/network/LocalNetwork.cs:245-262 | Shrinking leaves the claims before the last kept one untouched. |
| Workrate.ShrinkCut | Source/Nexora/network/LocalNetwork.cs:253-260 | The boundary claim is cut by exactly the remaining shortfall, and the scan stops there. |
| Workrate.ShrinkExact | Source/Nexora/network/LocalNetwork.cs:245-262 | When the claims hold at least the shortfall, the shrink frees exactly the shortfall. |
| Workrate.TopUpToward | Source/Nexora/network/LocalNetwork.cs:272-293 | The top-up moves every claim toward its expectation and never past it, keeping priority and expectation. |
| Workrate.TopUpBounded | Source/Nexora/network/LocalNetwork.cs:272-293 | The top-up never raises use above the total (or above what was in use, if that was more). |
| Workrate.TopUpFills | Source/Nexora/network/LocalNetwork.cs:272-293 | After the top-up, every claim still below its expectation was passed with nothing left to give. |
| Workrate.TopUpStops | Source/Nexora/network/LocalNetwork.cs:274-276 | With nothing available, or every claim met, the top-up changes nothing. |
| Workrate.EvictAccounting | Source/Nexora/network/LocalNetwork.cs:237-243 | Eviction frees exactly what the evicted claims held. |
| Workrate.ShrinkAccounting | Source/Nexora/network/LocalNetwork.cs:245-262 | Shrinking frees exactly what the removed claims held plus the cut. |
| Workrate.TopUpAccounting | Source/Nexora/network/LocalNetwork.cs:272-293 | Every top-up or trim moves use by exactly the change in the claim. |
| Workrate.RebalanceBounded | Source/Nexora/network/LocalNetwork.cs:235-293 | After rebalancing, use is at most the total, no claim is added, and a non-negative quota is met. |
| Workrate.RebalanceConserves | Source/Nexora/network/LocalNetwork.cs:235-293 | With a non-negative total, rebalancing claims that account for their use keeps them accounting for it, each still holding workrate. |
| Workrate.RebalanceIdempotent | Source/Nexora/network/LocalNetwork.cs:235-293 | Rebalancing a rebalanced pool with the same totals changes nothing. |
| Workrate.Request | Source/Nexora/network/LocalNetwork.cs:43-86 | A request, with the corrected cut, never grants more than asked or than is available after preemption, and never adds more than one claim. |
| Workrate.RequestPreempts | Source/Nexora/network/LocalNetwork.cs:45-85 | Preemption and grant together conserve workrate. The kept claims are a priority prefix and stay sorted. |
| Workrate.RequestOnlyLower | Source/Nexora/network/LocalNetwork.cs:48-51 | Every claim a request takes from has strictly lower priority. |
| Workrate.RequestFits | Source/Nexora/network/LocalNetwork.cs:71-85 | A request that fits in what is available preempts nothing and is granted in full. |
| Workrate.RequestIgnoresQuotaWhenAvailable | Source/Nexora/network/LocalNetwork.cs:45-57 | The device quota is checked only inside the shortfall loop. A request that fits is granted even when the quota is already reached. |
| Workrate.RequestGrantsWhenAvailable | Source/Nexora/network/LocalNetwork.cs:71-73 | With workrate available, a positive request gets a positive grant. |
| Workrate.ProvidedRemove | Source/Nexora/network/LocalNetwork.cs:235-236 | The CPUs' capacity is the sum over the set, one CPU at a time. |
| Workrate.SumProvided | Source/Nexora/network/LocalNetwork.cs:235-236 | The summing loop computes the CPUs' total capacity. |
| Workrate.DynWorkRate.constructor | Source/Nexora/network/DynWorkRate.cs:5-10 | A new claim holds and expects the value, is live, has the given priority, and is not low. |
| Workrate.RemoveKeepsValid | Source/Nexora/network/LocalNetwork.cs:114-118 | Removing a claim keeps the list sorted, distinct and live, and removes exactly that claim. |
| Workrate.InsertKeepsValid | Source/Nexora/network/LocalNetwork.cs:76-84 | Inserting a new live claim where its priority fits keeps the list valid, at the index found. |
| Workrate.WorkrateNetwork.constructor | Source/Nexora/network/LocalNetwork.cs:21-26 | A new network has no claims, no CPUs and zero totals, and is conserved. |
| Workrate.WorkrateNetwork.PrefixTracks | Source/Nexora/network/LocalNetwork.cs:237-269 | A list cut back to a prefix, with the rest released, still accounts for every claim it had. |
| Workrate.WorkrateNetwork.ReleaseWorkRate | Source/Nexora/network/LocalNetwork.cs:106-121 | Releasing a released claim changes nothing. Otherwise the claim leaves the list and is marked released, and its value returns to the pool unless `keepValue`. Conservation is kept except for a `keepValue` release. |
| Workrate.WorkrateNetwork.Retire | Source/Nexora/network/LocalNetwork.cs:114-118 | Marking a claim released and taking it out of the list leaves use unchanged. |
| Workrate.WorkrateNetwork.ReleaseWorkRateBy | Source/Nexora/network/LocalNetwork.cs:88-104 | A partial release of at least the claim's value is a full release. A smaller one lowers the claim and use by exactly that amount. Releasing a released claim changes nothing. Conservation is kept. |
| Workrate.WorkrateNetwork.ReleaseLast | Source/Nexora/network/LocalNetwork.cs:61-65 | Releasing the lowest-priority claim frees exactly what it held. |
| Workrate.WorkrateNetwork.ReleaseLastBy | Source/Nexora/network/LocalNetwork.cs:66-68 | Cutting the lowest-priority claim lowers it and use by the cut. |
| Workrate.WorkrateNetwork.FreeWorkrate | Source/Nexora/network/LocalNetwork.cs:45-69 | The preemption loop leaves exactly the prefix and cut that the corrected `Preempt` computes, releasing the rest. Conservation is kept. |
| Workrate.WorkrateNetwork.TopUpAt | Source/Nexora/network/LocalNetwork.cs:278-291 | One top-up step changes use as `TopUp` says for that claim. |
| Workrate.WorkrateNetwork.TrimAt | Source/Nexora/network/LocalNetwork.cs:282-286 | A claim holding more than it expects is trimmed to its expectation, and use drops by the excess. |
| Workrate.WorkrateNetwork.TopUpLow | Source/Nexora/network/LocalNetwork.cs:272-293 | The top-up loop leaves exactly the claims and use `TopUp` computes. |
| Workrate.WorkrateNetwork.EvictOverQuota | Source/Nexora/network/LocalNetwork.cs:237-243 | The eviction loop leaves exactly what `Evict` computes. It fails (the source throws) only when the quota is negative and there are claims over it. |
| Workrate.WorkrateNetwork.ReduceToTotal | Source/Nexora/network/LocalNetwork.cs:245-270 | The shrink phase leaves exactly what `Reduce` computes. |
| Workrate.WorkrateNetwork.ShrinkFromEnd | Source/Nexora/network/LocalNetwork.cs:245-262 | The shrink loop leaves exactly what `Shrink` computes. |
| Workrate.WorkrateNetwork.OnCpuChange | Source/Nexora/network/LocalNetwork.cs:233-294 | The totals become the wrapped sums of the CPUs. With a non-negative quota, the claims and use become the `Rebalance` of the old ones, a prefix of the old list. With a negative quota, every claim is released. Conservation is kept when the total is non-negative, and no live claim is lost. |
| Workrate.WorkrateNetwork.Connect | Source/Nexora/network/LocalNetwork.cs:30-34 | Adding a CPU adds it to the set and rebalances with the new totals. |
| Workrate.WorkrateNetwork.Disconnect | Source/Nexora/network/LocalNetwork.cs:36-41 | Removing a CPU reports whether it was connected, and rebalances with the new totals. |
| Workrate.WorkrateNetwork.RequestWorkrate | Source/Nexora/network/LocalNetwork.cs:43-86 | The network ends in the state `Request` computes. The claims are preempted as `Preempt` says. A grant of 0 returns null. A positive grant is a fresh claim expecting the requested value, inserted where its priority fits. Conservation is kept. |
| Workrate.WorkrateNetwork.ChangeProperty | Source/Nexora/network/LocalNetwork.cs:152-162 | A released claim is left alone and null returned. Otherwise the claim is released with its value, re-prioritised, and re-requested at its expectation, against the list without it and the pool with its value back. A new claim is returned exactly when the grant is positive. |
| Workrate.WorkrateNetwork.GrantWorkrate | Source/Nexora/network/LocalNetwork.cs:71-85 | The grant is `min(available, value)`. A positive grant is inserted as a fresh claim where its priority fits, and use grows by it. Otherwise nothing changes. |
| Workrate.WorkrateNetwork.InsertClaim | Source/Nexora/network/LocalNetwork.cs:76-84 | The claim is inserted at its binary-search position. The list stays valid and the claims hold its value more. |
| Routing.StorageNetwork.Connect | Source/Nexora/network/LocalNetwork.cs:123-133 | A new drive is added to the set and inserted in the list where its priority fits. A drive already connected, or a network backend, is left out (corrected). |
| Routing.StorageNetwork.Place | Source/Nexora/network/LocalNetwork.cs:127-131 | The insertion point is where the priority fits the descending order. |
| Routing.StorageNetwork.Disconnect | Source/Nexora/network/LocalNetwork.cs:135-138 | The drive is removed from both collections, and the result says whether it was connected. |
| Routing.StorageNetwork.ContainsStorageAgrees | Source/Nexora/network/LocalNetwork.cs:140-150 | `ContainsStorage` holds exactly when the drive is in the sorted list. |
| Routing.StorageNetwork.ChangeProperty | Source/Nexora/network/LocalNetwork.cs:164-171 | A connected drive is disconnected, given its new priority and reconnected where it fits. An unconnected drive is left alone. |
| Routing.StorageNetwork.Reconnect | Source/Nexora/network/LocalNetwork.cs:168-170 | After its priority changes, the drive is put back where the new priority fits. |
| Routing.StorageNetwork.Count | Source/Nexora/network/LocalNetwork.cs:317-330 | `Count` is the drives' stack counts summed and saturated at `int.MaxValue`. |
| Routing.StorageNetwork.AnswersHold | Source/Nexora/network/LocalNetwork.cs:302-315 | Each drive's answer is its policy's answer for its contents, in `0..int.MaxValue`. |
| Routing.StorageNetwork.UnitsSum | Source/Nexora/network/LocalNetwork.cs:187-206 | The units stored in the network are the sum of the drives' units. |
| Routing.StorageNetwork.TryAddItem | Source/Nexora/network/LocalNetwork.cs:187-206 | A refused thing gets minus one per drive and changes nothing. Otherwise the network takes `min(sum of the drives' answers, stack)` units, offered in priority order. The units stored grow by exactly that, and the caller keeps the rest. Each drive only gains units of the thing, with one fresh id per drive for a split-off piece, and at most one drive takes the thing itself. |
| Routing.StorageNetwork.AddItemOrOverflow | Source/Nexora/network/LocalNetwork.cs:208-216 | A live, non-empty thing is dropped exactly when it is refused or the drives lack room for all of it. A thing not destroyed is never lost: its units end up stored or dropped. |
| Routing.StorageNetwork.OfferInTurn | Source/Nexora/network/LocalNetwork.cs:190-203 | The offering loop stops after the last drive or once the whole stack is taken. |
| Routing.StorageNetwork.Done | Source/Nexora/network/LocalNetwork.cs:190-205 | At the loop's end, the tally is what `TryAddItem` promises. |
| Routing.StorageNetwork.AutoOrganize | Source/Nexora/network/LocalNetwork.cs:413-427 | From the lowest-priority drive up to the second, every thing is offered to the next-higher drive. The network stays valid and sound: no thing is in two drives, no stack is empty, and every id is below the fresh-id supply. The units stored never grow. |
| Routing.StorageNetwork.MoveUp | Source/Nexora/network/LocalNetwork.cs:419-424 | A thing moves exactly when drive `i` holds it and drive `i - 1` answers positively for it. A thing that does not move changes nothing. A move takes the whole stack out and routes it again, so the units stored fall by at most that stack. |
| Routing.StorageNetwork.RoomAbove | Source/Nexora/network/LocalNetwork.cs:421 | The guard asks drive `i - 1` for its answer and changes no stacks. |
| Routing.StorageNetwork.MoveOut | Source/Nexora/network/LocalNetwork.cs:423 | The stack leaves its drive whole and is routed again. Soundness is kept, and between none and all of its units come back. |
| Routing.StorageNetwork.TakeOut | Source/Nexora/network/LocalNetwork.cs:423 | `SplitOff(stackCount)` of a held thing: the drive gives up the stack through `Remove`, the thing comes back unheld with its count, and no drive holds it afterwards. The units stored fall by exactly its count. |
| Routing.StorageNetwork.RemoveAt | Source/Nexora/ItemStorage.cs:197-231 | The drive swap-removes the stack and clears its holder. Every other drive keeps its stacks. |
| Routing.StorageNetwork.Reroute | Source/Nexora/network/LocalNetwork.cs:423 | Routing a thing no drive holds, with the result dropped, keeps the network sound below the new fresh-id supply. The units stored grow by between none and all of its units. |
| Routing.SoundKept | Source/Nexora/network/LocalNetwork.cs:187-206 | Routing a thing no drive holds keeps the drives sound: no two drives share a thing, and every stack is non-empty and below the new fresh ids. |
| Routing.SoundRemove | Source/Nexora/ItemStorage.cs:216-228 | A swap-remove from one drive keeps the drives sound, and afterwards no drive holds the removed thing. |
| Routing.TakenOut | Source/Nexora/network/LocalNetwork.cs:423 | Taking a stack out of a sound network leaves it sound, leaves no drive holding the thing, and lowers the units by exactly its count. |
| Ledger.TotalUnitsSwapRemove | Source/Nexora/ItemStorage.cs:216-228 | A swap-remove takes out exactly the units of the removed stack. |
| Routing.StorageNetwork.GetCountCanAccept | Source/Nexora/network/LocalNetwork.cs:302-315 | The network's answer is the drives' answers summed and saturated at `int.MaxValue`. |
| Routing.StorageNetwork.AnyRoom | Source/Nexora/network/LocalNetwork.cs:302-315 | The scan is true exactly when some drive has room. |
| Routing.StorageNetwork.Contains | Source/Nexora/network/LocalNetwork.cs:334-337 | A thing is in the network exactly when one of its drives holds it. |
| Routing.StorageNetwork.ContainsStored | Source/Nexora/network/LocalNetwork.cs:334-337 | Every stack a connected drive stores counts as contained. |
| Routing.ConnectAsWritten | Source/Nexora/network/LocalNetwork.cs:123-133 | As written, `Connect` adds any backend to the set, and the sorted list only for a drive. |
| Routing.DisconnectAsWritten | Source/Nexora/network/LocalNetwork.cs:135-138 | As written, `Disconnect` removes from the set and reports the removal from the sorted list. |
| Routing.DriveConnectAgrees | Source/Nexora/network/LocalNetwork.cs:123-133 | For a drive, the code as written keeps the two collections in agreement. |
| Routing.NetworkConnectDisagrees | Source/Nexora/network/LocalNetwork.cs:125 | Connecting a network backend breaks the agreement of the two collections. Disconnecting it afterwards reports failure although it left the set. |
| AccessInterface.ForeignNotReleased | Source/Nexora/Building_AccessInterface.cs:175 | A thing held by anything other than the proxy is never removed from it. |
| AccessInterface.AcceptsIffRoom | Source/Nexora/Building_AccessInterface.cs:71-75 | Some drive has room exactly when the saturated sum of the answers is positive. |
| AccessInterface.AppendReportedLost | Source/Nexora/Building_AccessInterface.cs:144-151 | A whole stack appended by a drive is stored and neither empty nor destroyed, so the test as written reports failure and drops it. |
| AccessInterface.MergeReportedReturned | Source/Nexora/Building_AccessInterface.cs:144-149 | A whole stack merged into a drive is empty and destroyed, so the test as written reports success. |
| AccessInterface.ThingOwnerProxy.constructor | Source/Nexora/Building_AccessInterface.cs:127-132 | A new proxy records nothing. |
| AccessInterface.ThingOwnerProxy.AddTempThing | Source/Nexora/Building_AccessInterface.cs:134-138 | The thing is now held by the proxy and recorded. |
| AccessInterface.ThingOwnerProxy.Remove | Source/Nexora/Building_AccessInterface.cs:173-178 | `Remove` succeeds exactly for a thing the proxy holds and records. It then forgets the thing and clears its holder. Otherwise it changes nothing. |
| AccessInterface.ThingOwnerProxy.ReturnToNetwork | Source/Nexora/Building_AccessInterface.cs:140-156 | A thing the proxy does not release fails and stays. Otherwise it is forgotten and routed, and the rest is dropped. The return succeeds exactly when nothing is dropped (corrected). No unit of a live thing is lost. |
| AccessInterface.ThingOwnerProxy.TryAdd | Source/Nexora/Building_AccessInterface.cs:163-166 | `TryAdd` forwards to the network and is true exactly when some unit was taken. |
| AccessInterface.ThingOwnerProxy.GetCountCanAccept | Source/Nexora/Building_AccessInterface.cs:187-190 | Forwards to the network: the saturated sum of the drives' answers. |
| AccessInterface.ThingOwnerProxy.Contains | Source/Nexora/Building_AccessInterface.cs:192-195 | Forwards to the network. A thing held by the proxy itself is not contained. |
| AccessInterface.ThingOwnerProxy.Count | Source/Nexora/Building_AccessInterface.cs:180 | The proxy reports 0 things, whatever it records. |
| AccessInterface.Interface.Accepts | Source/Nexora/Building_AccessInterface.cs:71-75 | The interface accepts a thing exactly when its settings allow it and some drive has room. |
| AutoWorker.Pow2Monotone | Source/Nexora/buildings/Building_AutoWorker.cs:301 | Higher levels never need less workrate. |
| AutoWorker.WorkrateByOcFits | Source/Nexora/buildings/Building_AutoWorker.cs:301 | Every level the slider allows needs between 60 and 60·2^25 = 2013265920, which fits in `int`. The level after it would not fit. |
| AutoWorker.WorkrateByOcDoubles | Source/Nexora/buildings/Building_AutoWorker.cs:301 | Each level needs twice the workrate of the one below, so raising a level asks for as much again. |
| AutoWorker.QualityBandOrdered | Source/Nexora/buildings/Building_AutoWorker.cs:526-553 | Every band is ordered (lowest, centre, highest) and has a positive width. |
| AutoWorker.QualityBandRises | Source/Nexora/buildings/Building_AutoWorker.cs:526-553 | Up to level 8, a higher level never lowers the band. |
| AutoWorker.QualityBandPastEight | Source/Nexora/buildings/Building_AutoWorker.cs:547-552 | Above level 8, the band is centred on Excellent, one step below level 8's Masterwork. |
| AutoWorker.Live | Source/Nexora/buildings/Building_AutoWorker.cs:507-510 | The ingredients handed back on cancel are exactly the ones not destroyed. |
| AutoWorker.Worker.constructor | Source/Nexora/buildings/Building_AutoWorker.cs:29-34 | A new worker holds no claim, is at level 0 with limit 5, and has no bill. |
| AutoWorker.Worker.RequestClaim | Source/Nexora/buildings/Building_AutoWorker.cs:350-356 | A request at the worker's priority gets a fresh claim expecting the value, or none. With workrate available, it always gets one. |
| AutoWorker.Worker.ReleaseClaim | Source/Nexora/buildings/Building_AutoWorker.cs:519-523 | The claim leaves the list. A live claim gives back what it holds unless `keepValue`. |
| AutoWorker.Worker.TryRequestWorkrate | Source/Nexora/buildings/Building_AutoWorker.cs:346-360 | With no claim, it requests the base workrate and goes to level 0. A low claim is re-requested at its expectation only on the beat. Otherwise nothing changes. Conservation is kept. |
| AutoWorker.Worker.TryOverclocking | Source/Nexora/buildings/Building_AutoWorker.cs:306-326 | When the claim is met, the limit not reached and the next level's extra workrate available, the worker rises exactly one level. Its claim then holds and expects twice as much, and the network lends exactly the old value. Otherwise it underclocks. |
| AutoWorker.Worker.Overclock | Source/Nexora/buildings/Building_AutoWorker.cs:311-325 | The merge of the extra claim doubles the claim, raises the level by one, keeps the list and conserves workrate. |
| AutoWorker.Worker.Reserve | Source/Nexora/buildings/Building_AutoWorker.cs:316-319 | Requesting the extra and releasing it with `keepValue` leaves the list as before, with use grown by the extra. |
| AutoWorker.Worker.Merge | Source/Nexora/buildings/Building_AutoWorker.cs:320-321 | Adding to the claim's value and expectation grows what the claims hold by the same amount. |
| AutoWorker.Worker.TryUnderclocking | Source/Nexora/buildings/Building_AutoWorker.cs:328-344 | The loop ends with no claim, a met claim, or level 0. It never raises the level, and a settled worker is left alone. On a network that is not over-committed the worker keeps a claim. |
| AutoWorker.Worker.StepDown | Source/Nexora/buildings/Building_AutoWorker.cs:332-342 | One step releases the claim and requests the level below. The level strictly drops. |
| AutoWorker.Worker.PollBill | Source/Nexora/buildings/Building_AutoWorker.cs:405-459 | Without a bill nothing changes. A claim released elsewhere is forgotten. A tick without a claim does no work. Otherwise the work left drops by the speed, and the bill finishes, handing over the products, once no work is left. |
| AutoWorker.Worker.WorkTick | Source/Nexora/buildings/Building_AutoWorker.cs:426-458 | Holding a claim, the worker tries to overclock, works off the speed, and finishes the bill once no work is left. |
| AutoWorker.Worker.DoneBill | Source/Nexora/buildings/Building_AutoWorker.cs:461-524 | Without a bill nothing changes. Otherwise the bill, dominant ingredient and ingredients are cleared, the level is reset to 0, and the claim is released and forgotten. The things handed to the network are the live ingredients on cancel, and the products otherwise. |
| Pooled.PooledArray.constructor | Source/Nexora/utils/pooled/PooledArray.cs:6-11 | A new stack is empty, over a buffer of the requested capacity. |
| Pooled.PooledArray.Count | Source/Nexora/utils/pooled/PooledArray.cs:11 | `Count` is the number of items on the stack, within the buffer. |
| Pooled.PooledArray.Push | Source/Nexora/utils/pooled/PooledArray.cs:13-21 | The item goes on top and everything below stays. A full buffer is first replaced by one twice as long. |
| Pooled.PooledArray.TryPop | Source/Nexora/utils/pooled/PooledArray.cs:23-33 | On a non-empty stack it succeeds with the top item, taken off (LIFO). On an empty stack it fails with the default value and the stack stays empty. |
| Pooled.PooledArray.Pop | Source/Nexora/utils/pooled/PooledArray.cs:35-38 | `Pop` returns the top item and takes it off, or the default value on an empty stack. |
| Pooled.PooledArray.Resize | Source/Nexora/utils/pooled/PooledArray.cs:40-46 | The buffer is replaced by one twice as long that starts with every old slot, and the stack is unchanged. |

## Left out

**Deliberate departures from the code as written**
- The six corrected behaviours under "Findings" are used by the rest of the model. The code as written is kept beside each of them.
- `CompProperties_DataFormatBytes.Value` does not override the base property, because that property is not virtual. The model takes the intent that a byte budget is read with the byte parser.

**Not modelled**
- The LINQ queries are engine-facing enumeration, not bookkeeping:
  - `GetItemsByDef`, `GetVirtualItems`, `GetAllItems`, `GetExternalItems`, `Managed` and `GetItemByRequest` on the network;
  - `GetItemsByDef`, `GetVirtualItems` and `AddItems` on the drive.
- The access-interface search (`GetClosestAccessInterface`, `GetAccessInterfaces`) uses float distances and engine reachability.
- The external storage connector is not an item backend in this snapshot, so `ChangeProperty(Building_ExternalStorageConnector, …)` is not modelled.
- `Building_ExternalStorageConnector` is not part of this model.
- The proxy's `TryAdd(item, count)`, `IndexOf` and `GetAt` only throw `NotImplementedException`. They are not modelled.
- The bill machinery (`TryStartBill`, recipes, products, the effecter and the unfinished thing) is engine code. The products arrive as a parameter of `PollBill` and `DoneBill`.
- The Gaussian quality draw is the engine's random generator. Only the band it draws from is modelled (`QualityBand`).
- `CalcWorkSpeed` and `WorkSpeedByOc` are float arithmetic. The speed arrives as the non-negative `speed` parameter.
- `IsHashIntervalTick(120)` is the engine clock. It arrives as the `onBeat` parameter.
- The storage settings' filter is engine state. It arrives as the `allowed` parameter of `Interface.Accepts`.
- `PooledArray.Dispose` and the return of buffers to `ArrayPool`, which is a foreign pool.
- Logging is modelled only as the parsers' `Errors` counter and the `logged` flag. Warnings on failed removals and duplicate releases have no effect and are omitted.
- `Trim` and the lower-casing before suffix matching cover only part of Unicode. `IsWhiteSpace` knows the Latin-1 white space, and `LowerChar` folds only ASCII letters. `char.IsWhiteSpace` and `ToLowerInvariant` cover all of Unicode, so for example "10kb" followed by U+3000 is a logged parse error in the model but 10240 in the code.
- The culture rules of `decimal.TryParse` are left out. The number grammar is an optional sign, digits and an optional fraction, over exact rationals.
- The map, positions and spawning of dropped things are engine code. `AddItemOrOverflow` and `ReturnToNetwork` return the dropped thing instead.
- Concurrency (the network's locks) and persistence beyond the post-load index rebuild are left out.

**Weaker contracts and narrower preconditions**
- Routing.StorageNetwork.TryAddItem: only unheld things that no connected drive holds, with ids below the fresh-id supply, are modelled. A held thing reaches the network only through `AutoOrganize`, which first takes it out of its drive (`TakeOut`).
- Routing.StorageNetwork.AddItemOrOverflow: the same narrowing as `TryAddItem`.
- Routing.StorageNetwork.Connect: a new drive must not share its policy objects with a connected drive. The source gives each drive its own comps, and the model's frames rely on that.
- Ledger.FirstMerge: follows the list order of `Container`, not the key order of the .NET dictionary scanned at `ItemStorage.cs:106`. That order is unspecified; over the same stacks it is insertion order until a removal.
- Ledger.ItemStorage.TryAddCount: the thing must be unheld and not indexed in this drive. The code also accepts a thing held by another drive, by the proxy or by any engine container: a partial `SplitOff` leaves that holder alone, but a whole one takes the thing out of it. That holder is not part of this drive's model.
- Ledger.ItemStorage.PostLoadInit: the loaded things must be distinct, because `Dictionary.Add` throws on a duplicate. The model also refreshes the policy's caches after the load, which the code as written does not do (see `StaleAfterLoad` and the first row under "Findings").
- Ledger.ItemStorage.TryAddItem: the thing must be unheld or held by this drive. For a thing another holder has, the code hands it to that holder's `TryTransferToContainer` (`ItemStorage.cs:88-90`), or splits it off another drive. Either way the change happens in the other holder, which is not part of this drive's model.
- Formats.FormatBytes: returns the rounded mantissa as a number and the unit name. The text that the format `0.##` builds from the number (no trailing zeros, the culture's decimal separator) is not modelled.
- Routing.StorageNetwork.AutoOrganize: the network must be sound (no thing in two drives, no empty stack, ids below the supply). The engine's single-holder rule guarantees this, but the model does not derive it from `Valid`.
- Routing.StorageNetwork.MoveUp: the things of a drive are looked up again by identity before each move, and one the drive no longer holds is skipped. Every thing of the snapshot is still held when its turn comes, so this changes nothing. The units that re-routing does not place are dropped, as in the code, so only the bound `old - stack <= stored <= old` is promised.
- Workrate.Request: it is built on the corrected cut under "Findings". `PreemptOnlyCutDiffers` states how the preemption it starts from differs from the code as written.
- AccessInterface.ThingOwnerProxy.AddTempThing: the thing must not be recorded already, because `Dictionary.Add` throws on a duplicate.
- Pooled.PooledArray.constructor: the capacity must be positive (every caller passes 16). `ArrayPool.Rent` may return a longer array than asked, but the model allocates exactly the requested length, and twice the old length on a resize.
- AutoWorker.Worker.PollBill: the network must not be over-committed (available ≥ 0). `CalcWorkSpeed` reads the claim without a null check, and only then is a re-requested claim guaranteed.
- Workrate.WorkrateNetwork.RequestWorkrate: the optional `expected` argument is not modelled, because no caller passes it. A granted claim expects the requested value.
- Workrate.WorkrateNetwork.OnCpuChange: a negative device total can come only from a wrapped sum. Then `Count > MaxDevices` holds even with no claims, and the eviction loop at `LocalNetwork.cs:239-242` goes on while `i >= MaxDevices`, down to `i == -1`. So the indexer throws `ArgumentOutOfRangeException` for every negative total. The model reports this as `ok == false` after releasing every claim.
- AutoWorker.Worker.DoneBill: the handed things are returned rather than routed through `AddItemOrOverflow`, whose contract is stated and proved on its own.

## Findings

| source | as written | input that shows it | evidently intended | confidence | as-written member | corrected member |
|---|---|---|---|---|---|---|
| Source/Nexora/comp/CompDataFormatBytes.cs:76-80 | The byte policy refreshes its answer cache and byte total only in `OnChange`. The drive calls `OnAdd`/`OnRemove` (`ItemStorage.cs:113,122,229`), which the byte policy does not override, so the cache is never invalidated. The load path (`ItemStorage.cs:142-161`) calls no hook at all, so the byte total stays 0 after a load. | A 100-byte drive, empty: the first query answers 168 and caches it. After those 168 units are stored the drive is full, but the query still answers 168. A 100-byte drive loaded with 168 units answers 200. | Answers track the drive's contents, so adding, removing and loading refresh the byte caches. | high; not executed | Policies.StaleByteCache | Policies.DataFormat.OnChanged |
| Source/Nexora/network/LocalNetwork.cs:67 | A preempted claim larger than the requested value is cut by the whole requested value, not by the shortfall. Only the cut is corrected: the whole-release test at line 61 is kept. | Request 50 with 20 available, against a lower-priority claim holding 80: the victim loses 50 and 70 is available afterwards. | Cut the victim by the shortfall (30), so a request takes no more than it needs. | medium; not executed | Workrate.PreemptOvercuts | Workrate.WorkrateNetwork.FreeWorkrate |
| Source/Nexora/network/LocalNetwork.cs:125 | A backend that is a network goes into `Storages` but never into `SortedStorages`. | Connect a network backend: it is in the set and not in the list, and a later `Disconnect` reports false although it removed it from the set. | The two collections hold the same backends. | medium; not executed | Routing.NetworkConnectDisagrees | Routing.StorageNetwork.Connect |
| Source/Nexora/comp/CompDataFormatMassFormat.cs:51 | `(int)` of the floored `decimal` quotient overflows when the free mass allows more than `int.MaxValue` units. | Limit 3·10^9, empty drive, unit mass 1: the conversion of 3·10^9 throws `OverflowException`. | Cap the answer at `int.MaxValue`, as the byte policy does. | high; not executed | Policies.MassAnswerOverflows | Policies.MassAnswerFits |
| Source/Nexora/ItemStorage.cs:171-173 | `TryAdd(item, count)` splits off `min(stack, count, answer)` without a guard, so a full drive or a count of 0 calls `SplitOff(0)`, which the engine rejects. | A full drive (answer 0) asked to take 5 of a 10-stack: the computed count is 0. | Take nothing when the computed count is 0 or less, as `TryAddItem` does. | high; not executed | Ledger.SplitCountZero | Ledger.ItemStorage.TryAddCount |
| Source/Nexora/Building_AccessInterface.cs:144-151 | `ReturnToNetwork` judges success by the thing being emptied and destroyed. A thing a drive stores whole as a new stack is neither, so the return is reported failed and the stored thing is dropped on the map as well. | A 10-stack returned to a network whose only drive has room for it but no compatible stack: the drive appends it, and the code reports failure and drops it. | Judge success by the count the network took: success exactly when nothing is left over to drop. | high; not executed | AccessInterface.AppendReportedLost | AccessInterface.ThingOwnerProxy.ReturnToNetwork |
