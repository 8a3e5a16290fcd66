# ber_calc_shm in Dafny

A model of the bit-error-rate block `ber_calc_shm` of gr-cogs. The block keeps
a reference frame that it reads from a shared-memory channel backplane. That
frame is a transmitted vector, split into preamble bits and payload bits, plus
a window of the preamble that serves as a correlation template. Each call of
`work` does four things:

- every 100th call, it checks whether the backplane holds a new frame;
- it follows the "Begin Burst" / "End Burst" stream tags;
- while a burst is open, it searches the input block for the template;
- past the first match, it walks the rest of the block against the rest of
  the preamble, then the payload, then the preamble again, and so on,
  counting mismatching bits.

Modules, one per component:

- `BitUnpack` (`bit_unpack.dfy`) covers `unpack_k_bits`. The imperative
  version fills an array with two nested loops. `Unpack` is the function that
  specifies it, and `Pack`/`PackAll` are the inverses used for the round trip.
- `ReferenceFrame` (`reference_frame.dfy`) covers
  `convert_transmit_vector_to_binary` and the window selection at the end of
  `read_cbp`. It has the record types for the frame header and channel header
  that the backplane reader returns. `PySlice` reproduces Python slice
  clipping. `Reload` is the state `read_cbp` leaves, and `Consistent` is the
  invariant the reference fields keep.
- `PreambleLocator` (`preamble_locator.dfy`) covers `find_subsequence`:
  `np.dot`, `np.correlate` in `'valid'` mode, `np.where`, and the exact-match
  mask.
- `CircularComparator` (`circular_comparator.dfy`) covers the comparator
  loops as written, including their "remaining > 1" guards.
  - `CircularCompare` is the imperative method: an outer loop around two
    inner passes (`CheckRemainder`).
  - `ScheduledErrors` is its specification: the mismatches between the rest
    of the block and `Schedule`, which is the reference bits the loops reach.
    Those are the preamble from one past the window stop, then all but the
    last payload bit, then repeatedly all but the last preamble bit and all
    but the last payload bit.
- `BurstGate` (`burst_gate.dfy`) covers the refresh counter (`Tick`,
  `Polls`) and the tag loop (`TagStep`, `ScanTags`).
- `BerCalcShm` (`ber_calc.dfy`) holds the class `BerCalc`.
  - Its fields are the reference fields, `work_counter`, `process` and
    `bit_counter`. The reference fields are kept together in one `RefState`
    record field.
  - Its methods are the constructor, `ReadCbp`,
    `ConvertTransmitVectorToBinary` and `Work`, plus two methods for parts of
    `work`: `ApplyTags` (the tag loop) and `Compare` (the search and the
    comparator).
  - `Measure` is the function that specifies `Compare`.

Inputs of the block that come from outside are parameters:

- the channel header and frame record from the backplane;
- the frame id the poll reads;
- the random window start;
- the input block, the output buffer and the tag keys.

## Model

| member | source | states |
|---|---|---|
| BitUnpack.UnpackKBits | gr-cogs/python/ber_calc_shm.py:120-136 | the array filled by the two nested loops is exactly `Unpack(k, v)` |
| BitUnpack.Unpack | gr-cogs/python/ber_calc_shm.py:120-136 | unpacking yields exactly k bits per element, each 0 or 1 |
| BitUnpack.UnpackAt | gr-cogs/python/ber_calc_shm.py:126-134 | bit k*i + (k-1-j) of the result is `(v[i] >> j) & 1`, written as floor division by 2^j, most significant bit first |
| BitUnpack.UnpackConcat | gr-cogs/python/ber_calc_shm.py:113-115 | unpacking distributes over concatenation |
| BitUnpack.PackUnpackOne | gr-cogs/python/ber_calc_shm.py:129-134 | the k bits of a value in [0, 2^k) read back as that value |
| BitUnpack.PackAllUnpack | gr-cogs/python/ber_calc_shm.py:120-136 | regrouping the bits k at a time restores every vector whose elements lie in [0, 2^k) |
| ReferenceFrame.PySlice | gr-cogs/python/ber_calc_shm.py:114-115 | Python slicing: within bounds it is the plain slice; a stop past the end clips to `s[lo:]`; a start at or past the end, or an inverted range, gives the empty sequence |
| ReferenceFrame.FrameSplit | gr-cogs/python/ber_calc_shm.py:113-117 | for a frame with preamble_length <= length: preamble bits followed by payload bits are the unpacked vector up to `length`, and with a vector of that full length they hold 8*preamble_length and 8*(length - preamble_length) bits |
| ReferenceFrame.PreambleLength | gr-cogs/python/ber_calc_shm.py:114 | the preamble holds 8 bits per element actually present, so it is empty or holds at least 8 bits |
| ReferenceFrame.SelectWindow | gr-cogs/python/ber_calc_shm.py:97-105 | an empty preamble keeps the old window; otherwise the window starts inside the preamble and stop = start + W, with start 0 and W = P in full mode, and the drawn start and the old W in subset mode |
| ReferenceFrame.WindowBounds | gr-cogs/python/ber_calc_shm.py:97-105 | full mode gives the window [0, P) with W = P; subset mode keeps W and uses the drawn start, which lies in [20, P), with stop = start + W; the template is `preamble[start:min(stop, P)]` and holds between 1 and W bits |
| ReferenceFrame.Reload | gr-cogs/python/ber_calc_shm.py:69-105 | the state read_cbp leaves holds the new frame id and vector, a preamble of 8 bits per element present, the old window when that preamble is empty, and otherwise a window starting inside it with stop = start + W |
| ReferenceFrame.ConsistentTemplate | gr-cogs/python/ber_calc_shm.py:97-107 | in a consistent state a non-empty preamble holds at least 8 bits and the template between 1 and W of them |
| ReferenceFrame.ReloadConsistent | gr-cogs/python/ber_calc_shm.py:69-105 | a reload keeps the reference invariant, stores the new frame id, and keeps the old window when the new preamble is empty |
| PreambleLocator.Dot | gr-cogs/python/ber_calc_shm.py:140 | `np.dot`: a vector's self-energy is non-negative, and an all-zero vector has dot product 0 with anything |
| PreambleLocator.Correlate | gr-cogs/python/ber_calc_shm.py:141 | `np.correlate(..., mode='valid')` has one entry per offset at which the template fits, and the entry at an exact occurrence is the template's self-energy |
| PreambleLocator.Where | gr-cogs/python/ber_calc_shm.py:141 | `np.where(c == x)[0]` lists exactly the indices holding x, in strictly increasing order |
| PreambleLocator.MaskIsOccurrence | gr-cogs/python/ber_calc_shm.py:144-145 | the element-wise mask at a candidate holds exactly when the template occurs there |
| PreambleLocator.KeepExact | gr-cogs/python/ber_calc_shm.py:144-147 | `candidates[mask]` keeps exactly the candidates at which the template occurs, in order |
| PreambleLocator.OccurrenceReachesEnergy | gr-cogs/python/ber_calc_shm.py:140-141 | an exact occurrence has correlation equal to the template's self-energy, so the pre-filter never drops it |
| PreambleLocator.FindSubsequence | gr-cogs/python/ber_calc_shm.py:139-147 | the result is exactly the set of offsets at which the template occurs, strictly increasing |
| PreambleLocator.FirstIsEarliest | gr-cogs/python/ber_calc_shm.py:196 | `correlations[0]` is an occurrence, and no occurrence comes before it |
| PreambleLocator.EqualEnergyPeakIsCandidate | gr-cogs/python/ber_calc_shm.py:140-141 | an equal-energy window that is not the template passes the correlation filter ([1, 1] against [1, 0]) |
| PreambleLocator.EqualEnergyPeakRejected | gr-cogs/python/ber_calc_shm.py:144-147 | the mask then rejects it, and nothing is returned |
| CircularComparator.CheckRemainder | gr-cogs/python/ber_calc_shm.py:217-240 | one inner pass advances the input and reference indices together, stops when one segment or block bit remains, takes min(r-1, c-1) steps or none, and adds the mismatches of the pairs it compared |
| CircularComparator.PassLength | gr-cogs/python/ber_calc_shm.py:217 | a pass that stopped as the guard prescribes took exactly max(0, min(remaining - 1, left to check - 1)) steps |
| CircularComparator.OuterStep | gr-cogs/python/ber_calc_shm.py:214-243 | one outer iteration keeps the invariant: its passes are a preamble segment then a payload segment, extending the schedule; after the first iteration bits_left_to_check strictly decreases |
| CircularComparator.OuterIteration | gr-cogs/python/ber_calc_shm.py:215-243 | the body of the outer loop keeps the outer invariant and makes progress after its first run |
| CircularComparator.FinishCompare | gr-cogs/python/ber_calc_shm.py:214 | when the outer loop exits, exactly max(0, N - last - 1) bits were compared and the count is the scheduled one |
| CircularComparator.CircularCompare | gr-cogs/python/ber_calc_shm.py:196-243 | the loops terminate and every index stays in range; they compare exactly max(0, N - (first + W) - 1) bits and count exactly the mismatches between input[first+W+1..] and the schedule |
| CircularComparator.ScheduledErrors | gr-cogs/python/ber_calc_shm.py:199-243 | the specified count is at most the number of comparisons |
| CircularComparator.PrefixIsSchedule | gr-cogs/python/ber_calc_shm.py:214-243 | what the loops have compared at any point is the schedule of that length |
| CircularComparator.MismatchesZeroIff | gr-cogs/python/ber_calc_shm.py:219-220 | no mismatch exactly when the two sequences agree |
| CircularComparator.MismatchesFlip | gr-cogs/python/ber_calc_shm.py:219-220 | flipping one bit changes the mismatch count by exactly one |
| CircularComparator.MismatchesAppend | gr-cogs/python/ber_calc_shm.py:219-220 | mismatch counts add up over consecutive segments |
| CircularComparator.ZeroErrorsIffAgrees | gr-cogs/python/ber_calc_shm.py:214-243 | the count is 0 exactly when every compared input bit equals its scheduled reference bit |
| CircularComparator.FlipChangesErrorsByOne | gr-cogs/python/ber_calc_shm.py:219-220 | flipping one compared input bit changes the count by exactly one |
| BurstGate.Polls | gr-cogs/python/ber_calc_shm.py:156 | for a counter in [0, 100], `work_counter % 100 == 0` holds exactly at 0 and at 100 |
| BurstGate.Tick | gr-cogs/python/ber_calc_shm.py:156-164 | a counter in [0, 100] leaves a counter in [1, 100], and it is 1 exactly after a poll |
| BurstGate.CounterClosedForm | gr-cogs/python/ber_calc_shm.py:47 | after n calls from 0 the counter is (n - 1) mod 100 + 1 |
| BurstGate.PollsOnCall | gr-cogs/python/ber_calc_shm.py:156-164 | call n + 1 polls the backplane exactly when n is a multiple of 100 (calls 1, 101, 201, ...), and the counter stays in [1, 100] |
| BurstGate.TagStep | gr-cogs/python/ber_calc_shm.py:172-180 | a key that is not a burst tag changes nothing; a burst tag opens the gate for "Begin Burst" and closes it for "End Burst"; the bit counter is cleared exactly by "End Burst" |
| BurstGate.ScanTags | gr-cogs/python/ber_calc_shm.py:170-180 | after the tag loop the bit counter is either cleared or unchanged, and a non-negative counter stays non-negative |
| BurstGate.ScanTagsConcat | gr-cogs/python/ber_calc_shm.py:170-180 | the tags are applied in order: two runs scanned in turn are the same as both scanned together |
| BurstGate.ScanTagsProcess | gr-cogs/python/ber_calc_shm.py:170-180 | the gate ends as the last burst tag set it (open for "Begin Burst", closed for "End Burst"), or unchanged when there is none |
| BurstGate.ScanTagsCounter | gr-cogs/python/ber_calc_shm.py:176-180 | the bit counter is cleared when an "End Burst" tag is present and unchanged otherwise |
| BerCalcShm.Measure | gr-cogs/python/ber_calc_shm.py:190-246 | the measurement of an open-gate call is never Idle; a report's offset plus its denominator is N, the denominator is positive, and it counts no more errors than bits compared |
| BerCalcShm.MeasureSpec | gr-cogs/python/ber_calc_shm.py:190-196 | a report is made exactly when N > W, the preamble is non-empty and the template occurs; the search raises exactly when N > W with an empty preamble; nothing is searched exactly when N <= W |
| BerCalcShm.ReportSpec | gr-cogs/python/ber_calc_shm.py:196-246 | when N > W, the preamble is non-empty and the template occurs, a report is made; it starts from the earliest occurrence and compares max(0, N - first - W - 1) bits; it counts the scheduled mismatches, at most that many; its denominator N - first is positive |
| BerCalcShm.InitialRef | gr-cogs/python/ber_calc_shm.py:39-50 | the fields before the first read_cbp (no vector, zero lengths, W = 64) already satisfy the reference invariant in both modes, with an empty preamble and payload |
| BerCalcShm.BerCalc.constructor | gr-cogs/python/ber_calc_shm.py:31-56 | the block starts with the gate closed, both counters at 0 and the reference loaded once |
| BerCalcShm.BerCalc.ReadCbp | gr-cogs/python/ber_calc_shm.py:58-105 | read_cbp stores the channel and frame fields, recomputes the bits and the window, and keeps the invariant |
| BerCalcShm.BerCalc.ConvertTransmitVectorToBinary | gr-cogs/python/ber_calc_shm.py:113-117 | the preamble bits are the first preamble_length elements unpacked, the payload bits the elements from there to length, and the total is length * instances |
| BerCalcShm.BerCalc.ApplyTags | gr-cogs/python/ber_calc_shm.py:170-180 | the tag loop leaves the gate fields as `ScanTags` prescribes |
| BerCalcShm.BerCalc.Compare | gr-cogs/python/ber_calc_shm.py:190-243 | the search and comparison give the outcome that `Measure` specifies |
| BerCalcShm.BerCalc.Work | gr-cogs/python/ber_calc_shm.py:150-248 | polls exactly when the old counter is a multiple of 100, whatever the gate; reloads exactly when it polls and the frame id differs; leaves the counter at Tick of the old one, in [1, 100]; sets the gate as the tags prescribe and adds N to bit_counter only while it is open; zeroes the output and reports nothing while closed; leaves the output alone and measures as `Measure` specifies while open; returns N |

## Left out

- Backplane access is not modelled: `shm_mem`, the header and vector reads. The channel header, the frame record and the polled frame id are parameters instead. The frame header that `work` polls and the one `read_cbp` reads next are taken to be the same frame.
- The backplane is opened with channel 0, not `channel_id`. The model does not model that open; it only stores `channel_id`.
- The GNU Radio runtime is not modelled: block construction, `get_tags_in_window` and `pmt.symbol_to_string`. The tags are a sequence of their key strings.
- The `print` diagnostics are left out, as is the floating-point error rate. A report keeps the error count and the denominator as integers.
- The input samples are float32 hard decisions. They are modelled as integers, and the output buffer as an array of reals.
- `np.random.randint` is not modelled. The window start is a parameter, and a precondition requires 20 <= start < P on a subset-mode load of a non-empty preamble.
- BerCalcShm.BerCalc.ReadCbp does not model the `ValueError` that `randint(20, P)` raises when P <= 20 in subset mode. Its precondition on the start excludes that case.
- BerCalcShm.BerCalc.constructor and BerCalcShm.BerCalc.Work carry the same precondition on the start, for the loads they make.
- BerCalcShm.BerCalc.Work: the `AttributeError` (no window was ever set) and the `ValueError` (np.correlate with an empty template) are both the `Raised` outcome. Both occur with the gate open, N > W and an empty preamble. The field updates made before the exception are kept, as in the source.
- PreambleLocator.FindSubsequence requires 0 < |template| <= |input|. np.correlate raises on an empty template and swaps its arguments when the template is longer. `work` only calls it with a template of 1 to W bits and N > W.
- CircularComparator.CircularCompare requires that the loops terminate: nothing is left to check, or the preamble or payload holds at least 2 bits. Otherwise the source loops forever. `work` always meets this, because a non-empty preamble holds at least 8 bits.
- `use_full_preamble` is hard-coded False in the source. The model makes it a constructor parameter, so both modes are covered.
- A frame with preamble_length > length is not rejected: the slices at lines 114-115 of `ber_calc_shm.py` clip, and so does `PySlice`.
- The subset-mode start is drawn from [20, P): `len(self.preamble_bits - 20)` at line 103 is P, because the `- 20` applies to each element, not to the length.
- The output buffer is left untouched while the gate is open, as in the source. `Work` states it unchanged.
- UnpackKBits: the shift `t >> j` is modelled as floor division by 2^j. That matches Python's arithmetic shift for any integer. The width of the int32 elements of the source vector is not modelled separately.
