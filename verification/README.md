# Verified models of the algorithms in the assembly examples

The repository collects assembly and low-level examples.  Under `archive/todo` it holds several self-contained
algorithms; this project models them in Dafny and proves what they are for.

- `StringPoolLayout.dfy`, `StringPoolSteps.dfy`, `StringPoolRuns.dfy`, `StringPoolSpace.dfy`, `StringPool.dfy`:
  StringPoolS, a string pool in one character buffer with a table of offsets and a compacting reallocation.  The first
  is about layouts as values (disjoint slots, packing, space accounting), the second describes every operation as a
  step from layout to layout, the third is about whole runs of such steps as updates of a map, the fourth about the
  space over runs and the price of moving, and the last is the class that changes buffer and table in place.  Every
  method of the class is proved to do its step (`Lay()` before and after) and to keep all strings readable: `Strs` is
  the abstract map from index to string, and `Valid` ties it to the zero-terminated characters.  `Freed` holds the
  buffers given back, and every copy demands that its source is not among them.
- `GridWalk.dfy`, `SampledSet.dfy`, `Bits.dfy`: the FastNoiseSIMD grid walkers.  A register is a sequence of lanes,
  the vector size any power of two, the noise formula any function `f` of the coordinates.
- `MersenneTwister.dfy`, `MersenneKeys.dfy`, `MersenneValues.dfy`: MT19937-64 with its in-place refill against the
  linear recurrence, what its seedings keep of seed and key, and what its words come to, down to the first outputs.
- `Sudoku.dfy`: the backtracker on a shared mutable grid.
- `FastNoise.dfy`, `FastNoiseValues.dfy`, `Cellular.dfy`: scalar noise over `real`, with an arbitrary lattice for the
  permutation and lookup tables; the first proves ranges, the second values on lattices where the noise is known.
- `DynamicQueue.dfy`, `MixedPool.dfy`: the growing ring buffer and the zero-filled byte pool.
- `CpuList.dfy`: the parser for lists of cpus, with a printer as its inverse.

A null pointer to a buffer is the empty array, fatal error exits are outcome values.

## What the proofs found

- `StringPoolS` does not always store into the string it was asked to.  When the string stored last has to outgrow the
  buffer, `ReserveBuf` resets `Top` in index order (line 365) and `Allocate` returns the place of the last nonempty
  string by index (line 479).  The comment on top of the file promises that a string is identified by its index (lines
  39-46) and stored without the risk of writing outside a buffer (lines 19-21).  The first promise is kept exactly under
  the guard in `TargetIsSelf`.  The second is broken exactly when the guard fails and the place of that other string,
  after packing, leaves too little room (`OverrunIff`, `Overruns`); the model stops there with `Overrun`.
  `WrongStringRewritten` has a run of three assignments that does one or the other, depending on two lengths.  A run that
  stores in the order of the indices never meets either (`OrderedRunIsMap`).
- Space accounting is exact until the buffer moves and copies the string that is being replaced, and then it is not
  (`StepTight`, with a run in `BytesLost`).  That the used part ends with the string at `Top`, which growing in place
  rests on, holds over every run, except that a zero among raw characters put there cuts that string short
  (`StepEnds`, `RunEnds`, `TopCut`).
- Before the first operation that makes room for characters there is no buffer, and the pointer to an empty string is
  null, which `Len` and `Write` then scan (`Get`, `NoBufferIff`, `EmptyStringNoBuffer`).
- Seeding MT19937-64 from a key is injective for key lengths up to 310 words and for no other (`KeysToldIff`).  A key
  length of 0 reads the first word of the key.
- The sudoku solver accepts a grid with conflicting givens as solved (`FullGridIsAccepted`); its true is right exactly for
  consistent givens, its false always.
- The fractal normaliser works exactly for gains of 0 or more and for a single octave (`FbmNormalisedIff`); otherwise
  the sum of amplitudes is zero or constant lattices leave [-1, 1] at every point (`FbmExceeds`).
- `MixedPool::Push` of a negative size and `Align` to a negative number cut data off without clearing it; the zeros behind
  the data survive exactly when the bytes cut off are zero (`PushCutsOff` and `AlignCutsOff` are inputs).
- `FillSampledNoiseSet` takes its samples at the world coordinates of its blocks only for starts that satisfy
  `SamplesLineUp`; for others, such as those of `SamplesShifted`, the noise is shifted.
- `FastFloor` is wrong on negative integers, without an effect on value noise (`SingleValueTrueFloor`).

## Model

| member | source | states |
|---|---|---|
| StringPool.StringPoolS.Set | archive/todo/optimization-examples/cppexamples/StringPoolS.cpp:241-270 | For every index and text: the outcome is an overrun if and only if `Overruns`, string i ends as the text if and only if the place handed out is that of index i, the string written is `Target` and every other is unchanged, missing indices becoming empty; the empty string erases; a negative index changes nothing. The whole book-keeping is that of `SetStep`, space accounting stays exact if and only if the buffer did not copy the string being replaced, and buffers are kept, new, or given back. The source may lie in another string of the same pool although the buffer moves |
| StringPool.StringPoolS.Concatenate | archive/todo/optimization-examples/cppexamples/StringPoolS.cpp:307-334 | The same for old + s; an empty second string and an index out of range change nothing |
| StringPool.StringPoolS.SetRaw | archive/todo/optimization-examples/cppexamples/StringPoolS.cpp:274-303 | The same for characters given by length: the pool ends the string at the first zero character, and accounting stays exact only without one |
| StringPool.StringPoolS.SetToSubstring | archive/todo/optimization-examples/cppexamples/StringPoolS.cpp:547-558 | The bounds error exactly outside the source string, an index error, or the step, outcome and target of `Set` for the slice |
| StringPool.StringPoolS.SetNonEmpty | archive/todo/optimization-examples/cppexamples/StringPoolS.cpp:260-269 | Allocate, copy and release together: an overrun if and only if the new layout does not fit, else that layout with the string readable at its place and the old buffer given back |
| StringPool.StringPoolS.ConcatenateNonEmpty | archive/todo/optimization-examples/cppexamples/StringPoolS.cpp:319-333 | Both parts reach the place handed out, the first from the old buffer if it moved, also when the second is another string of the pool; an overrun if and only if the new layout does not fit |
| StringPool.StringPoolS.SetRawNonEmpty | archive/todo/optimization-examples/cppexamples/StringPoolS.cpp:294-302 | The same for raw characters: what can be read afterwards is the prefix before the first zero |
| StringPool.StringPoolS.Allocate | archive/todo/optimization-examples/cppexamples/StringPoolS.cpp:463-502 | All four paths: the place lies behind offset 0 and within the used part, overlaps no other string, all others stay readable, it passes the buffer if and only if the used part does, and whose place it is equals `Target` of the old state; the buffer is replaced if and only if `Moves` |
| StringPool.StringPoolS.AllocateBeside | archive/todo/optimization-examples/cppexamples/StringPoolS.cpp:260-263 | A source in memory that is not given back stays readable and clear of the place handed out, also when it is another string of the pool |
| StringPool.StringPoolS.AllocateAtTop | archive/todo/optimization-examples/cppexamples/StringPoolS.cpp:467-481 | The string stored last grows or shrinks where it is or, after packing, at the place of the last nonempty string; the place keeps clear of the rest |
| StringPool.StringPoolS.MakeRoomAtTop | archive/todo/optimization-examples/cppexamples/StringPoolS.cpp:468-473 | The buffer is packed if and only if the string stored last outgrows it, and the pool stays valid |
| StringPool.StringPoolS.AllocateInPlace | archive/todo/optimization-examples/cppexamples/StringPoolS.cpp:482-488 | A shorter string keeps its offset and the difference becomes garbage |
| StringPool.StringPoolS.MakeRoomAtEnd | archive/todo/optimization-examples/cppexamples/StringPoolS.cpp:490-497 | The old string counts as garbage, the buffer is packed if and only if the end has no room, and every string stays readable |
| StringPool.StringPoolS.AllocateAtEnd | archive/todo/optimization-examples/cppexamples/StringPoolS.cpp:490-501 | The string gets a fresh place behind all data, in a new buffer if and only if the end has no room, and overlaps no other |
| StringPool.StringPoolS.ReserveBuf | archive/todo/optimization-examples/cppexamples/StringPoolS.cpp:338-390 | No string changes; offsets, counters and size are those of the strings packed in index order; the old buffer stays readable as OldBuffer, the one before it is released |
| StringPool.CopyStrings | archive/todo/optimization-examples/cppexamples/StringPoolS.cpp:354-374 | The copying loop, reading only within the old buffer and writing only within the new one, produces exactly the packed image and its offsets |
| StringPool.StringPoolS.ReserveNum | archive/todo/optimization-examples/cppexamples/StringPoolS.cpp:394-421 | The table of offsets grows, never shrinks, keeps its entries and is zero behind them |
| StringPool.StringPoolS.EnsureIndex | archive/todo/optimization-examples/cppexamples/StringPoolS.cpp:243-250 | An index past the end adds empty strings, and no buffer changes |
| StringPool.StringPoolS.PrepareIndex | archive/todo/optimization-examples/cppexamples/StringPoolS.cpp:243-250 | Growing the table does not change what may be read |
| StringPool.StringPoolS.Erase | archive/todo/optimization-examples/cppexamples/StringPoolS.cpp:254-261 | String i becomes empty and its bytes garbage; buffers and all else stay |
| StringPool.StringPoolS.Get | archive/todo/optimization-examples/cppexamples/StringPoolS.cpp:425-433 | Out of range exactly for indices outside [0, Num); the pointer spells string i if and only if there is a buffer, and without one all strings are empty |
| StringPool.StringPoolS.constructor | archive/todo/optimization-examples/cppexamples/StringPoolS.cpp:214-217 | A valid pool without strings, buffers or counters |
| StringPool.RunAll | archive/todo/optimization-examples/cppexamples/StringPoolS.cpp:214-502 | Any sequence of Set, Set with a length, Concatenate and ReserveBuf on a new pool, texts of the caller or other strings of the pool, ends as `Run` says, with every string readable. If every step writes the right string the strings are the fold `MapRun` of map updates and no step overruns; if no step is wasteful either every byte is accounted for; if no zero among raw characters cuts the string at Top short the used part ends with it; and without explicit reservations the moves copied at most five characters for every one requested |
| StringPool.Apply | archive/todo/optimization-examples/cppexamples/StringPoolS.cpp:214-502 | One operation is one step of the layout, with the same error |
| StringPoolRuns.RunIsMap | archive/todo/optimization-examples/cppexamples/StringPoolS.cpp:241-334 | Over every run whose steps write the right string the strings are a fold of map updates, and only an index out of range stops it |
| StringPoolRuns.Run | archive/todo/optimization-examples/cppexamples/StringPoolS.cpp:214-502 | In every reachable layout the strings are disjoint intervals and garbage, the zero at offset 0 and the live strings fit in DataSize, which fits in BufferSize |
| StringPoolRuns.RunIsTight | archive/todo/optimization-examples/cppexamples/StringPoolS.cpp:241-390 | Over every such run without a wasteful step that is an equality |
| StringPoolSpace.RunEnds | archive/todo/optimization-examples/cppexamples/StringPoolS.cpp:470-479 | Over every run without such a cut, wasteful or not and whichever strings it writes: if Offsets[i] is Top, DataSize is Top plus the length of string i plus one |
| StringPoolSpace.StepEnds | archive/todo/optimization-examples/cppexamples/StringPoolS.cpp:470-479 | From such a layout every step that is not stopped leads to one if and only if it does not put characters with a zero among them at Top |
| StringPoolSpace.AllocatedEnds | archive/todo/optimization-examples/cppexamples/StringPoolS.cpp:463-502 | All paths of an allocation keep it, also when the place is that of another string |
| StringPoolSpace.RawStepEnds | archive/todo/optimization-examples/cppexamples/StringPoolS.cpp:274-303 | The exact condition for `Set` with a length, in terms of the layout before |
| StringPoolSpace.TopCut | archive/todo/optimization-examples/cppexamples/StringPoolS.cpp:274-303 | Storing a character and a zero in a new pool leaves a byte behind the string at Top |
| StringPoolSpace.BytesLost | archive/todo/optimization-examples/cppexamples/StringPoolS.cpp:489-497 | For all short a and b and long s, assigning b to 1, a to 0 and s to 1 writes the right strings throughout and ends with bytes unaccounted for |
| StringPoolSpace.CopiesAmortised | archive/todo/optimization-examples/cppexamples/StringPoolS.cpp:338-379 | Over any run without explicit reservations the moves to larger buffers copy at most five characters for every character that room was made for |
| StringPoolSpace.AllocatedCost | archive/todo/optimization-examples/cppexamples/StringPoolS.cpp:463-502 | What an allocation copies is paid by its length and what earlier ones left over, as the buffer more than doubles |
| StringPoolRuns.OrderedRunIsMap | archive/todo/optimization-examples/cppexamples/StringPoolS.cpp:241-334 | A run that stores in the order of the indices, and erases anywhere, is a fold of map updates, whatever the lengths |
| StringPoolRuns.StepIsMap | archive/todo/optimization-examples/cppexamples/StringPoolS.cpp:241-334 | One step is the map update if and only if it writes the right string (for text without zero characters) |
| StringPoolRuns.StepTight | archive/todo/optimization-examples/cppexamples/StringPoolS.cpp:255-260 | From an exact layout a step to the right string leaves an exact layout if and only if it is not wasteful |
| StringPoolRuns.RightPlaceFits | archive/todo/optimization-examples/cppexamples/StringPoolS.cpp:463-502 | A step that writes the right string never overruns |
| StringPoolRuns.WrongStringRewritten | archive/todo/optimization-examples/cppexamples/StringPoolS.cpp:359-379 | For all short a and b and long s, assigning b to 1, a to 0 and s to 0 runs past the buffer if a is longer than b by two or more, and otherwise ends with [a, s] instead of [s, b] |
| StringPoolRuns.NoBufferIff | archive/todo/optimization-examples/cppexamples/StringPoolS.cpp:425-433 | After any run there is no buffer if and only if no operation made room for characters |
| StringPoolRuns.EmptyStringNoBuffer | archive/todo/optimization-examples/cppexamples/StringPoolS.cpp:425-433 | Storing the empty string in a new pool gives a string without a buffer |
| StringPoolRuns.SetMeans | archive/todo/optimization-examples/cppexamples/StringPoolS.cpp:241-270 | What the step of `Set` does to the strings, when it overruns, whose string it is and when space stays exact |
| StringPoolRuns.RawMeans | archive/todo/optimization-examples/cppexamples/StringPoolS.cpp:274-303 | The same for `Set` with a length |
| StringPoolRuns.AppendMeans | archive/todo/optimization-examples/cppexamples/StringPoolS.cpp:307-334 | The same for `Concatenate` |
| StringPoolSteps.AllocatedSound | archive/todo/optimization-examples/cppexamples/StringPoolS.cpp:463-502 | After an allocation and its copy, by any of the paths, the layout is in order if it fits, it fits if the place is that of index i, and exactly string `Target` has changed |
| StringPoolSteps.OverrunIff | archive/todo/optimization-examples/cppexamples/StringPoolS.cpp:467-481 | The exact condition of an overrun in terms of the layout before: the place is another string and, after packing, lies too high in the new buffer |
| StringPoolSteps.AllocatedTight | archive/todo/optimization-examples/cppexamples/StringPoolS.cpp:463-502 | Space stays exact if and only if no move copies the string being replaced; a move that does not copy it makes it exact |
| StringPoolSteps.RoomAtTopSound | archive/todo/optimization-examples/cppexamples/StringPoolS.cpp:468-473 | After packing the room at the top is enough if the place is that of index i, and the string there is the last nonempty one |
| StringPoolSteps.RoomAtEndGeometry | archive/todo/optimization-examples/cppexamples/StringPoolS.cpp:490-497 | After packing for DataSize+len+1 that many bytes really fit, also from an empty pool; the old string is counted as garbage at most once |
| StringPoolSteps.PackedSound | archive/todo/optimization-examples/cppexamples/StringPoolS.cpp:338-390 | A packed layout is in order and exact |
| StringPoolSteps.LongerSound | archive/todo/optimization-examples/cppexamples/StringPoolS.cpp:243-250 | Adding empty strings keeps a layout in order and exact |
| StringPoolSteps.ErasedSound | archive/todo/optimization-examples/cppexamples/StringPoolS.cpp:254-261 | Erasing keeps a layout in order and exact |
| StringPool.StringPoolS.ReleaseOldBuffer | archive/todo/optimization-examples/cppexamples/StringPoolS.cpp:266-269 | The kept buffer, if any, is given back and the pool stays valid |
| StringPool.StringPoolS.Commit | archive/todo/optimization-examples/cppexamples/StringPoolS.cpp:465-501 | Once characters that spell s stand at the place handed out, the pool holds s there and nothing else changed |
| StringPoolLayout.TargetIsSelf | archive/todo/optimization-examples/cppexamples/StringPoolS.cpp:467-481 | When the right place is handed out, in terms a caller can check before the call: unless the last-stored string must outgrow the buffer while it is empty or a higher index holds a nonempty string |
| StringPoolLayout.PackedTarget | archive/todo/optimization-examples/cppexamples/StringPoolS.cpp:345-367 | After packing, Top is the offset of the last nonempty string by index, or 1 with no string at all |
| StringPoolLayout.PackedTopFits | archive/todo/optimization-examples/cppexamples/StringPoolS.cpp:468-479 | Packing never moves the last-stored string up, so Top+len+1 bytes are enough |
| StringPoolLayout.PackedFits | archive/todo/optimization-examples/cppexamples/StringPoolS.cpp:354-368 | Compaction needs no more room than the live strings had, for any layout with disjoint strings or not |
| StringPoolLayout.ImageHasStr | archive/todo/optimization-examples/cppexamples/StringPoolS.cpp:361-363 | Every copied string can be read back at its new offset |
| StringPoolLayout.PackedContent | archive/todo/optimization-examples/cppexamples/StringPoolS.cpp:354-368 | After compaction every string of the pool is readable at its packed offset |
| StringPoolLayout.PackedLive | archive/todo/optimization-examples/cppexamples/StringPoolS.cpp:363-367 | The packed size is one byte plus the sum of the string lengths with terminators |
| StringPoolLayout.PosMonotone | archive/todo/optimization-examples/cppexamples/StringPoolS.cpp:363-367 | Packed strings follow each other without overlap |
| StringPoolLayout.GeometryPacked | archive/todo/optimization-examples/cppexamples/StringPoolS.cpp:345-389 | A packed pool satisfies the layout invariant with no garbage |
| StringPoolLayout.GeometryAtTop | archive/todo/optimization-examples/cppexamples/StringPoolS.cpp:475-479 | Resizing the string stored last keeps the intervals disjoint and the space accounted for |
| StringPoolLayout.GeometryAppend | archive/todo/optimization-examples/cppexamples/StringPoolS.cpp:490-501 | Appending behind DataSize keeps the layout invariant when the old string is counted as garbage |
| StringPoolLayout.GeometryShrink | archive/todo/optimization-examples/cppexamples/StringPoolS.cpp:482-488 | Shrinking in place keeps the layout invariant with the difference as garbage |
| StringPoolLayout.GeometryErase | archive/todo/optimization-examples/cppexamples/StringPoolS.cpp:254-261 | Erasing keeps the layout invariant with the whole slot as garbage |
| StringPoolLayout.LiveUpdate | archive/todo/optimization-examples/cppexamples/StringPoolS.cpp:465-501 | The sum over live strings changes by the difference of one slot when one string changes |
| StringPoolLayout.WriteInSlot | archive/todo/optimization-examples/cppexamples/StringPoolS.cpp:263-264 | Writing inside one slot leaves every other string readable |
| StringPoolLayout.HoleFilled | archive/todo/optimization-examples/cppexamples/StringPoolS.cpp:262-269 | Filling the place handed out with a string that fits restores readability and the layout invariant |
| StringPoolLayout.ExtendKeeps | archive/todo/optimization-examples/cppexamples/StringPoolS.cpp:243-250 | Adding empty strings keeps readability and layout |
| StringPoolLayout.HasStrUnique | archive/todo/optimization-examples/cppexamples/StringPoolS.cpp:307-312 | Two zero-terminated readings at one offset are the same string |
| StringPoolLayout.ContentUnique | archive/todo/optimization-examples/cppexamples/StringPoolS.cpp:425-433 | Buffer and offsets determine all strings |
| StringPoolLayout.ExactPacked | archive/todo/optimization-examples/cppexamples/StringPoolS.cpp:382-389 | After compaction no byte is unaccounted for, and DataSize is Top plus the last string |
| StringPoolLayout.ExactAtTop | archive/todo/optimization-examples/cppexamples/StringPoolS.cpp:475-479 | Exact accounting survives resizing the string stored last |
| StringPoolLayout.ExactAppend | archive/todo/optimization-examples/cppexamples/StringPoolS.cpp:490-501 | Exact accounting survives appending |
| StringPoolLayout.ExactShrink | archive/todo/optimization-examples/cppexamples/StringPoolS.cpp:482-488 | Exact accounting survives shrinking in place |
| StringPoolLayout.ExactErase | archive/todo/optimization-examples/cppexamples/StringPoolS.cpp:254-261 | Exact accounting survives erasing |
| GridWalk.FillSet | archive/todo/fastnoise/FastNoiseSIMD/FastNoiseSIMD_internal.cpp:1162-1251 | The vectorised walk equals the scalar triple loop for every size, start, power-of-two vector size and both branches: every cell gets f of its own coordinates, and nothing at or past the aligned size is written |
| GridWalk.FillWholeVectors | archive/todo/fastnoise/FastNoiseSIMD/FastNoiseSIMD_internal.cpp:1163-1211 | The branch for rows that are whole vectors fills all cells and writes nothing behind them |
| GridWalk.FillRow | archive/todo/fastnoise/FastNoiseSIMD/FastNoiseSIMD_internal.cpp:1176-1207 | One row of whole vectors |
| GridWalk.FillWithCarries | archive/todo/fastnoise/FastNoiseSIMD/FastNoiseSIMD_internal.cpp:1212-1251 | The branch with masked carries fills all cells; only the last full store may reach the aligned size |
| GridWalk.AxisReset | archive/todo/fastnoise/FastNoiseSIMD/FastNoiseSIMD_internal.cpp:1060-1067 | After all masked carries every lane holds the coordinates of its own cell |
| GridWalk.LaneCarry | archive/todo/fastnoise/FastNoiseSIMD/FastNoiseSIMD_internal.cpp:1061-1067 | One carry keeps the row-major position of a lane and its y in range |
| GridWalk.RowStep | archive/todo/fastnoise/FastNoiseSIMD/FastNoiseSIMD_internal.cpp:1191-1195 | A register advanced by the vector size holds the coordinates of the next cells |
| GridWalk.LanesAreScalar | archive/todo/fastnoise/FastNoiseSIMD/FastNoiseSIMD_internal.cpp:1185-1188 | Lane l of the result at index is the scalar value of cell index+l |
| GridWalk.StoreLanes | archive/todo/fastnoise/FastNoiseSIMD/FastNoiseSIMD_internal.cpp:1069-1074 | A store extends the filled prefix and touches nothing past the limit |
| GridWalk.CellCoordinates | archive/todo/fastnoise/FastNoiseSIMD/FastNoiseSIMD_internal.cpp:1172-1209 | The coordinates of a cell are determined by its row-major position |
| GridWalk.CellInside | archive/todo/fastnoise/FastNoiseSIMD/FastNoiseSIMD_internal.cpp:1225 | Row-major positions of inner cells lie below the product of the sizes |
| GridWalk.AlignedSizeIsLeastMultiple | archive/todo/fastnoise/FastNoiseSIMD/FastNoiseSIMD_internal.cpp:1037-1048 | The aligned size is the least multiple of the vector size not below the size |
| GridWalk.AlignedRoom | archive/todo/fastnoise/FastNoiseSIMD/FastNoiseSIMD_internal.cpp:1037-1074 | A full-width store starting at a multiple of the vector size below the size ends within the aligned size |
| Bits.MaskIsMod | archive/todo/fastnoise/FastNoiseSIMD/FastNoiseSIMD_internal.cpp:1040-1044 | Masking with 2^n-1 is the remainder and clearing these bits rounds down, for negative numbers too |
| SampledSet.FillSampledNoiseSet | archive/todo/fastnoise/FastNoiseSIMD/FastNoiseSIMD_internal.cpp:2133-2271 | For every scale, start and size: each output cell ends with the trilinear blend of the eight corners of its block at its local offset, samples are read in range only, nothing past the set is written, and a scale of 0 or less is the plain fill. Noise that is a product of one affine function for each axis comes out as that product, each function at floor(start/S) plus (2(d+offset)+1)/2S of its own axis |
| SampledSet.SeparableBlend | archive/todo/fastnoise/FastNoiseSIMD/FastNoiseSIMD_internal.cpp:2240-2246 | The blend of a product of affine functions is the product of the three, each at the place on its own axis |
| SampledSet.SeparableCell | archive/todo/fastnoise/FastNoiseSIMD/FastNoiseSIMD_internal.cpp:2208-2246 | The value of a cell for such noise, in terms of start, coordinate and sample size alone |
| SampledSet.AxisPlace | archive/todo/fastnoise/FastNoiseSIMD/FastNoiseSIMD_internal.cpp:2148-2235 | Sample, block and half-step weight of a coordinate add up to its place on the axis of samples |
| SampledSet.FillBlocks | archive/todo/fastnoise/FastNoiseSIMD/FastNoiseSIMD_internal.cpp:2192-2267 | All blocks, in order |
| SampledSet.FillRowOfBlocks | archive/todo/fastnoise/FastNoiseSIMD/FastNoiseSIMD_internal.cpp:2195-2264 | A row of blocks with the corner samples carried on in registers |
| SampledSet.FillBlock | archive/todo/fastnoise/FastNoiseSIMD/FastNoiseSIMD_internal.cpp:2214-2261 | All cells of one block get their value; lanes past localCountMax only write values other cells have to hold anyway |
| SampledSet.StoreInside | archive/todo/fastnoise/FastNoiseSIMD/FastNoiseSIMD_internal.cpp:2248-2257 | Lanes outside the output are not written |
| SampledSet.OffsetIsNegation | archive/todo/fastnoise/FastNoiseSIMD/FastNoiseSIMD_internal.cpp:2148-2150 | The masked offset is the distance from the start up to the next multiple of the sample size |
| SampledSet.SampleCountIsCeiling | archive/todo/fastnoise/FastNoiseSIMD/FastNoiseSIMD_internal.cpp:2152-2167 | There are just enough samples for the whole axis |
| SampledSet.AxisCovered | archive/todo/fastnoise/FastNoiseSIMD/FastNoiseSIMD_internal.cpp:2148-2167 | Every output coordinate has a block with samples on both sides and is that block start plus its place |
| SampledSet.PlaceIsUnique | archive/todo/fastnoise/FastNoiseSIMD/FastNoiseSIMD_internal.cpp:2148-2167 | ... and no other block and place give the same coordinate |
| SampledSet.SamplesLineUp | archive/todo/fastnoise/FastNoiseSIMD/FastNoiseSIMD_internal.cpp:2148-2174 | Samples are taken at the world coordinate where their block starts if and only if the start is a multiple of the sample size or halfway between two |
| SampledSet.SamplesShifted | archive/todo/fastnoise/FastNoiseSIMD/FastNoiseSIMD_internal.cpp:2148-2174 | For start 1 and samples of size 4 block and sample are two units apart |
| SampledSet.DecodePlace | archive/todo/fastnoise/FastNoiseSIMD/FastNoiseSIMD_internal.cpp:2219-2229 | Every place of a block is decoded from exactly one counter below the block size |
| SampledSet.SameCell | archive/todo/fastnoise/FastNoiseSIMD/FastNoiseSIMD_internal.cpp:2219-2235 | A cell is where the decoded place of its own counter says |
| SampledSet.AdvancedWrite | archive/todo/fastnoise/FastNoiseSIMD/FastNoiseSIMD_internal.cpp:2231-2256 | Writing a decoded place is a correct step, also for counters past the block |
| SampledSet.AdvancedTrans | archive/todo/fastnoise/FastNoiseSIMD/FastNoiseSIMD_internal.cpp:2217-2260 | Steps compose |
| SampledSet.DoneBlock | archive/todo/fastnoise/FastNoiseSIMD/FastNoiseSIMD_internal.cpp:2214-2262 | With a whole block walked the walk has advanced by one block |
| SampledSet.DoneRow | archive/todo/fastnoise/FastNoiseSIMD/FastNoiseSIMD_internal.cpp:2202-2264 | The end of a row of blocks is the start of the next |
| SampledSet.DonePlane | archive/todo/fastnoise/FastNoiseSIMD/FastNoiseSIMD_internal.cpp:2195-2266 | The end of a plane of blocks is the start of the next |
| MersenneTwister.Generator.Genrand64 | archive/todo/mersenne-twister/MT19937-64.c:107-142 | The k-th output after seeding is the tempered word 312+k of the linear recurrence, over any number of refills; an unseeded generator is seeded with 5489 |
| MersenneValues.FirstNumbers | archive/todo/mersenne-twister/MT19937-64.c:107-142 | A generator that was never seeded delivers 14514284786278117030, 4620546740167642908 and 13109570281517897720 |
| MersenneValues.TemperLinear | archive/todo/mersenne-twister/MT19937-64.c:136-139 | Tempering is linear over exclusive or |
| MersenneValues.TemperBits0 | archive/todo/mersenne-twister/MT19937-64.c:136-139 | The images of single bits under tempering as literals, bits 0 to 15 |
| MersenneValues.TemperBits16 | archive/todo/mersenne-twister/MT19937-64.c:136-139 | ... bits 16 to 31 |
| MersenneValues.TemperBits32 | archive/todo/mersenne-twister/MT19937-64.c:136-139 | ... bits 32 to 47 |
| MersenneValues.TemperBits48 | archive/todo/mersenne-twister/MT19937-64.c:136-139 | ... bits 48 to 63 |
| MersenneValues.NextWords | archive/todo/mersenne-twister/MT19937-64.c:113-132 | The first three words after the seeded ones as literals |
| MersenneValues.SeedWords | archive/todo/mersenne-twister/MT19937-64.c:72-77 | The seeded words they are made of as literals, computed through all 158 steps |
| MersenneValues.TwistLaws | archive/todo/mersenne-twister/MT19937-64.c:122-123 | The twist halves an even word, and an odd one differs by the constant |
| MersenneValues.MixIs | archive/todo/mersenne-twister/MT19937-64.c:62-63 | The mixed word by shifts: upper 33 bits of one, lower 31 of the other |
| MersenneValues.FoldValues | archive/todo/mersenne-twister/MT19937-64.c:76 | Folding takes the two highest bits down to the two lowest |
| MersenneValues.StepValues | archive/todo/mersenne-twister/MT19937-64.c:76-98 | Single steps of the three seeding loops as literals |
| MersenneTwister.Generator.Refill | archive/todo/mersenne-twister/MT19937-64.c:113-132 | The in-place refill moves the window on the recurrence by 312, mixing old and new words correctly |
| MersenneTwister.Generator.InitGenrand64 | archive/todo/mersenne-twister/MT19937-64.c:72-77 | The array becomes the seeded state and nothing has been delivered |
| MersenneTwister.Generator.InitByArray64 | archive/todo/mersenne-twister/MT19937-64.c:82-104 | The array becomes the keyed state; a length of 0 acts as 1 |
| MersenneTwister.Generator.ApplyKey | archive/todo/mersenne-twister/MT19937-64.c:87-95 | The first keying loop, in place, is the recursive specification of `KeyRounds`, wrap-arounds of both indices included, for every length |
| MersenneTwister.Generator.MixKeyed | archive/todo/mersenne-twister/MT19937-64.c:96-101 | The second keying loop likewise |
| MersenneTwister.StepInjective | archive/todo/mersenne-twister/MT19937-64.c:120-129 | States that agree after a step agreed before it, on the top 33 bits of one word and the 311 others |
| MersenneTwister.RunsNeverMerge | archive/todo/mersenne-twister/MT19937-64.c:120-129 | Two runs that ever meet started from the same effective state |
| MersenneTwister.NeverZero | archive/todo/mersenne-twister/MT19937-64.c:120-129 | A state that is not all zero never becomes all zero, in any run |
| MersenneTwister.NoZeroBlock | archive/todo/mersenne-twister/MT19937-64.c:120-139 | No 312 outputs in a row are all zero |
| MersenneTwister.ZerosStayZero | archive/todo/mersenne-twister/MT19937-64.c:120-129 | The all-zero state is a fixed point, the one the others can never reach |
| MersenneTwister.SeededNonZero | archive/todo/mersenne-twister/MT19937-64.c:72-77 | Every seed gives a state that is not all zero |
| MersenneTwister.KeyedNonZero | archive/todo/mersenne-twister/MT19937-64.c:103 | Every key gives a state that is not all zero |
| MersenneKeys.KeysToldIff | archive/todo/mersenne-twister/MT19937-64.c:82-104 | For every key length, seeding from keys of that length is injective if and only if it is at most 310 words |
| MersenneKeys.ShortKeysTold | archive/todo/mersenne-twister/MT19937-64.c:82-104 | Keys of the same length up to 310 words that give the same state are the same |
| MersenneKeys.LongKeysCollide | archive/todo/mersenne-twister/MT19937-64.c:82-104 | Every longer key has an explicit twin with the same state |
| MersenneKeys.ShortKeyRounds | archive/todo/mersenne-twister/MT19937-64.c:90-95 | After all rounds for a short key word k, from 2 on, is one application of the key to word k-1 |
| MersenneKeys.RowTellsKey | archive/todo/mersenne-twister/MT19937-64.c:90-95 | Those words tell every word of the key |
| MersenneKeys.MixBack | archive/todo/mersenne-twister/MT19937-64.c:97-104 | The second keying loop can be undone on the words behind the first |
| MersenneKeys.KeyRoundsSplit | archive/todo/mersenne-twister/MT19937-64.c:90-95 | m + k rounds are m rounds and then k, with the key index taken modulo its length |
| MersenneTwister.SeedWordBijective | archive/todo/mersenne-twister/MT19937-64.c:72-77 | For every word index, seed to word is a bijection with an explicit inverse |
| MersenneTwister.SeedsNeverMeet | archive/todo/mersenne-twister/MT19937-64.c:72-129 | Runs from different seeds never reach the same state at the same step |
| MersenneWords.SeedStepInverse | archive/todo/mersenne-twister/MT19937-64.c:76 | Fold by 62, multiply and add are undone by an explicit inverse, both ways |
| MersenneWords.TwistInjective | archive/todo/mersenne-twister/MT19937-64.c:61 | The twist loses nothing, since the matrix has its top bit set |
| MersenneWords.MixSplits | archive/todo/mersenne-twister/MT19937-64.c:62-63 | The upper 33 and lower 31 bits of the mixed words can be told from the mix |
| MersenneWords.TemperBijective | archive/todo/mersenne-twister/MT19937-64.c:136-139 | Tempering is a bijection on 64-bit words with an explicit inverse, both ways |
| MersenneWords.Untempers2 | archive/todo/mersenne-twister/MT19937-64.c:137 | The second tempering line is undone, both ways |
| Sudoku.SolveSudoku | archive/todo/sudoku/sudoku.cpp:108-153 | For every 9x9 grid whatever its contents: true with the blanks filled without conflict and the rest kept, and no other filling before it in row-major order, or false with the grid unchanged and no filling at all; a filled grid is a solution if and only if the givens are consistent, false means there is no solution, and for consistent givens the answer is true if and only if a solution exists; the recursion ends by the number of blanks |
| Sudoku.FillingIsSolving | archive/todo/sudoku/sudoku.cpp:81-88 | For givens without conflict, fillings are exactly the solved grids that extend the givens |
| Sudoku.TrueAnswerRightIff | archive/todo/sudoku/sudoku.cpp:108-119 | A filling is a solution, and there is a solution at all, if and only if the givens are consistent |
| Sudoku.FalseAnswerRight | archive/todo/sudoku/sudoku.cpp:152 | Without a filling there is no solution, whatever the givens |
| Sudoku.FullGridIsAccepted | archive/todo/sudoku/sudoku.cpp:108-119 | A concrete grid with conflicting givens that is accepted as solved |
| Sudoku.SolvedMeansConsistent | archive/todo/sudoku/sudoku.cpp:81-88 | Only consistent givens have a solution |
| Sudoku.AssignedFills | archive/todo/sudoku/sudoku.cpp:126-141 | After a safe assignment the fillings are exactly those with that number in the cell |
| Sudoku.UnsafeFillsNothing | archive/todo/sudoku/sudoku.cpp:126-141 | An unsafe number is in no filling |
| Sudoku.LeastThrough | archive/todo/sudoku/sudoku.cpp:126-141 | The least filling through the least number that leads to one is the least of all |
| Sudoku.IsSafe | archive/todo/sudoku/sudoku.cpp:81-88 | True if and only if neither the cell nor any other of its row, column or box holds the number |
| Sudoku.UsedInRow | archive/todo/sudoku/sudoku.cpp:44-52 | True if and only if the number is in the row |
| Sudoku.UsedInCol | archive/todo/sudoku/sudoku.cpp:56-64 | True if and only if the number is in the column |
| Sudoku.UsedInBox | archive/todo/sudoku/sudoku.cpp:68-77 | True if and only if the number is in the box |
| Sudoku.GetUnassignedLocation | archive/todo/sudoku/sudoku.cpp:94-103 | The first blank in row-major order, or (9, 9) exactly when there is none |
| FastNoise.SingleCubicInUnit | archive/todo/fastnoise/Noise/FastNoise.cpp:1526-1574 | With lattice values in [-1, 1] cubic noise stays in [-1, 1]: the constant cancels three nested overshoots |
| FastNoise.SingleCubicReachesOne | archive/todo/fastnoise/Noise/FastNoise.cpp:1526-1574 | The constant is the best possible: some lattice reaches 1 |
| FastNoiseValues.SingleCubicOfProduct | archive/todo/fastnoise/Noise/FastNoise.cpp:1526-1574 | On a lattice that is a product, cubic noise is 8/27 of the product of the three weighted sums, each along its own axis at the true floor |
| FastNoiseValues.SingleCubicAtPoint | archive/todo/fastnoise/Noise/FastNoise.cpp:1526-1574 | At a lattice point cubic noise is 8/27 of the lattice value |
| FastNoise.CubicLerpBound | archive/todo/fastnoise/Noise/FastNoise.cpp:191-195 | One cubic interpolation enlarges the range by at most 1.5 |
| FastNoise.CubicWeights | archive/todo/fastnoise/Noise/FastNoise.cpp:191-195 | Signs of the four weights, and their absolute sum is at most 1.5 |
| FastNoise.CubicExpanded | archive/todo/fastnoise/Noise/FastNoise.cpp:191-195 | The polynomial is the weighted sum of its four values |
| FastNoise.FbmNormalisedIff | archive/todo/fastnoise/Noise/FastNoise.cpp:217-227 | With its reciprocal the noise of the octave loop is in [-1, 1] for all lattices in [-1, 1], tables of bytes, interpolations, lacunarities and points if and only if the gain is not negative or there is at most one octave |
| FastNoise.FbmExceeds | archive/todo/fastnoise/Noise/FastNoise.cpp:543-560 | For every negative gain with two octaves or more and a nonzero sum, two constant lattices picked in turn by a table of bytes leave [-1, 1] at every point |
| FastNoise.OddNegative | archive/todo/fastnoise/Noise/FastNoise.cpp:543-560 | The amplitudes of a negative gain alternate in sign |
| FastNoise.SignsExceed | archive/todo/fastnoise/Noise/FastNoise.cpp:543-560 | With a negative gain and two octaves or more, octaves of matching signs exceed the normalising sum |
| FastNoise.OctavesBound | archive/todo/fastnoise/Noise/FastNoise.cpp:543-560 | The sum of octaves in [-1, 1] is at most the sum of their amplitudes |
| FastNoise.CalculateFractalBounding | archive/todo/fastnoise/Noise/FastNoise.cpp:217-227 | The reciprocal of the very geometric sum the octave loop uses; infinite if and only if that sum is zero |
| FastNoise.SingleValueFractalFBM | archive/todo/fastnoise/Noise/FastNoise.cpp:543-560 | The loop is the amplitude-weighted sum of octaves at coordinates scaled by powers of the lacunarity, and with the normaliser it stays in [-1, 1] for a gain of 0 or more and for one octave |
| FastNoiseValues.FbmOfPlanes | archive/todo/fastnoise/Noise/FastNoise.cpp:543-560 | On planes the octave loop gives the heights that the table picks, weighted by the powers of the gain, plus the plane through 0 times the sum of the powers of gain times lacunarity, all times the normaliser |
| FastNoiseValues.Geometric | archive/todo/fastnoise/Noise/FastNoise.cpp:217-227 | (1 - gain) times the sum of amplitudes is 1 - gain^k |
| FastNoiseValues.AmplitudeValues | archive/todo/fastnoise/Noise/FastNoise.cpp:217-227 | Sums of amplitudes for gains 0.5 and -2 |
| FastNoise.OctavesInUnit | archive/todo/fastnoise/Noise/FastNoise.cpp:543-560 | Every octave lies in [-1, 1] for lattices in [-1, 1] |
| FastNoise.SingleValueBetween | archive/todo/fastnoise/Noise/FastNoise.cpp:605-643 | Value noise never leaves the range of its lattice values, under all three interpolations |
| FastNoise.SingleValueTrueFloor | archive/todo/fastnoise/Noise/FastNoise.cpp:605-643 | Value noise is what the true floor would give, although FastFloor is one too low on negative integers |
| FastNoiseValues.SingleValueOfProduct | archive/todo/fastnoise/Noise/FastNoise.cpp:605-643 | On a lattice that is a product, value noise is the product of the three interpolations, each along its own axis |
| FastNoiseValues.SingleValueOfStep | archive/todo/fastnoise/Noise/FastNoise.cpp:605-643 | On a step along any axis the three settings give t, 3t^2-2t^3 and 6t^5-15t^4+10t^3 of that coordinate and of no other |
| FastNoiseValues.SingleValueAtPoint | archive/todo/fastnoise/Noise/FastNoise.cpp:605-643 | At a lattice point value noise is the lattice value, for every interpolation |
| FastNoiseValues.SingleValueOfPlane | archive/todo/fastnoise/Noise/FastNoise.cpp:605-643 | Linear interpolation reproduces a plane everywhere |
| FastNoise.FastFloorIs | archive/todo/fastnoise/Noise/FastNoise.cpp:184 | Exactly where FastFloor differs from the floor, and the fraction lies in [0, 1] |
| FastNoise.LerpBetween | archive/todo/fastnoise/Noise/FastNoise.cpp:188 | Interpolation stays between its ends |
| FastNoise.HermiteInUnit | archive/todo/fastnoise/Noise/FastNoise.cpp:189 | Hermite weights stay in [0, 1] |
| FastNoise.QuinticInUnit | archive/todo/fastnoise/Noise/FastNoise.cpp:190 | Quintic weights stay in [0, 1] |
| Cellular.KeepSmallest | archive/todo/fastnoise/Noise/FastNoise.cpp:1812-1842 | After the 27 cells distance[0..index1] is the sorted list of the index1+1 smallest values among the distances and the initial sentinels, and among the distances alone if none is above 999999; the entries behind are untouched |
| Cellular.Update | archive/todo/fastnoise/Noise/FastNoise.cpp:1837-1839 | The descending max/min loop in place is insertion into a sorted list without its largest |
| Cellular.ShuffleIsInsert | archive/todo/fastnoise/FastNoiseSIMD/FastNoiseSIMD_internal.cpp:1871-1873 | Position by position, the max/min formula is sorted insertion |
| Cellular.InsertIs | archive/todo/fastnoise/Noise/FastNoise.cpp:1837-1839 | Insertion keeps the order and adds exactly one element to the bag |
| Cellular.InsertPrefix | archive/todo/fastnoise/Noise/FastNoise.cpp:1837-1839 | Dropping the largest before later insertions changes nothing among the first k |
| Cellular.SortedWithIs | archive/todo/fastnoise/Noise/FastNoise.cpp:1820-1842 | Inserting a stream gives a sorted permutation of the start and the stream |
| Cellular.PrefixIsSmallest | archive/todo/fastnoise/Noise/FastNoise.cpp:1820-1842 | The prefix of a sorted sequence is the k smallest of its bag |
| Cellular.KeptNext | archive/todo/fastnoise/Noise/FastNoise.cpp:1837-1839 | One distance more keeps the loop invariant of the walk |
| Cellular.KeptIsSmallest | archive/todo/fastnoise/Noise/FastNoise.cpp:1820-1842 | What the walk keeps is the k smallest |
| Cellular.KeptWithoutSentinels | archive/todo/fastnoise/Noise/FastNoise.cpp:1818-1842 | With enough distances up to the sentinel no sentinel is kept |
| Cellular.NeighbourAt | archive/todo/fastnoise/Noise/FastNoise.cpp:1823-1829 | The walk meets every one of the 27 cells at its own place in the stream |
| DynamicQueue.Run | archive/todo/optimization-examples/cppexamples/DynamicQueue.cpp:103-217 | Any run of putting new objects, putting copies of its own entries and getting, from an empty queue, delivers what the first-in first-out specification does and copies at most two elements for every one put |
| DynamicQueue.FirstInFirstOut | archive/todo/optimization-examples/cppexamples/DynamicQueue.cpp:163-203 | In the specification, what came out followed by what is left is what went in, in order |
| DynamicQueue.Queue.Put | archive/todo/optimization-examples/cppexamples/DynamicQueue.cpp:163-181 | Appends the object found at a reference, which may be an entry of the queue although the buffer moves; the old buffer is given back after the copy; the amortised bound on copied elements is kept |
| DynamicQueue.Queue.Insert | archive/todo/optimization-examples/cppexamples/DynamicQueue.cpp:173-180 | The object goes to the vacant slot and the sequence grows by it |
| DynamicQueue.Queue.Get | archive/todo/optimization-examples/cppexamples/DynamicQueue.cpp:185-203 | Removes and returns the oldest entry, error exactly on an empty queue |
| DynamicQueue.Queue.At | archive/todo/optimization-examples/cppexamples/DynamicQueue.cpp:207-217 | A reference to entry i from the tail, error exactly outside [0, NumEntries) |
| DynamicQueue.Queue.ReAllocate | archive/todo/optimization-examples/cppexamples/DynamicQueue.cpp:130-159 | Keeps the sequence, wrapped and exactly full included, and leaves the old buffer to be deleted |
| DynamicQueue.Queue.Unwrap | archive/todo/optimization-examples/cppexamples/DynamicQueue.cpp:141-150 | The new buffer starts with the entries in order, for every head and tail |
| DynamicQueue.Queue.Reserve | archive/todo/optimization-examples/cppexamples/DynamicQueue.cpp:103-126 | Grows only, keeps the sequence; 0 discards it; negative is an error |
| DynamicQueue.Queue.Grow | archive/todo/optimization-examples/cppexamples/DynamicQueue.cpp:166-172 | A full queue gets more than twice its capacity and pays for the copy from the entries put |
| DynamicQueue.Queue.constructor | archive/todo/optimization-examples/cppexamples/DynamicQueue.cpp:88-92 | An empty queue |
| DynamicQueue.SlotInjective | archive/todo/optimization-examples/cppexamples/DynamicQueue.cpp:174-181 | The vacant slot is in the buffer and belongs to no entry, also when the ring wraps |
| DynamicQueue.AtLeastOne | archive/todo/optimization-examples/cppexamples/DynamicQueue.cpp:169 | The capacity grows for every element size |
| MixedPool.Pool.Push | archive/todo/optimization-examples/cppexamples/MixedPool.cpp:189-245 | Appends the bytes, or zeros for a null pointer, at the returned offset; earlier bytes keep offset and content, also when the pushed bytes are the pool own and the buffer moves, since they are copied before the old buffer is deleted; the bytes behind the data stay zero if and only if the size is not negative or the bytes that will be cut off exist and are zero |
| MixedPool.PushCutsOff | archive/todo/optimization-examples/cppexamples/MixedPool.cpp:189-245 | Pushing a one and then a size of -1 ends the zero tail |
| MixedPool.Pool.MakeRoom | archive/todo/optimization-examples/cppexamples/MixedPool.cpp:201-237 | Old bytes, then the new ones, then zeros, with or without a new buffer, the old one deleted after the copies |
| MixedPool.Pool.MoveAndCopy | archive/todo/optimization-examples/cppexamples/MixedPool.cpp:201-233 | The reallocating branch of Push: old bytes, then the new ones, then zeros, read while the old buffer is not yet deleted, which it is afterwards |
| MixedPool.Pool.SetDataSize | archive/todo/optimization-examples/cppexamples/MixedPool.cpp:165-186 | A larger size is pushing zeros, a smaller one truncates and clears |
| MixedPool.Pool.ReserveSize | archive/todo/optimization-examples/cppexamples/MixedPool.cpp:132-163 | Grows only and keeps the data; 0 discards; negative is an error |
| MixedPool.Pool.Align | archive/todo/optimization-examples/cppexamples/MixedPool.cpp:248-260 | The data end at the value of the alignment expression; a positive alignment appends fewer than a zeros to a multiple of a; the bytes behind the data stay zero if and only if a is positive or the bytes that will be cut off, by that expression, exist and are zero |
| MixedPool.AlignCutsOff | archive/todo/optimization-examples/cppexamples/MixedPool.cpp:248-260 | Pushing a one and then aligning to -1 ends the data below zero |
| MixedPool.Pool.constructor | archive/todo/optimization-examples/cppexamples/MixedPool.cpp:121-125 | An empty pool |
| MixedPool.Run | archive/todo/optimization-examples/cppexamples/MixedPool.cpp:121-260 | Any run of pushes of own or foreign bytes, alignments, and changes of size or reservation on a new pool ends with the data of the fold and zeros behind them, or stops at the same error |
| MixedPool.EarlierIsPrefix | archive/todo/optimization-examples/cppexamples/MixedPool.cpp:189-260 | As long as nothing is taken away the data at any moment are a prefix of all later ones |
| MixedPool.PushedStays | archive/todo/optimization-examples/cppexamples/MixedPool.cpp:189-245 | Bytes pushed are found at the returned offset after any such run |
| MixedPool.RoundsUp | archive/todo/optimization-examples/cppexamples/MixedPool.cpp:151 | The mask expression is the least multiple of 16 not below its argument |
| MixedPool.NextMultiple | archive/todo/optimization-examples/cppexamples/MixedPool.cpp:251 | The alignment expression is the least multiple of a |
| MixedPool.Multiple | archive/todo/optimization-examples/cppexamples/MixedPool.cpp:251 | The alignment expression for both signs: the next multiple upwards, or the multiple next to n+a-1 on the side of zero |
| CpuListText.ParseUndoesPrint | archive/todo/fastnoise/FastNoiseSIMD/ARM/cpu-features.c:382-431 | Parsing a printed list of singles and ranges, with or without a newline, covers exactly what the items cover if and only if all numbers fit, and is undefined otherwise |
| CpuListText.ListContinues | archive/todo/fastnoise/FastNoiseSIMD/ARM/cpu-features.c:418-431 | A badly formatted rest does not undo the items before it |
| CpuListText.ListStep | archive/todo/fastnoise/FastNoiseSIMD/ARM/cpu-features.c:392-427 | An item followed by a comma is taken and parsing goes on behind the comma |
| CpuListText.ListEnd | archive/todo/fastnoise/FastNoiseSIMD/ARM/cpu-features.c:392-427 | The last item, with or without a newline, ends the list |
| CpuListText.NumberReads | archive/todo/fastnoise/FastNoiseSIMD/ARM/cpu-features.c:299-330 | A printed number followed by anything but a digit is read back |
| CpuListText.ItemReads | archive/todo/fastnoise/FastNoiseSIMD/ARM/cpu-features.c:402-416 | A printed item, single or range, is read back |
| CpuListText.CommaFound | archive/todo/fastnoise/FastNoiseSIMD/ARM/cpu-features.c:397-400 | The first comma behind a text without commas |
| CpuListText.ValueMonotone | archive/todo/fastnoise/FastNoiseSIMD/ARM/cpu-features.c:318 | A number only grows with its digits, so an overflow on the way is one in the end |
| CpuListText.CoveredByIs | archive/todo/fastnoise/FastNoiseSIMD/ARM/cpu-features.c:419-421 | A bit is covered exactly when it is below 32 and in some item |
| CpuListText.DigitOfIs | archive/todo/fastnoise/FastNoiseSIMD/ARM/cpu-features.c:305-316 | The digits are exactly 0-9, a-f and A-F with their values |
| CpuListText.FitsIs | archive/todo/fastnoise/FastNoiseSIMD/ARM/cpu-features.c:314-421 | When a parsed number or the counter of a range fits into an int, in figures |
| CpuListText.PrintExample | archive/todo/fastnoise/FastNoiseSIMD/ARM/cpu-features.c:378-385 | The printer gives the list in the comment of the parser |
| CpuList.ReadPrinted | archive/todo/fastnoise/FastNoiseSIMD/ARM/cpu-features.c:382-431 | Printing then parsing into an empty mask: bit v is set if and only if some item covers v |
| CpuList.Parse | archive/todo/fastnoise/FastNoiseSIMD/ARM/cpu-features.c:382-431 | The pointer-walking parser is the grammar on the rest of the line, for every line, malformed ones included; both loops end |
| CpuList.ParseItem | archive/todo/fastnoise/FastNoiseSIMD/ARM/cpu-features.c:402-416 | One item up to the comma, single or range, or bad format, or an overflow |
| CpuList.ParseNumber | archive/todo/fastnoise/FastNoiseSIMD/ARM/cpu-features.c:299-324 | The longest run of digits and its value, or no number, or overflow |
| CpuList.Comma | archive/todo/fastnoise/FastNoiseSIMD/ARM/cpu-features.c:397-400 | The first comma or the end |
| CpuList.SetRange | archive/todo/fastnoise/FastNoiseSIMD/ARM/cpu-features.c:419-421 | The loop over a range adds exactly the range, and would overflow its counter exactly for a nonempty range up to the largest int |
| CpuList.List.Set | archive/todo/fastnoise/FastNoiseSIMD/ARM/cpu-features.c:360-365 | One bit more, or nothing for an index outside 32 bits |
| CpuList.SetBit | archive/todo/fastnoise/FastNoiseSIMD/ARM/cpu-features.c:360-365 | Or-ing a single bit adds exactly that element to the set the mask stands for |
| CpuList.BitsApart | archive/todo/fastnoise/FastNoiseSIMD/ARM/cpu-features.c:363 | Different single bits do not meet |
| CpuList.BitValues | archive/todo/fastnoise/FastNoiseSIMD/ARM/cpu-features.c:363 | Bit v has the value 2^v |

## Left out

- Set: the state after `Overrun` is not described; a write past a buffer has no defined effect.
- Set: the source must not overlap the string being replaced; copying a string onto itself is not modelled.
- Concatenate: concatenating a string with itself, where the copies may overlap, is not modelled.
- StepIsMap: for text with a zero character only one direction, since two strings may then hold the same prefix already.
- StringPoolS `Clear`: it drops the reserved byte at offset 0, so nothing the class promises survives it.
- StringPoolS destructor, `Printf`, `Write`, `operator[]`, searching: raw access and I/O.
- FillSet: perturbation, frequency scaling and the SIMD instructions themselves; `f` is any function of the integer coordinates, sizes are at least 1 and coordinates do not overflow.
- FillSampledNoiseSet: the form that reads a vector set, and `1 << (3 * sampleScale)` beyond the width of an int; rounding.
- Genrand64: the functions that turn its words into 63-bit integers or reals.
- SolveSudoku: printing and the built-in puzzle.
- SingleValueFractalFBM: floating-point rounding and infinities; Billow and RigidMulti, two-dimensional forms.
- KeepSmallest: the three distance formulas and the value returned from the kept distances; `f` is any function of the cell.
- CalculateFractalBounding: a zero sum is one value `Infinite`, its sign is not kept.
- FastNoise `SetSeed`, gradient, simplex and white noise; the permutation table is any sequence.
- Push: a negative size together with a pointer, which no copy defines.
- Align: an alignment of 0, which divides by zero.
- Parse: a signed overflow is the outcome `Undefined`, nothing is said about the mask after it.
- Reading `/sys`, hexadecimal callers and cpu feature detection.
- Widths of `int` fields, failed allocations and padding of buffers, in all containers.
- StringPoolL, StringPoolW, the lists, arrays and stacks beside them: the same ideas or simpler ones.
- Assembler macros, syscall tables, sockets, user interfaces and scripts: I/O or tables.
