# CameraMan, verified

CameraMan composes camera and synthetic sources into one picture and hands it to a virtual
camera. This project models its arithmetic core and the small protocols around it in Dafny
and proves what they promise. Each module follows one source file or one part of it.

**The compositor** (`layout`, `media_contract`, `source_transform`, `frame`, `sampling`,
`shading`, `composited_bytes`, `fixed_point`, `canvas`, `sampling_cache`, `paste`, `paste_transformed`,
`compositor`, `compose`, `paths_agree`, `composition_laws`). The simple meaning of a composition is pointwise: each output byte is
what one drawing operation makes of one source pixel (`Shading`, exact real arithmetic, every
pixel through `SourceCoordinate`). The source never works that way: it copies rows, caches
separable offset maps, blends in fixed point, replaces a division by a shift and skips clearing
what will be covered. Every loop over the byte buffer is a method proved to leave exactly
`Painted(old bytes, reference)`, and `Compositor.ComposeWith` is proved to leave the reference
composition whatever the recycled buffer held, in any size, crop, turn, mirror, fit, position,
opacity and filter. The reference itself is pinned in whole numbers: which sample a place takes,
what a painted byte is of the source's bytes, and which cell decides a byte of the picture.

**The render worker** (`render_worker`, `render_worker_runs`, `render_worker_progress`). The critical sections are
methods of a class, each equal to a function of the state it found. A machine of those
functions, the sink calls and the compositions runs in every interleaving of the two threads;
what happened is a trace of events, and the claims about sends and counters are about the trace.
Beside what never happens it is proved what does: a wanted frame is sent, a failure reported.

**Time and history** (`stream_runtime`, `media_clock`, `scene_history`). The pacer is held
against a grid of deadlines, the clock thread against all interleavings with its user, the undo
stacks against a cursor on one timeline.

**Text and bytes** (`parser_limits`, `little_endian`, `frame_transport`, `ppm`). The one-pass
JSON check is held against trees of values, the two file formats against readers.

**Small protocols** (`capture`, `capture_progress`, `atomic_file`, `io_worker`). Any number of capture workers
and a table of leases; one cancellable job and the directory it writes to.

Some claims one might expect are false of the code. Each has its exact condition:

- The user's turn and mirrors, added to those of a frame's own description, show the user's view
  of the picture the cropped frame displays exactly when `ViewsCommute`, for every pixel aspect
  ratio. Two things can go wrong. A quarter turn across a lone mirror turns the picture upside
  down, which shows unless it is one pixel, or one row whose columns the display shows as one
  and the view reverses. Otherwise only the axis that the ratio stretches matters: it must not be
  reversed, or be shown a whole number of times as wide as it is (`AddedTurnsComposePictures`;
  `StretchedHalfTurnDiffers` and `QuarterTurnAcrossMirrorDiffers` give the inputs).
- The untransformed and the transformed paste path agree on blue, green and red always; the
  fourth byte agrees exactly for sources whose alpha bytes are all 255, because the untransformed
  path copies alpha and the other writes 255 (`AlphaAgreesOnlyWhenOpaque`,
  `ClearPixelKeepsItsAlpha`).
- A frame of edits enters the undo history if the flag that an undo or redo raises is down;
  otherwise the scene changes and the stacks do not. An undo by key during a
  drag makes the drag's edit vanish from the history, and an undo by key in the same frame as an
  edit makes the scene it restored vanish (`EditRecordedExactlyWhenFlagDown`,
  `UndoDuringDragLosesTheEdit`, `EditAfterUndoLosesTheScene`).
- A row, column or grid has a slot for every source exactly below 2^32 sources, because the count
  is narrowed to 32 bits (`GridHoldsEverySource`, `WideRowHasOneSlot`).
- The pacer stays on its grid of deadlines exactly while the next one fits in 64 bits
  (`OnTheGridExactlyBelowSaturation`, `LastNanosecondIsOffTheGrid`).
- The pacer's division panics exactly for rates above 10^9, asked late with the rate and the
  clock unchanged (`PanicsExactlyWhenLateAtNoInterval`, `FastPacerPanics`).
- A spool file that was read encodes back to itself exactly if it advertises a rate of at least
  one; zero is read as one (`ReadFrameEncodesToItsBytes`, `RatelessFileIsNotItsEncoding`).
- A file replacement reported as failed has replaced the destination exactly if only the last
  step, syncing the directory, failed (`FileSystem.ReplaceAtomicallyIf`,
  `FailedMeansReplacedIfOnlyUnsynced`, `UnsyncedReplacementFails`).
- A comment at `src/capture.rs:494-500` has the device closed while a worker waits to reconnect;
  the code drops it only after the wait. A waiting worker's device is open exactly if its phase
  has left `Opening`, that is, after a session and not after an open that failed
  (`WaitingDeviceIsOpenAfterASession`, `WaitsWithItsDeviceOpen`).
- The frame-gap watchdog, which reads phase, format and error under separate locks, speaks of a
  session that delivered a frame exactly if the worker's phase was still, or again, streaming when
  the format was read (`SilenceIsOfAHeardSession`, `UnheardCameraCalledSilent`).

## Model

| member | source | states |
|---|---|---|
| Layout.CeilSqrt | src/layout.rs:41-61 | the column count is the least whose square holds every source |
| Layout.EdgeExact | src/layout.rs:143-147 | the truncating cast never truncates: an edge is the exact proportional position and at most the total |
| Layout.EdgeMonotone | src/layout.rs:143-147 | grid lines never cross |
| Layout.EdgeEnds | src/layout.rs:143-147 | the first and last grid line are the output's borders |
| Layout.GridHoldsEverySource | src/layout.rs:41-61 | a row, column or grid has a slot for each source if and only if there are fewer than 2^32, for every count whose grid can be computed |
| Layout.WideRowHasOneSlot | src/layout.rs:41-61 | the count for which a row has a single slot |
| Layout.SlotCellsApart | src/layout.rs:64-93 | two different slots of a grid never overlap, for every size including fewer pixels than slots |
| Layout.PipOverlaysApart | src/layout.rs:96-141 | two overlays of picture in picture never overlap |
| Layout.PictureInPictureCells | src/layout.rs:96-141 | the loop builds the primary cell and the stacked overlays |
| Layout.Cells | src/layout.rs:64-141 | one cell a source, inside the output, pairwise disjoint (overlays among themselves), and where it belongs: a Row side by side at full height, a Column stacked at full width, a Grid in reading order on a grid as square as can be, overlays up the right side from the bottom, every edge at its exact share |
| Layout.OnGridIsInOrder | src/layout.rs:64-93 | on a grid the next source is to the right in the same row or starts the row below |
| Layout.CellListIsLaidOut | src/layout.rs:64-141 | the same places, for every size, count and layout |
| Layout.CellListIsSafe | src/layout.rs:64-141 | for every output size, count and layout the cells lie inside the output and are pairwise disjoint |
| Layout.AreaCountsPixels | src/render.rs:403-412 | for disjoint cells the sum of areas is the number of pixels in them |
| Layout.AreaTestIsExact | src/render.rs:403-412 | for disjoint cells inside the output the 64-bit sum cannot overflow and reaches the output's area exactly when no pixel is uncovered |
| Layout.CoverTestIsExact | src/render.rs:403-412 | the coverage test answers yes exactly when every output pixel lies in some cell, for every layout |
| MediaContract.WireCodeInverse | src/media_contract.rs:67-136 | a code decodes to a colorimetry exactly if it is that colorimetry's code and the colorimetry is supported: a two-sided inverse |
| MediaContract.WireCodesOfTheEnums | src/media_contract.rs:67-93 | the codes of the four kinds of frame, as numbers |
| MediaContract.ValidContractsAre | src/media_contract.rs:262-279 | a contract is valid exactly with schema 1, eight bits, positive aspect terms and a non-empty aperture in the frame |
| MediaContract.DisplayIsStretched | src/media_contract.rs:300-313 | the displayed width is the stretched width rounded with halves up, within the clamps; a quarter turn trades the axes |
| MediaContract.SourceCoordinateInside | src/media_contract.rs:317-352 | with any valid aspect ratio and any coordinate the sampled pixel lies in the clean aperture |
| MediaContract.SquareSourceCoordinate | src/media_contract.rs:317-352 | with square pixels the map is the plain turn and mirror of the picture, moved to the aperture; no clamp or saturation acts |
| MediaContract.DisplayToSourceAndBack | src/media_contract.rs:300-352 | with square pixels every display pixel shows an aperture pixel and is found again from it |
| MediaContract.SourceToDisplayAndBack | src/media_contract.rs:300-352 | with square pixels every aperture pixel is shown somewhere and found again: the map is a bijection |
| SourceTransforms.SanitizedFixesExactlyTheValid | src/source_transform.rs:68-106 | sanitizing always yields a valid transform and changes nothing exactly for the valid ones |
| SourceTransforms.SanitizedIsNearest | src/source_transform.rs:91-106 | sanitizing moves every part as little as any valid transform allows and touches nothing else |
| SourceTransforms.CropKeepsExactly | src/source_transform.rs:108-137 | a pixel survives the crop exactly if no inset reaches over it in whole, each inset on its own side |
| SourceTransforms.CropLeavesAPixel | src/source_transform.rs:108-137 | opposite insets below the whole leave at least one pixel of any size |
| SourceTransforms.ApplyNeverFails | src/source_transform.rs:108-133 | applying succeeds exactly for a valid transform of a valid contract, and leaves a non-empty aperture inside the old one |
| SourceTransforms.ViewOfView | src/source_transform.rs:127-156 | what adding turns and flipping mirrors means as a composition of coordinate maps, for all eight by eight pairs |
| SourceTransforms.SourceByAxes | src/media_contract.rs:317-352 | for every pixel aspect ratio a displayed pixel is its column, brought back in proportion, and its row, each as it is or in reverse |
| SourceTransforms.PicturesByAxes | src/source_transform.rs:127-156 | at one place the applied transform and the user's view of the displayed picture agree exactly if they agree on the column and on the row |
| SourceTransforms.EvenStretchReverses | src/media_contract.rs:325-328 | shown a whole number of times as wide, columns scale and reverse in either order |
| SourceTransforms.UnevenStretchDoesNot | src/media_contract.rs:325-328 | otherwise some column does not |
| SourceTransforms.AddedTurnsComposePictures | src/source_transform.rs:108-156 | for every valid contract, ratio, crop, turn and mirroring, the applied transform shows the user's view of what the cropped frame displays if and only if `ViewsCommute` |
| SourceTransforms.SquarePixelsCompose | src/source_transform.rs:108-156 | with square pixels that is: no quarter turn across a lone mirror, or a single pixel |
| SourceTransforms.StretchedHalfTurnDiffers | src/source_transform.rs:127-156 | the input at ratio 3:2 on which a half turn differs |
| SourceTransforms.QuarterTurnAcrossMirrorDiffers | src/source_transform.rs:127-156 | the input on which a quarter turn across a mirror differs |
| Frames.AcceptedFramesAreValid | src/frame.rs:184-232 | a frame is accepted exactly when sizes, length, contract and memory limit fit |
| Frames.SetContractKeepsFrames | src/frame.rs:276-280 | a frame takes exactly the descriptions valid for its size and stays valid |
| Frames.PackedPixel | src/frame.rs:437-483 | each packed pixel is the pixel of the padded row |
| Frames.ToOwnedTightlyPacked | src/frame.rs:460-483 | packing succeeds exactly within the limit and then shows what the view showed |
| Sampling.NearestInside | src/render.rs:1262-1269 | the nearest coordinate is inside any non-empty source |
| Sampling.NearestExact | src/render.rs:1262-1269 | inside the destination neither cast nor clamp acts, and order is kept |
| Sampling.LinearSampleAt | src/render.rs:1232-1255 | both taps lie inside any non-empty source, in order, with a weight of at most 256 |
| Sampling.LinearSampleIsExact | src/render.rs:1232-1255 | for every pair of sizes, in whole numbers: the low tap is the last pixel centre not after the destination pixel's, the weight the rest in 256ths, halves up |
| Sampling.MirroredDestination | src/render.rs:1232-1255 | mirrored destinations sample mirrored places, but for halves, which come out one 256th too far |
| Sampling.ShiftedSampleIsExact | src/render.rs:949-961 | a window is sampled as a source of its own would be |
| Sampling.LinearSameSize | src/render.rs:1232-1255 | at equal sizes a pixel samples itself with its whole weight |
| Sampling.PositionedOffsetEnds | src/render.rs:944-947 | a position moves the picture from one border over the centre to the other, never outside |
| Sampling.PositionedOffsetIsProportional | src/render.rs:944-947 | the offset is the position's share of the free space, rounded down |
| Shading.OpaqueShadeIgnoresOld | src/render.rs:431-453 | an opaque source at full opacity hides whatever was underneath |
| CompositedBytes.SampleIsLevel | src/render.rs:978-1004 | a sampled pixel's coverage and colour, from its bytes, for every alpha mode and range |
| CompositedBytes.NearestByteIs | src/render.rs:663-715 | a byte painted with the nearest filter, in whole numbers of the source's colour and alpha bytes and the byte underneath, for every alpha mode, range, opacity, crop, turn and mirror |
| CompositedBytes.BilinearSampleIs | src/render.rs:1006-1037 | a bilinear sample is the mean of four sampled pixels, alpha too, weighted by nearness |
| CompositedBytes.StraightByte | src/render.rs:998-1001 | straight alpha mixes colour and background in the alpha byte's ratio, rounded half up |
| CompositedBytes.PremultipliedByte | src/render.rs:998-1001 | a premultiplied colour is added to what its alpha leaves of the background, at most 255 |
| CompositedBytes.LimitedByte | src/render.rs:994-997 | limited range: 16 and below is 0, 235 and above 255, in proportion between |
| CompositedBytes.TwoPixels | src/render.rs:998-1001 | a straight and a premultiplied pixel over the empty cell's grey |
| FixedPoint.WeightedSumBounded | src/render.rs:1193-1224 | the 32-bit weighted sum, with its rounding, cannot overflow |
| FixedPoint.ShiftIsDivision | src/render.rs:912-924 | the shift at full opacity equals the division for every sum and every byte underneath |
| FixedPoint.BilinearChannelIsReference | src/render.rs:1193-1224 | the fixed-point bilinear byte is the exact mix rounded half up |
| FixedPoint.WeightedBlendIsReference | src/render.rs:917-924 | the faded fixed-point channel is the exact blend over the byte underneath, rounded half up |
| Canvas.EveryByteHasAPixel | src/frame.rs:306-312 | every byte of a buffer is a channel of exactly one pixel |
| SamplingMaps.SamplingCache.Get | src/render.rs:295-330 | the map returned is the function of its key, the tables hold at most 64 maps together, a full cache is emptied of both kinds |
| SamplingMaps.SamplingCache.GetTransformed | src/render.rs:332-400 | the same for transformed maps |
| Paste.FillCell | src/render.rs:414-429 | filling the first row and copying it down paints exactly the cell |
| Paste.UnscaledIsEitherFilter | src/render.rs:1049-1068 | at the source's own size both filters give the pixel itself |
| Paste.PasteUnscaled | src/render.rs:1049-1068 | row copies paint the resampled source, whichever filter is set |
| Paste.PasteNearest | src/render.rs:1070-1139 | cached offsets paint the nearest reference |
| Paste.PasteBilinear | src/render.rs:1141-1225 | cached taps and fixed point paint the exact bilinear reference, rounded |
| PasteTransformed.SeparableOffset | src/render.rs:869-910 | mirroring the axes separately and turning afterwards addresses the pixel `source_coordinate` names |
| PasteTransformed.NearestIsReference | src/render.rs:784-820 | one nearest pixel of the fast path stays inside the input and is the pointwise reference |
| PasteTransformed.BilinearIsReference | src/render.rs:822-867 | all four taps stay inside the input and the fixed-point pixel is the pointwise reference |
| PasteTransformed.PasteTransformedNearest | src/render.rs:784-820 | the loop over cached coordinates paints the pointwise reference |
| PasteTransformed.PasteTransformedBilinear | src/render.rs:822-867 | the loop over cached taps, shifting or dividing, paints the pointwise reference |
| PasteTransformed.PasteGeneric | src/render.rs:663-715 | the pixel-by-pixel path paints the pointwise reference |
| PasteTransformed.PasteContractTransformed | src/render.rs:548-593 | whichever path is taken the picture is the reference |
| Compositing.PlacementIsSafe | src/render.rs:595-661 | for Fit and Fill and any fit rounding a placement samples inside the display and paints inside its cell; Fill paints all of it |
| Compositing.FittedSizeIsTheRounding | src/render.rs:603-613 | the fitted size is the rounded one, axis by axis, kept between one pixel and the cell |
| Compositing.PlacementIsProportional | src/render.rs:595-661 | free space and cut display are shared out in proportion to the position, each axis by its own |
| Compositing.FillWindowIsTheLargest | src/render.rs:628-660 | a Fill window keeps one axis whole and is the largest of the cell's shape along the other |
| Compositing.PositionReachesBothEnds | src/render.rs:595-661 | the extreme positions reach the cell's borders for Fit and the display's for Fill, each axis by its own position |
| Compositing.OverwriteTestIsSound | src/render.rs:431-453 | when the test says a source overwrites its cell, it covers the whole cell and no written byte depends on the one it replaces |
| Compositing.PasteAspectFit | src/render.rs:455-546 | a source is drawn as its reference draw, or nothing changes and the transform's error is returned |
| Compose.OutcomeIsOk | src/render.rs:107-161 | composing succeeds exactly with a source, a buffer of the format's size and a valid transform on every source drawn |
| Compose.StepAgrees | src/render.rs:124-144 | one source keeps a recycled buffer in agreement with the freshly cleared one, though its fill may be skipped |
| Compose.Compositor.ComposeSource | src/render.rs:124-187 | one iteration: fill unless hidden, then paste |
| Compose.Compositor.ClearUncovered | src/render.rs:107-123 | clearing is skipped only when the cells cover every pixel |
| Compose.Compositor.ComposeCells | src/render.rs:124-146 | the first invalid transform ends the loop; otherwise every cell agrees with the reference |
| Compose.Compositor.ComposeWith | src/render.rs:107-146 | the composed bytes are the reference composition, a function of the sources alone and not of the recycled bytes |
| CompositionLaws.UncoveredIsBlack | src/render.rs:107-146 | where no cell is, the picture is opaque black |
| CompositionLaws.TopmostCellDecides | src/render.rs:107-146 | every covered byte is decided by the last cell over it: grey 32 where its source is missing or does not reach, else its source's pixel over that grey |
| CompositionLaws.OverwriteTestIsExact | src/render.rs:431-453 | the test that skips a fill answers yes if and only if the drawing covers the cell and hides what is under it |
| PathsAgree.SamePlace | src/render.rs:455-546 | both paths put an untransformed canonical source in the same place |
| PathsAgree.ColoursAgree | src/render.rs:784-867 | blue, green and red of the two paths agree for every canonical source, cell, filter and pixel |
| PathsAgree.AlphaAgreesOnlyWhenOpaque | src/render.rs:1049-1225 | the fourth byte of the untransformed path is 255 at every size if and only if all source alphas are |
| PathsAgree.ClearPixelKeepsItsAlpha | src/render.rs:1049-1068 | the input whose alpha byte the untransformed path keeps at 0 |
| RenderWorkers.RenderWorker.Submit | src/render_worker.rs:164-178 | the whole new state, and whether an older request was dropped |
| RenderWorkers.RenderWorker.DisconnectOutput | src/render_worker.rs:180-185 | output off and a disconnect asked for |
| RenderWorkers.RenderWorker.TakeResult | src/render_worker.rs:187-194 | the unread result is handed over and gone |
| RenderWorkers.RenderWorker.RecycleFrame | src/render_worker.rs:196-201 | the pool grows up to three |
| RenderWorkers.RenderWorker.NextAction | src/render_worker.rs:525-539 | stop before disconnect before job; taking a job marks processing |
| RenderWorkers.RenderWorker.LastPosition | src/render_worker.rs:515-523 | the last pooled buffer of the size is found, or there is none |
| RenderWorkers.RenderWorker.TakeRecycledFrame | src/render_worker.rs:515-523 | a buffer is taken exactly if one fits, and only it leaves the pool |
| RenderWorkers.RenderWorker.Absorb | src/render_worker.rs:356-390 | merging an unread result into its successor |
| RenderWorkers.RenderWorker.Commit | src/render_worker.rs:355-397 | a finished job's result becomes the unread one and its predecessor's buffer is pooled |
| RenderWorkers.CoalescingKeeps | src/render_worker.rs:356-397 | of any run of unread results the one left has the sum of all counters, the newest picture, and per kind the newest report of the newest epoch |
| RenderWorkerRuns.StepKeepsInvariant | src/render_worker.rs:164-400 | every step of either thread keeps the invariant |
| RenderWorkerRuns.JobsAreConserved | src/render_worker.rs:164-400 | in every interleaving the submitted jobs are, job by job, those replaced, pending, in hand, finished, and at most one dropped at the end; the pool never exceeds three |
| RenderWorkerRuns.CountersAreConserved | src/render_worker.rs:340-397 | counters taken, unread and in hand equal the compositions, live compositions, sends, allocations and reuses that happened |
| RenderWorkerRuns.NoWorkMeansDone | src/render_worker.rs:203-211 | when `has_work` is false every job is replaced or finished, the newest last, and the counters taken are complete |
| RenderWorkerRuns.NewestIsFinishedLast | src/render_worker.rs:525-539 | when the worker waits with nothing pending the newest job submitted is the last one finished |
| RenderWorkerRuns.SendsAreGuarded | src/render_worker.rs:300-326 | a send happens over a connected sink, straight after a locked check that saw output on and the epoch current, in increasing submission order, and at most once after output is turned off |
| RenderWorkerRuns.NoStrayConnection | src/render_worker.rs:228-329 | connected with output off means a disconnect is asked for or under way; none is left when the worker ends |
| RenderWorkerRuns.DropIsJoined | src/render_worker.rs:214-226 | once the drop has begun the worker ends within nine of its own steps with the sink disconnected |
| RenderWorkerProgress.WantedFrameIsSent | src/render_worker.rs:293-319 | in every interleaving a composed job that stays wanted from its first look to its send, the sink connecting, has its frame sent |
| RenderWorkerProgress.WantedJobAlone | src/render_worker.rs:228-400 | everything going well a wanted job is composed, into a pooled buffer exactly if one fits, sent, counted once and finished in eight steps |
| RenderWorkerProgress.PublishingSubmitIsWanted | src/render_worker.rs:164-178 | a submitted job that publishes is such a job, whatever disconnect was asked for |
| RenderWorkerProgress.UiCallsKeepApart | src/render_worker.rs:164-226 | every call of the user interface changes what it names and nothing else |
| RenderWorkerProgress.UnwantedJobSendsNothing | src/render_worker.rs:296-329 | output turned off closes the sink, an old epoch leaves it open, neither sends |
| RenderWorkerProgress.RefusedConnectionIsReported | src/render_worker.rs:304-309 | a refused connection is handed over with the picture |
| RenderWorkerProgress.FailedSendIsReported | src/render_worker.rs:317-323 | a failed send disconnects and is handed over with the picture |
| RenderWorkerProgress.FailedCompositionIsReported | src/render_worker.rs:268-310 | a failed composition leaves a result without a picture and sends nothing |
| RenderWorkerProgress.RequestedDisconnectHappens | src/render_worker.rs:242-247 | a requested disconnect is carried out before any job |
| RenderWorkerProgress.ConnectionIsKept | src/render_worker.rs:228-329 | while output is on only a failed send gives up the connection |
| RenderWorkerProgress.WaitingChangesNothing | src/render_worker.rs:525-539 | with nothing to do the worker waits |
| RenderWorkerProgress.UnreadBufferIsPooled | src/render_worker.rs:355-397 | the buffer of a result nobody read goes back to the pool if there is room |
| RenderWorkerProgress.FreshResultIs | src/render_worker.rs:340-354 | what a finished job hands over |
| ParserLimits.ValidateInputSize | src/parser_limits.rs:71-79 | which size limit is exceeded, if any |
| ParserLimits.ValidateJsonEnvelope | src/parser_limits.rs:100-149 | the byte loop computes the verdict, and its saturating counters never saturate |
| ParserLimits.StructuralBytes | src/parser_limits.rs:128-146 | the bytes that count outside strings |
| ParserLimits.SampleArray | src/parser_limits.rs:128-146 | the text of an array with an escaped string |
| ParserLimits.SampleObject | src/parser_limits.rs:128-146 | the text of an object |
| ParserLimits.JsonReads | src/parser_limits.rs:100-149 | from any state outside strings the text of a tree costs exactly what the tree needs, or fails for a limit it exceeds |
| ParserLimits.AcceptsExactlyWhatFits | src/parser_limits.rs:71-149 | a document passes if and only if size, nesting depth, containers plus commas, and every string as written are within the limits; an error names a limit that is exceeded |
| StreamRuntime.DeadlinePacer.Plan | src/stream_runtime.rs:31-64 | the plan and the whole new state, or the panic of a division by zero |
| StreamRuntime.IntervalForFps | src/stream_runtime.rs:71-74 | the interval is the longest of which `fps` fit into a second; it is zero exactly above 10^9 |
| StreamRuntime.PanicsExactlyWhenLateAtNoInterval | src/stream_runtime.rs:48-52 | the condition under which the division panics |
| StreamRuntime.FastPacerPanics | src/stream_runtime.rs:48-52 | the input on which it panics: 2*10^9 frames a second, asked at 0 and at 1 |
| StreamRuntime.RestartIsAFreshPacer | src/stream_runtime.rs:33-45 | a clock that jumps back or a new rate is a fresh pacer asked at that moment |
| StreamRuntime.SlotIsTheLeast | src/stream_runtime.rs:47-58 | the slot aimed at is the least unused one not before now |
| StreamRuntime.EveryDeadlineIsOnTheGrid | src/stream_runtime.rs:31-64 | over any run each call aims at that slot of the grid begun by the first call, sleeps until it and reports the slots skipped |
| StreamRuntime.OnTheGridExactlyBelowSaturation | src/stream_runtime.rs:31-64 | the next deadline is on the grid if and only if it fits in 64 bits |
| StreamRuntime.LastNanosecondIsOffTheGrid | src/stream_runtime.rs:60-64 | the call that saturates at once, for every rate |
| StreamRuntime.DeadlinesAreConserved | src/stream_runtime.rs:31-64 | the n-th deadline lies n - 1 plus the total skipped intervals after the first |
| StreamRuntime.ASecondHoldsItsFrames | src/stream_runtime.rs:31-74 | `fps` frames, none skipped, span a second, or less by fewer nanoseconds than there are frames |
| StreamRuntime.SleepIsAtMostOneInterval | src/stream_runtime.rs:60-64 | a caller back no earlier than its last deadline sleeps at most one interval |
| MediaClocks.MediaClock.Update | src/media_clock.rs:97-111 | the revision moves exactly when something changes |
| MediaClocks.MediaClock.SetFps | src/media_clock.rs:71-84 | the same for the rate alone |
| MediaClocks.MediaClock.TakeTick | src/media_clock.rs:88-95 | yes exactly if the generation moved; then drained |
| MediaClocks.MediaClock.ClockWakes | src/media_clock.rs:133-171 | one wake-up: exactly one tick for a deadline that expired while running under its revision, none otherwise |
| MediaClocks.StepKeepsInvariant | src/media_clock.rs:55-171 | every step of either thread keeps the invariant |
| MediaClocks.StopSilences | src/media_clock.rs:60-69 | wherever the clock thread cuts in, a stop that returns leaves nothing to drain |
| MediaClocks.QuietAfterStop | src/media_clock.rs:60-95 | from then to the next start `take_tick` is false and no tick is added |
| MediaClocks.TicksOnlyUnderTheirRevision | src/media_clock.rs:149-169 | a tick comes only while running and with no change since its wait was planned, up to wrap-around of the revision |
| MediaClocks.ExpiredDeadlineTicks | src/media_clock.rs:149-169 | in every run a deadline that expires with the control untouched adds exactly one tick |
| MediaClocks.StartedClockTicks | src/media_clock.rs:55-169 | a start leaves the clock running at its rate; the next wait that expires adds a tick |
| MediaClocks.StopKeepsTheRate | src/media_clock.rs:60-69 | stopping keeps the rate |
| MediaClocks.ControlCalls | src/media_clock.rs:55-131 | what each call does first |
| MediaClocks.OneTakeDrainsAll | src/media_clock.rs:88-95 | any number of missed ticks is one yes, the next answer is no; exact up to wrap-around |
| SceneHistories.SceneEditor.CommitSceneHistory | src/app/scenes.rs:40-54 | the whole new state |
| SceneHistories.SceneEditor.FinishSceneHistory | src/app/scenes.rs:56-66 | the whole new state, with the drag's baseline |
| SceneHistories.SceneEditor.UndoSceneEdit | src/app/scenes.rs:68-77 | the whole new state; true exactly if there was an entry |
| SceneHistories.SceneEditor.RedoSceneEdit | src/app/scenes.rs:79-88 | the whole new state; true exactly if there was an entry |
| SceneHistories.SceneEditor.RunFrame | src/app/ui.rs:55-103 | a whole frame: shortcut, panels, bookkeeping |
| SceneHistories.PushBounded | src/app/scenes.rs:278-283 | the newest entry goes on top; at the limit only the oldest goes, below it nothing |
| SceneHistories.OldestEntryGoesAtSixtyFour | src/app/scenes.rs:278-283 | sixty-four entries are kept |
| SceneHistories.BackAndForth | src/app/scenes.rs:68-88 | moving the cursor never changes the timeline, and back and forth undo each other |
| SceneHistories.HistoryStaysBounded | src/app/scenes.rs:40-88 | in any run of frames undo and redo entries together stay within 64, so undo and redo never evict and move along the timeline |
| SceneHistories.FrameMovesCursor | src/app/ui.rs:55-195 | a pointer-up frame of edits, or of any number of undos and redos after any shortcut, moves the cursor as those do |
| SceneHistories.RunMovesCursor | src/app/scenes.rs:40-88 | any run of such frames is a cursor on one timeline that only edits rewrite |
| SceneHistories.DragIsOneEdit | src/app/scenes.rs:316-330 | a drag of any length is one edit from the scene before its first change |
| SceneHistories.EditRecordedExactlyWhenFlagDown | src/app/scenes.rs:40-66 | from any state and after any shortcut, a frame of changes is one recorded edit if the flag is down; if it is up the scene changes and neither stack does, which differs from a recorded edit unless a full history holds only the baseline's content |
| SceneHistories.PointerUpFrameRecordsOrKeeps | src/app/ui.rs:55-195 | any pointer-up frame from any state records one edit from its baseline, or, after a jump, leaves the stacks as the jumps made them |
| SceneHistories.UndoDuringDragLosesTheEdit | src/app/scenes.rs:40-77 | the drag on which an edit is lost |
| SceneHistories.EditAfterUndoLosesTheScene | src/app/scenes.rs:40-77 | the pointer-up frame on which the scene an undo restored is lost |
| LittleEndians.ReadWritten | src/frame_transport.rs:266-303 | reading is the inverse of writing on values that fit |
| LittleEndians.WriteRead | src/frame_transport.rs:266-303 | writing is the inverse of reading on every byte string |
| LittleEndians.ByteAt | src/frame_transport.rs:266-276 | each byte counts its power of 256 |
| FrameTransport.FileBegins | src/frame_transport.rs:177-189 | magic, version, sizes, pixel format, rate and colour code as bytes at their offsets |
| FrameTransport.FileContinues | src/frame_transport.rs:190-196 | sequence, generation, clocks, length and pixels at theirs |
| FrameTransport.FieldAt | src/frame_transport.rs:296-303 | each header field is cut out again at the reader's offset |
| FrameTransport.WrittenFrameIsRead | src/frame_transport.rs:162-256 | every frame a writer can send is read back exactly |
| FrameTransport.ReadFrameIsSendable | src/frame_transport.rs:203-256 | what the reader accepts is a valid normalized frame within the limit |
| FrameTransport.ReadFrameEncodesToItsBytes | src/frame_transport.rs:203-256 | bytes read as a frame are its encoding if and only if they advertise a positive rate |
| FrameTransport.RatelessFileIsNotItsEncoding | src/frame_transport.rs:203-256 | the file that is read but does not encode back |
| FrameTransport.TransportInverse | src/frame_transport.rs:162-256 | writer and reader are inverse to each other, both ways |
| FrameTransport.FrameSpoolSink.WriteFrame | src/frame_transport.rs:177-199 | the sequential writes lay out the encoding |
| FrameTransport.FrameSpoolSink.Send | src/frame_transport.rs:101-125 | the error, or the new file and the next sequence number |
| FrameTransport.ReaderSeesTheLastSend | src/frame_transport.rs:101-160 | after a send a reader gets that frame, or that it is too large; after a failed one what it got before |
| Captures.ReconnectBackoff.NextDelay | src/capture.rs:689-693 | the wait is handed out and doubled up to five seconds |
| Captures.DelaysDouble | src/capture.rs:676-704 | the wait after n failures in a row |
| Captures.GapBudget | src/capture.rs:180-185 | the frame-gap budget is sixty intervals, never below two seconds |
| Captures.ActiveCameraIds.TryAcquire | src/capture.rs:733-741 | acquired exactly if the id was free; held afterwards either way |
| Captures.ActiveCameraIds.Release | src/capture.rs:25-33 | only that id is freed |
| Captures.WorkerStepKeeps | src/capture.rs:570-674 | a worker's step keeps its own invariant and touches the table only to take its free id or drop its held one |
| Captures.LeasesAreExact | src/capture.rs:721-741 | in every interleaving the active ids are exactly those of workers holding a lease |
| Captures.OneWorkerPerCamera | src/capture.rs:570-741 | no two workers are ever inside the backend, or have the device open, for the same camera |
| Captures.DeviceOnlyUnderLease | src/capture.rs:570-674 | a device is open only under a lease, and on every exit the lease goes after the device |
| Captures.StreamingMeansDelivered | src/capture.rs:503-508 | a published format in the streaming phase means this session delivered a frame, so the frame-gap watchdog speaks of a camera that was heard |
| Captures.WaitingDeviceIsOpenAfterASession | src/capture.rs:585-672 | in every run a worker that waits to reconnect has its device open if and only if its phase has left `Opening` |
| Captures.WaitsWithItsDeviceOpen | src/capture.rs:600-672 | the run on which a worker waits in the streaming phase, its format withdrawn and its device open |
| Captures.SilenceIsOfAHeardSession | src/capture.rs:503-535 | with any steps between a reader's locks, the frame-gap watchdog speaks of a session that delivered a frame if and only if the worker had not reopened since the phase was read or was streaming again |
| Captures.UnheardCameraCalledSilent | src/capture.rs:503-535 | the run on which a camera not heard yet is called silent |
| Captures.StopFreesTheCamera | src/capture.rs:570-674 | a stopped worker is gone after at most ten of its own steps, its lease with it |
| CaptureProgress.FreshWorkerOpens | src/capture.rs:576-622 | a worker whose camera is free takes the lease, opens and publishes format and phase before its first read |
| CaptureProgress.DeliveredFrameIsPublished | src/capture.rs:629-640 | a delivered frame publishes phase and frame, clears the error, and resets failures and backoff |
| CaptureProgress.EmptyReadClearsTheError | src/capture.rs:629-640 | an empty read clears the error but neither phase nor backoff |
| CaptureProgress.ThirdFailureClosesTheSession | src/capture.rs:641-664 | the first two failed reads in a row pause, the third closes the session, a panic at once |
| CaptureProgress.WaitingWorkerReopens | src/capture.rs:585-673 | after the wait the device is closed and opened again, and the wait doubles |
| CaptureProgress.FailedOpenIsRetried | src/capture.rs:590-617 | a failed open is reported and waited out, a panicking one gives the lease back |
| CaptureProgress.StopIsSeen | src/capture.rs:576-673 | from where a stopped worker leaves, and how |
| CaptureProgress.WatchdogsSpeakExactlyWhenLate | src/capture.rs:155-210 | the watchdogs speak exactly past their deadlines |
| AtomicFiles.FileSystem.Attempt | src/atomic_file.rs:41-71 | one attempt: committed, declined and failed each with the directory they leave |
| AtomicFiles.FileSystem.ReplaceAtomicallyIf | src/atomic_file.rs:17-79 | the outcome and directory of the whole replacement; committed changes exactly the destination, declined nothing, failed leaves a whole old or new destination and at most one temporary |
| AtomicFiles.AllNamesTaken | src/atomic_file.rs:34-48 | reservation fails exactly when all thirty-two names are taken |
| AtomicFiles.UnsyncedReplacementFails | src/atomic_file.rs:66-71 | the replacement that changes the destination and is reported as failed |
| IoWorkers.IoState.Cancel | src/app/io_worker.rs:198-206 | accepted exactly if the word was active |
| IoWorkers.IoState.BeginCommit | src/app/io_worker.rs:292-306 | allowed exactly if the word was active |
| IoWorkers.DestinationIsOldOrNew | src/atomic_file.rs:17-79 | at every moment the destination is the old file or the whole new one |
| IoWorkers.AcceptedCancelPreventsReplacement | src/app/io_worker.rs:198-206 | after an accepted cancel the destination is never replaced and the job never completed |
| IoWorkers.CancelIsAcceptedOnce | src/app/io_worker.rs:198-206 | until the job has finished or begun to commit the first cancel is accepted, and no later one |
| IoWorkers.FrameEncodingCannotFail | src/app/io_worker.rs:261-290 | encoding a frame goes on to the file whatever happens but a cancel |
| IoWorkers.CompletedMeansReplaced | src/app/io_worker.rs:261-275 | a completed job changed exactly the destination and every cancel was refused |
| IoWorkers.CancelledMeansUntouched | src/app/io_worker.rs:261-275 | a job reported cancelled left the directory as it was and a cancel was accepted |
| IoWorkers.FailedMeansReplacedIfOnlyUnsynced | src/app/io_worker.rs:261-306 | in every interleaving a failed job has replaced the destination if its last sync is all that failed, and otherwise left every file but one temporary as it was |
| IoWorkers.CompletedExportReadsBack | src/app/io_worker.rs:261-290 | in every interleaving a completed frame export leaves a file that a reader of the format reads as the frame |
| IoWorkers.JobAloneIsReplacement | src/app/io_worker.rs:261-306 | from its first reservation a job left alone, cancelled or not, ends with the outcome and the directory of `FileSystem.ReplaceAtomicallyIf`, however the file operations fail |
| IoWorkers.EncodingLooksAsTheEncoder | src/app/io_worker.rs:277-290 | a job's encoding stage ends cancelled exactly if one of the encoder's looks comes after the cancel |
| Ppm.EncodePpm | src/app/io_worker.rs:277-290 | the chunked loop writes the file, and ends early exactly if one of its looks finds a cancel |
| Ppm.LooksEverySixtyFourKilobytes | src/app/io_worker.rs:281-284 | a look before every 64 KiB |
| Ppm.ExportReadsBack | src/app/io_worker.rs:277-290 | a reader of the format gets back the frame's size and pixels |
| Ppm.ExportedPixel | src/app/io_worker.rs:284-287 | each exported pixel is the frame's, red first |

## Left out

- Layout.Cells: for row, column and grid, states the cells below 2^32 sources, where `Layout.GridHoldsEverySource` shows the grid has a slot for each; from there on the source divides by zero or runs off the grid.
- Layout.CellListIsSafe: the same bound on the count of sources.
- Layout.CoverTestIsExact: the same bound on the count of sources.
- Compose.OutcomeIsOk: the same bound on the count of sources.
- Compose.Compositor.ClearUncovered: the same bound on the count of sources.
- Compose.Compositor.ComposeWith: the same bound on the count of sources.
- PasteTransformed.PasteGeneric: the source samples alpha and limited-range pixels in f32; the model is exact, and the tie exceptions its own tests list at `src/render.rs:1770` fall outside the claim.
- Sampling.LinearSampleAt: the source computes tap positions in f64; the model is exact, so a position the rounding moves across a tie is not captured.
- Layout.CeilSqrt: the source rounds an f64 square root up; the model takes the exact root rounded up.
- Compositing.PlacementIsSafe: the f32 scale of Fit is an arbitrary function clamped to the cell, so the theorems hold for every rounding but say nothing about which size it picks.
- StreamRuntime.EveryDeadlineIsOnTheGrid: holds while the next deadline fits in 64 bits; past that the source's saturating additions pin the deadline (`OnTheGridExactlyBelowSaturation`).
- StreamRuntime.DeadlinesAreConserved: the same bound on the next deadline.
- StreamRuntime.SleepIsAtMostOneInterval: the same bound on the next deadline.
- SceneHistories.FrameMovesCursor: leaves out frames that both jump and edit, for which it is false; `SceneHistories.PointerUpFrameRecordsOrKeeps` says what those do.
- SceneHistories.RunMovesCursor: the same frames.
- Sampling.LinearSameSize: for the exact position, as above.
- PasteTransformed.PasteContractTransformed: exact where the generic path uses f32, as above.
- Captures.StreamingMeansDelivered: reads a worker's slots at one moment; `Captures.SilenceIsOfAHeardSession` takes the source's locks one at a time.
- The nine-step bound of the drop and the ten-step bound of a stop count steps of one thread; how long a sink or a camera takes is not modelled.
- Copy-on-write sharing of frame buffers, the parallel row loops, mutex poisoning, tracing and copy accounting: invisible to the values modelled.
- The preview pool, result images and progress reports of the render worker: opaque tokens.
- The media clock's own use of the pacer: a wait is a step that may or may not time out; the pacer's runs are proved in their own module.
- Scene changes from outside a frame (device lists, saved preferences), which the history never sees.
- A transport or directory operation that fails halfway inside one step; file operations are atomic steps with a success flag, except that a write may stop anywhere.
- The shared-memory ring, camera back ends, the virtual-camera extension, windows, localisation, command line and benchmarks: foreign calls and platform state.
- `StreamLifecycle`, `read_bounded`, scene files, source health, format negotiation: easier state machines and input and output.
