# Butaca: verified models

Dafny models of the parts of Butaca whose correctness rests on an argument rather than on a
single function, with proofs of those arguments. `dafny verify dfyconfig.toml` checks everything.

## What is modelled

**The incremental subtitle renderer** (`src/ass.c`, `src/ass_composite.h`; modules `Ass*`).
`ButacaAss` keeps the bytes of the previous frame's regions and composes again only what changed.
Its invariant is that a valid cache shows the from-scratch picture of the frame libass delivered
last; `Render` keeps it over every call, and `RunSession` states it for whole sessions with
resizes, failures and empty frames, where a call fails only for bad arguments, an unusable list
or a failed allocation. Underneath are the region merge (`AssRegions`; when its cap fires in
`AssCap`, the area bound in `AssArea`), the reference picture and the keys (`AssFrame`), the
shuffle inside the byte arena (`AssArena`), the reuse rule (`AssReuse`), the drawing loops
(`AssCompose`, `AssRenderer`) and the packed pixel arithmetic (`AssComposite`). libass is an
input: a list of images per frame and the coverage bytes in memory. The one assumption on it,
`Stable` together with `Follows`, is the comment at src/ass.c:240-245: an address in the buffers
of two consecutive frames holds the same coverage byte, and an unset changed flag means the same
image list. `AssPicture` says in numbers what the reference picture is. `AssBorder` pins the
boxes: each visible box with one pixel around it where the canvas has room, so the sides of the
returned bitmaps inside the canvas are transparent, and none lies further out than some image
needs. `AssReusable` says from the two image lists which regions survive, and `Render` composes
exactly the others: when everything moves together inside the canvas, nothing is composed anew.

**The Starfish callback gate** (`src/starfish.c`; modules `Starfish*`). A state machine whose
steps are single lock regions, atomic accesses and the beginnings and ends of foreign calls;
locks, unlocks, waits and broadcasts fail at will. The guards spell out what callers owe: one
`sf_load` at a time, verbs and teardown on one thread, no epoch used twice, fresh addresses from
the allocator, and no callback on one of our objects before its constructor was called. Safety is
proved for every reachable state. One thing the gate by itself does *not* give is that no
destructor runs beside a Load call of the same object. `StarfishOverlap` says exactly when it
can: from an `sf_destroy` entered while the current object is in its Load call, ready, retired
with evidence, and not blocked, whether the unload event came before or comes after.
`UnjoinedOverlaps` is such a run. It is a run of the C interface with the callers it allows, not
of the program: the Rust caller joins the load thread before it destroys, or parks the object
until that thread has returned (rust-modules/src/player/engine.rs:335-350, 1755-1768, 1797-1819),
and for such callers `JoinedNeverOverlaps` excludes it. `StarfishLives` is the other half:
undisturbed calls do what they are for. A load ends with its object open to the verbs, a verb
reaches its object exactly when there is one that is ready and loaded, a proven destroy ends
without an object, whole sessions can follow one another without end, and every failing step
leaves the lifecycle blocked or its thread about to block it.

**The crash-map scanner** (`src/crashtrace.c`, `src/crashfmt.h`; modules `Crash*`). `CrashLine`
classifies one line, `CrashScan` is the chunked reader, `CrashCut` what its bounded line buffer
costs. A scan is a fold over the delivered bytes, whatever the chunk boundaries and
interruptions, and `ScannedLines` proves that it reports what splitting the whole file into lines
would report, whatever the line buffer held before, as long as the parser stops inside the first
512 bytes of every line. `butaca_parse_hex` has no length bound, so some lines do not stop it,
and `StopsInside` says which, from the line alone: `RangeStable` proves that exactly the lines
that satisfy it have the same range whatever lies behind them, and `KindStableExactly` that
exactly these, and ranges starting at the highest address, keep their verdict. `StaleScan` scans
the two-line file "1-2f ", "1-2" and shows that its tail is reported for an address outside its
range. Lines longer than the buffer are cut, and `CutExactly` says which of them are still
classified as they stand in the file. `CrashPrinted` states the scan for files as the kernel
prints them, from the printed addresses alone, the link register included, and `CrashSignal`
reads the record of a fault back.

**The ABR arithmetic** (`tools/abr-window-grade.py`, `tools/abr-transfer-bound.py`; modules
`Abr*`). The runway is exactly the smallest reserve that survives every order of an episode; the
replay's interval arithmetic is sound for a controller that follows the rules and exact for each
field of a row; `AbrJoint` and `AbrTotals` say exactly when all fields of a row are possible
together; the transfer bound is the attained worst case of every observation of at least one
byte, and bounds an observation of no bytes exactly for a query of no bytes; it carries the rank
guarantee, and the bisection finds the largest admissible ratio exactly when 1.0 is admissible
and nothing above 40 is. Times are integers or exact reals. `AbrRows` tells the replay from the
rows alone: which rows can be attributed, what every counter counts, and exactly which rows add a
disagreement.

**Test-only Rust files** (`ci/rust_test_modules.py`; `RustTestModules`, `CfgPredicate`,
`TokenGroups`). The worklist returns exactly the files that every walk from a root reaches over a
test-only edge; the abstract reader of `cfg` predicates is sound, and exact when no option is
mentioned twice; the bracket matcher finds exactly the groups of the grammar.

**The ar container** (`ci/mkipk.py`, `ci/gen-release-audit.py`, `ci/check-packaged-elf.py`;
modules `Ar*`). One writer and two readers, a lenient and a strict one. `ArText` holds what
Python makes of a header field: numbers with signs and underscores, stripping, strict UTF-8. The
writer pads names as text and then encodes them, so payloads and sizes read back exactly when
every name is ASCII of at most 16 characters and every size has at most ten digits, and the names
too exactly when besides none ends in white space. Sizes may be negative, so the loop of the
lenient reader can go back; `ArEnds` says exactly when it returns, and `Stuck` is an archive on
which it does not. `ArAgree` compares the readers on any bytes.

`Numbers`, `Slices` and `Wrappers` hold numerals, facts about parts of sequences and the option
type that several modules use.

## Where the code and its documentation differ

The models follow the code.

- src/crashtrace.c:165-166 says an over-long line keeps its range and its path's tail. The code
  keeps the first 512 bytes: the range is kept, the tail dropped. `LostBin` scans a line whose name
  is lost, and `FalseBin` one that is cut inside the name of `butaca.new` and reported as the
  binary, against src/crashfmt.h:106-112. `CutExactly` says when a cut line names the binary as the
  whole line does: when it has no range, the name ends before the cut, or the kept text ends in the
  letters of the name exactly when the name does come later.
- src/crashfmt.h:104 lists end of line, a space or the end of the buffer after the token; the code
  also accepts a NUL byte.
- src/crashfmt.h:136 takes the length of the line, but the parser it calls for the range (80-94)
  takes none: `StopsInside` is the exact set of lines it reads without looking further.
- tools/abr-transfer-bound.py:17-32 gives the bound for every observation. An observation of 0
  bytes, which the log format admits, is returned as it is (114-115), and costs that explain it
  exceed that for any query of more than 0 bytes: `TransferBoundsExactly`, with the input in
  `NoBytesNoBound`.
- tools/abr-transfer-bound.py:173 promises the largest admissible ratio. The code searches only 1
  to 40 and returns 1.0 even when 1.0 is not admissible: `AdmissibleRatio` says exactly when the
  promise is kept, `NothingAdmissible` and `MoreAdmissible` are the two ways it is not.
- tools/abr-window-grade.py:13-15 says the intervals are propagated exactly and without tolerance.
  That is so field by field. The first row of a log can pass although no acquisition produces its
  line (`MixedPasses`). `JointExactly` says when a line is possible as a whole: when three totals
  inside given bounds give every field. `OneAcquisitionExactly` is the case of one acquisition;
  `JointWhenOneOpen` is a quick sufficient test, which `TwoOpenJoint` shows is not necessary.
- ci/mkipk.py:292 counts the characters of a name, and line 296 encodes after padding. The name "é"
  passes and gets a header of 61 bytes (`AccentShifts`), which neither reader understands.
- ci/gen-release-audit.py:95 promises the members in file order. With a size of -60 or below the
  loop takes a header again or an earlier one; it returns exactly when it takes none twice
  (`EndsExactly`), and on `Stuck` never (`StuckForever`).
- ci/gen-release-audit.py:99 and ci/check-packaged-elf.py:22 read names differently. A name that the
  strict reader takes for data.tar.gz is that name to the lenient one exactly when it is ASCII
  (`ReadersAgree`); `SpacedName` is an archive where it is not.
- src/starfish.c:509-512 says every other verb refuses to dispatch while the Load call is in
  flight. `sf_destroy` (598-622) does not look at that flag: `OverlapExactly`.

## Model

| member | source | states |
|---|---|---|
| AssComposite.Div255Exact | src/ass_composite.h:7-13 | for every numerator up to 65025, adding 128 and folding the high byte back in divides by 255 with rounding, within 16 bits |
| AssComposite.Div255PairLanes | src/ass_composite.h:10-13 | both 16-bit lanes of a word are divided exactly and neither disturbs the other |
| AssComposite.MaskLanes | src/ass_composite.h:40-43 | the lane mask keeps bytes 0 and 2 of any word and clears the others |
| AssComposite.JoinLanes | src/ass_composite.h:44 | or-ing the two divided lane pairs places every byte in its own lane |
| AssComposite.BlendPixelExact | src/ass_composite.h:37-45 | the packed blend equals (s*a + d*(255-a) + 127)/255 on all four channels, for every pair of words and every coverage, with no carry between lanes and no 32-bit overflow |
| AssComposite.OverPremultiplied | src/ass.c:394-396 | layering an opaque colour keeps every colour channel at most alpha |
| AssComposite.StraightChannelExact | src/ass_composite.h:47-57 | multiplication by the reciprocal and one correction give (255p + alpha/2)/alpha cut at 255, without 32-bit overflow |
| AssComposite.StraightChannelUnclamped | src/ass_composite.h:50-57 | for a premultiplied channel the clamp never fires |
| AssComposite.StraightOpaque | src/ass.c:431-434 | skipping opaque pixels is right: they are their own straight form |
| AssRegions.AddBounds | src/ass.c:212-231 | the in-place loop with its restarts and its cap computes the merge function and terminates |
| AssRegions.AddKeeps | src/ass.c:209-231 | one call keeps regions pairwise apart and at most 64, covers the new box, loses no old region |
| AssRegions.AddAllSound | src/ass.c:209-231 | after any sequence of calls the regions are apart, at most 64, and cover every added box |
| AssRegions.AddAllLeast | src/ass.c:214-224 | unless the cap fired, every region lies inside one member of any other pairwise-apart family covering the boxes |
| AssCap.MergeLeast | src/ass.c:214-224 | without the cap the merge is a least separated cover: pairwise apart, covering, and each region inside a member of every other such cover |
| AssCap.LeastSize | src/ass.c:214-224 | two least separated covers of the same boxes have the same number of regions |
| AssCap.CapExactly | src/ass.c:225-229 | the cap fires if and only if the least separated cover of some prefix of the boxes has more than 64 members |
| AssCap.AddAllLeastCover | src/ass.c:209-231 | when no prefix has one so large, the regions are the least separated cover of the boxes |
| AssRegions.AddAllOnCanvas | src/ass.c:364-367 | regions of boxes on the canvas are non-empty and on the canvas |
| AssBorder.TouchesMeans | src/ass.c:216-217 | two non-empty boxes touch if and only if some pixel of one is at most one row and one column from some pixel of the other |
| AssArea.BoxSize | src/ass.c:381 | a box holds width times height pixels |
| AssArea.TotalAreaBounded | src/ass.c:378-384 | regions apart on a canvas never need more pixels than the canvas |
| AssFrame.ClippedMeans | src/ass.c:182-195 | the clipped box is exactly what image and canvas share, and an image with none is hidden |
| AssBorder.BoxesAround | src/ass.c:363-367 | the boxes to merge are, one for one, the pixels of the canvas at most one row and one column from a visible box |
| AssBorder.RegionsTight | src/ass.c:209-231 | every side of a region is one pixel outside some image that is visible in it with its surroundings, or on the side of the canvas |
| AssBorder.SideTransparent | src/ass.c:363 | a pixel on a side of a region that is not a side of the canvas is transparent in the picture |
| AssFrame.PaintPremultiplied | src/ass.c:394-424 | through the whole fold over the image list no colour exceeds alpha |
| AssPicture.LayerMeans | src/ass.c:394-424 | an image changes exactly the pixels it covers on the canvas, mixing each channel with a byte of its colour by coverage times opacity, with rounding |
| AssPicture.PaintMeans | src/ass.c:394-396 | images are layered in list order on a transparent canvas |
| AssPicture.TopmostHides | src/ass.c:394-396 | an image at full strength hides everything under it and shows its own colour |
| AssPicture.PictureMeans | src/ass.c:425-439 | the picture is the layered pixel divided by its alpha with rounding |
| AssFrame.RegionsSound | src/ass.c:354-368 | the regions of any image list are apart, at most 64 and on the canvas |
| AssFrame.VisiblePlaced | src/ass.c:266-277 | every visible image lies in a region, so the refusal for an unplaced image has no input |
| AssFrame.LayerIsKeyLayer | src/ass.c:267-276 | inside a region an image acts on a pixel as its key does, and only if the key names that region |
| AssFrame.RegionAlone | src/ass.c:209-211 | composing a region from its own images gives the pixel that composing the whole list gives |
| AssFrame.OutsideTransparent | src/ass.c:209-211 | outside all regions the whole frame leaves the canvas transparent |
| AssFrame.RegionReused | src/ass.c:240-288 | if the keys of two consecutive frames agree on a region, its pixels agree, wherever the region moved |
| AssReusable.SameListUnchanged | src/ass.c:240-245 | the same image list leaves every region unchanged |
| AssReusable.OneImageChanged | src/ass.c:244-245 | with the regions in place, a changed image leaves every region without it unchanged |
| AssReusable.MovedUnchanged | src/ass.c:244-245 | when all images move by the same distance inside the canvas, every region is unchanged, wherever it moved |
| AssArena.MoveSafe | src/ass.c:290-292 | in the left-then-right schedule no move overwrites another retained region, moved or waiting |
| AssArena.MoveRetained | src/ass.c:304-309 | the two passes leave the old bytes of every retained region at its new offset |
| AssArena.ClearOthers | src/ass.c:310-319 | every other region is zeroed and no retained one is touched |
| AssArena.PlaceRegions | src/ass.c:293-321 | both together, for any mix of moves, inside the arena, with the new records laid end to end |
| AssArena.LaidEndToEnd | src/ass.c:293-303 | the records are the boxes, four bytes a pixel, one behind the other from the start of the arena |
| AssCompose.StoreRgba | src/ass_composite.h:26-32 | four bytes of the pixel are the word, nothing else changes |
| AssCompose.LoadRgba | src/ass_composite.h:16-24 | the word packs the four bytes in RGBA order |
| AssCompose.ColorWordExact | src/ass.c:404-406 | the shifts and masks give the opaque pixel of the libass colour |
| AssCompose.CoverageTable | src/ass.c:407-409 | entry i is i scaled by the opacity with rounding |
| AssCompose.DrawPixel | src/ass.c:414-421 | skip, overwrite and blend all equal layering the colour at that coverage |
| AssCompose.DrawImage | src/ass.c:410-423 | the row and column loops layer the image over exactly the pixels of its visible box, and touch nothing outside the region |
| AssReuse.FindRegion | src/ass.c:267-276 | the search finds the first region around a box |
| AssReuse.RetainedRegions | src/ass.c:262-287 | the keys are rewritten in place; a region is kept if and only if it was a candidate and no key entered, left or changed in it; refusal exactly for an unplaced visible image |
| AssReuse.TotalBytes | src/ass.c:378-384 | the running check refuses exactly when the total area exceeds the pixel limit |
| AssReuse.StraightenPixel | src/ass.c:429-437 | a pixel becomes its straight form, the skipped ones included |
| AssReuse.StraightenRegion | src/ass.c:425-439 | a painted region becomes the from-scratch picture, other bytes unchanged |
| AssRenderer.GroupImages | src/ass.c:354-368 | refuses exactly more than 16384 images or one that has pixels but no buffer, too short rows or a side over 32768; otherwise returns the regions of the list |
| AssRenderer.ArgumentsMean | src/ass.c:327-331 | the accepted arguments: a track, a size of at most 4096 by 2160 and 3840*2160 pixels, a storage size of at most 65536 each way |
| AssRenderer.UsableMeans | src/ass.c:185-187 | the refusals of the image list in terms of the fields of its images |
| AssRenderer.ImageDrawn | src/ass.c:397-424 | drawing one image into its region advances every unfinished region by one image of the list |
| AssRenderer.ComposeImages | src/ass.c:394-424 | after the loop every region not retained is the painting of the whole list, retained ones are untouched |
| AssRenderer.StraightenRegions | src/ass.c:425-439 | after the loop every region shows the picture |
| AssContext.CarriedShown | src/ass.c:240-288 | a retained region, carried to its new offset, shows the picture of the new frame |
| AssContext.RegionsFit | src/ass.c:327-331 | with accepted arguments the size refusal at line 382 has no input |
| AssContext.PlacedState | src/ass.c:393 | after placing, retained regions are finished and the others hold the painting of no images |
| AssContext.ShownFromScratch | src/ass.c:440-443 | if every region shows its picture, the returned bitmaps are the from-scratch rendering: disjoint, right at every pixel, transparent elsewhere |
| AssContext.UnchangedFromScratch | src/ass.c:347-352 | the same image list over stable buffers is the same picture, so returning 0 is right |
| AssContext.ButacaAss.Begin | src/ass.c:332-348 | a resize or an earlier failure makes the cache unusable, and the cache is invalid until the call succeeds |
| AssContext.ButacaAss.UpdateKeys | src/ass.c:246-288 | keys grown and rewritten; a region is retained if and only if the cache is reusable and, by the two image lists, the region kept its size and no image in it changed |
| AssContext.ButacaAss.Redraw | src/ass.c:378-439 | fails only when the arena cannot grow; otherwise every region shows the picture, and those composed anew are those not retained |
| AssContext.ButacaAss.DrawRegions | src/ass.c:393-439 | placing, composing and straightening leave every region showing the picture |
| AssContext.ButacaAss.Recompose | src/ass.c:375-439 | keys, placing and drawing together; fails exactly when memory does |
| AssContext.ButacaAss.Refresh | src/ass.c:353-443 | fails exactly for an unusable list or memory; otherwise the cache is current, the empty frame included |
| AssContext.ButacaAss.Render | src/ass.c:323-444 | the status in every case, 0 if and only if nothing changed after a successful call of the same size; whenever it is not -1 every pixel of every bitmap is the from-scratch picture, with a transparent and tight border; exactly the changed regions are composed anew; the frame structure of the caller is left alone for bad arguments, on 0 and for an unusable list, and emptied when memory fails |
| AssContext.RunSession | src/ass.c:323-444 | for any session that respects the libass assumption, every successful call shows its frame, an unchanged one leaves everything in place, and a call fails only for bad arguments, an unusable list or a failed allocation |
| StarfishGate.SlotOf | src/starfish.c:344-351 | the lookup finds a slot with that address, and none only if no registered slot has it |
| StarfishSafety.StepKeeps | src/starfish.c:353-622 | every step of every thread, failing locks included, keeps the invariant |
| StarfishSafety.RunKeeps | src/starfish.c:353-622 | every run from the initial state keeps the invariant |
| StarfishSafety.NoCallInsideDestroyed | src/starfish.c:234-249 | no forwarded hook call is inside an object when or after its destructor runs, none is inside an unconstructed one, and none bypasses the gate of one of our objects |
| StarfishSafety.NeverUnderflows | src/starfish.c:393-397 | whoever leaves the hook finds the in-flight counter at least one; the branch for zero is dead |
| StarfishSafety.DtorOnlyWhenProven | src/starfish.c:605-616 | the destructor starts only on the current slot, after its gate retired with nobody inside, at least one callback intercepted, and an unload event with the epoch of that slot and no other |
| StarfishSafety.VerbsOnlyAfterLoad | src/starfish.c:409-429 | a verb is dispatched only to an object whose own Load call has returned and whose destructor has not started |
| StarfishSafety.RegistryGrows | src/starfish.c:246-249 | in every run the registry only grows and slots keep address and epoch |
| StarfishSafety.BlockedForGood | src/starfish.c:447-457 | once the lifecycle is blocked it stays blocked, no new load passes its entry check, and no later destroy check succeeds |
| StarfishLives.LoadSucceeds | src/starfish.c:446-515 | a load from a state without object or block, nothing failing, ends with its object current, ready, loaded and open |
| StarfishLives.LoadRefused | src/starfish.c:446-456 | a load without payload or epoch, while blocked, or beside another object, changes neither the registry nor a flag |
| StarfishLives.VerbExactly | src/starfish.c:426-429 | undisturbed, a verb reaches the current object if and only if there is one, ready and with its load returned |
| StarfishLives.LoadThenVerb | src/starfish.c:513-515 | the first verb after a Load call has returned is dispatched to its object |
| StarfishLives.RetireSucceeds | src/starfish.c:546-563 | with nobody inside, a retirement closes the gate and marks it retired |
| StarfishLives.WakeExactly | src/starfish.c:553-563 | a waiting retirement ends at a wake-up if and only if nobody is inside any more |
| StarfishLives.DestroySucceeds | src/starfish.c:598-622 | with every proof in hand the destructor runs and no object is left |
| StarfishLives.DestroyRefused | src/starfish.c:598-613 | without one of the proofs, or with a failing lock, a destroy becomes a quarantine and no destructor runs |
| StarfishLives.CallPasses | src/starfish.c:354-399 | through an open gate a callback reaches the real hook, is counted once armed, and leaves the counter as it was |
| StarfishLives.CallDropped | src/starfish.c:379-383 | at a closed gate it is dropped and nothing else changes |
| StarfishLives.ForwardedResolved | src/starfish.c:354-367 | in every reachable state, whoever is in the real hook, forwarded for our object or a foreign one, found it resolved |
| StarfishLives.EventExactly | src/starfish.c:433-439 | an unload event is noted on the current slot if and only if it carries the epoch of that slot |
| StarfishLives.SessionRuns | src/starfish.c:446-622 | from any quiet reachable state a whole session is possible: load, callback, unload event, retirement and destruction, ending quiet |
| StarfishLives.SessionsWithoutEnd | src/starfish.c:246-249 | for every n there is a run of n sessions, each with its own slot |
| StarfishLives.FailureBlocks | src/starfish.c:353-622 | every failing lock, wait, broadcast, hook resolution or allocation blocks the lifecycle, leaves its thread about to, or starts a quarantine |
| StarfishLives.RetireFails | src/starfish.c:546-551 | a retirement without a current slot, or whose gate cannot be locked, blocks the lifecycle and returns |
| StarfishLives.QuarantineFails | src/starfish.c:584-588 | a quarantine whose gate cannot be locked still ends blocked, not ready and not returned |
| StarfishLives.LoadFails | src/starfish.c:459-505 | a load that fails after publication ends blocked, not ready and not returned, before it blocked |
| StarfishLives.QuarantineBlocked | src/starfish.c:584-590 | whatever happens meanwhile, a quarantine ends with the lifecycle blocked and no load returned |
| StarfishOverlap.OverlapExactly | src/starfish.c:598-622 | from the entry of `sf_destroy`, with no further call on the main thread, some interleaving runs the destructor beside a Load call if and only if the current object is in its Load call, ready, retired with at least one interception, and not blocked; the unload event may still be missing |
| StarfishOverlap.SafeEntriesNeverOverlap | src/starfish.c:598-622 | a run whose destroys are all entered outside that condition never runs a destructor beside a Load call |
| StarfishOverlap.JoinedNeverOverlaps | src/starfish.c:598-622 | if every destroy is entered after the load in flight returned, as rust-modules/src/player/engine.rs does, no destroy runs while a Load call of any object does |
| StarfishOverlap.UnjoinedOverlaps | src/starfish.c:509-515 | without that, a run of the C interface reaches a destructor inside an object whose Load call is still running |
| CrashFormat.Sbuf.Ch | src/crashfmt.h:50-52 | the buffer holds the text so far cut at its capacity |
| CrashFormat.Sbuf.Digits | src/crashfmt.h:58-63 | the digits come out most significant first, zero as one digit |
| CrashFormat.Sbuf.HexNumber | src/crashfmt.h:65-75 | lowercase hex with prefix and no padding, cut at the capacity |
| CrashFormat.FillDigits | src/crashfmt.h:59-61 | the scratch buffer of 24 characters is never overrun and holds the numeral backwards |
| CrashFormat.FmtSignal | src/crashfmt.h:156-171 | the written bytes are the record line cut at the capacity, for any capacity |
| CrashSignal.SignalReads | src/crashfmt.h:156-171 | behind every equals sign of the record stands one of the three addresses, and the tag before it says which |
| CrashSignal.SignalHas | src/crashfmt.h:156-171 | all three are there |
| CrashLine.HexRoundTrip | src/crashfmt.h:65-94 | parsing the hex digits of any value gives the value back |
| CrashLine.RangeRoundTrip | src/crashfmt.h:136-140 | a line starting with a formatted address pair is read as that pair |
| CrashLine.ParseHex | src/crashfmt.h:80-94 | position and wrapped value of the run, null exactly for an empty one |
| CrashLine.DigitsMean | src/crashfmt.h:84-87 | the digits are those of either case, with their values, and no other character is one |
| CrashLine.NamesOurBinary | src/crashfmt.h:119-131 | yes if and only if the token ends at a newline, space, NUL or the end |
| CrashLine.NamesExactly | src/crashfmt.h:104-116 | a line names the binary if and only if it is some text, the name, and then nothing or a text that starts with a newline, a space or a NUL |
| CrashLine.ParseRange | src/crashfmt.h:137-140 | for any buffer in which the parser stops, the range at its start, wherever the line is supposed to end |
| CrashLine.MapLineKind | src/crashfmt.h:136-147 | for any buffer in which the parser stops: at exactly when the half-open range read from the buffer holds pc or lr, bin exactly when there is a range and the first n bytes name the binary; for a printed pair of addresses, at if and only if lo <= pc < hi or lo <= lr < hi |
| CrashLine.RangeStable | src/crashfmt.h:80-94 | a line has the same range whatever text lies behind it if and only if both its hex runs, as far as they are followed, end inside it |
| CrashLine.KindStableExactly | src/crashfmt.h:136-147 | the verdict on a line is independent of the text behind it if and only if the parser stops inside, or its range starts at the highest address |
| CrashLine.StaleTail | src/crashfmt.h:136-147 | with the tail "1-2" over the older text "1-2f ", the classifier reports the line for an address that the range of the line does not hold |
| CrashScan.LinesAppend | src/crashtrace.c:155-175 | splitting a text whose first part ends in a newline splits the parts |
| CrashScan.WholeFile | src/crashtrace.c:163-173 | the records emitted on the way and for the tail are those of splitting the whole file |
| CrashScan.ScannedLines | src/crashtrace.c:155-175 | for a file whose lines, cut to 512 bytes, stop the parser, the parser stays in the buffer and the records are those of splitting the file into lines, whatever the buffer held before |
| CrashScan.FedAppend | src/crashtrace.c:157-172 | scanning two texts one after the other is scanning them as one: chunk boundaries do not matter |
| CrashScan.WriteOut | src/crashtrace.c:101-109 | the file gets exactly the bytes the writes took, in order; writing stops early only for an error, a zero write or no further call |
| CrashScan.Tracer.Emit | src/crashtrace.c:111-139 | one record of tag and line, never cut by the record buffer |
| CrashScan.Tracer.EmitMapLine | src/crashtrace.c:126-140 | for any buffer in which the parser stops, exactly the records of the buffer as the classifier reads it, at before bin; for a line that stops the parser, the records of the line itself |
| CrashScan.Tracer.Feed | src/crashtrace.c:163-171 | one byte is held if it fits, and a newline reports what is held and starts the next line; buffer, count and records are those of the fold |
| CrashScan.Tracer.FeedChunk | src/crashtrace.c:160-172 | one chunk, wherever it starts and ends, advances the fold by its bytes |
| CrashScan.Tracer.ScanMapsFile | src/crashtrace.c:155-175 | for every file on which the parser stays in the buffer, the records and the buffer left behind depend on the delivered bytes and the old buffer alone; if the lines stop the parser, the records are those of every line in order, an unterminated tail included |
| CrashPrinted.PrintedScan | src/crashtrace.c:155-175 | a file of printed mappings gives, mapping by mapping, an at record if and only if it holds the program counter or the link register, then a bin record if and only if it is named so |
| CrashPrinted.ScanMappings | src/crashtrace.c:155-175 | a fresh tracer emits exactly those records, however the reads cut the file up |
| CrashCut.CutExactly | src/crashtrace.c:165-167 | for a line that stops the parser within 512 bytes, the cut line holds the same addresses, and names the binary as the line does if and only if it has no range, the token and its separator lie before the cut, or the kept text ends in the token exactly when the token comes later |
| CrashCut.CutFileExactly | src/crashtrace.c:155-175 | every line of a file is classified as it stands there if and only if every line meets that condition |
| CrashCut.FalseBin | src/crashfmt.h:104-116 | scanning one line that is cut inside the name of butaca.new reports it as the binary, which the line does not name |
| CrashCut.LostBin | src/crashtrace.c:165-167 | scanning one line that names the binary beyond byte 512 reports nothing |
| CrashCut.StaleScan | src/crashtrace.c:155-175 | scanning the lines "1-2f " and "1-2" reports the second for an address its range does not hold, because the first left its end behind it in the buffer |
| AbrWindow.RunwayEnough | tools/abr-window-grade.py:8-11 | with the runway in reserve no acquisition of the list starts longer than what is left |
| AbrWindow.TermsPermute | tools/abr-window-grade.py:169-182 | excess and terminal do not depend on the order |
| AbrWindow.WorstOrder | tools/abr-window-grade.py:8-11 | some order needs the whole runway |
| AbrWindow.RunwayExact | tools/abr-window-grade.py:8-11 | a reserve covers the runway if and only if every permutation of the episode survives with it |
| AbrReplay.SampleExact | tools/abr-window-grade.py:161-166 | the interval of a logged ratio is exactly the set of times that log as that ratio, saturation included |
| AbrReplay.TermsEnclose | tools/abr-window-grade.py:169-182 | every term of acquisitions inside the intervals lies between the two ends |
| AbrReplay.Grade | tools/abr-window-grade.py:185-358 | the loop over rows gives the counters of the replay; no rows give no result |
| AbrReplay.WindowAgrees | tools/abr-window-grade.py:277-354 | a true window line adds no disagreement |
| AbrReplay.FaithfulLogAgrees | tools/abr-window-grade.py:185-354 | for every run of a controller that follows the rules, the replayed episode contains the controller's and there is no disagreement |
| AbrReplay.FaithfulLogGraded | tools/abr-window-grade.py:311-318 | in such a log only saturated rows go ungraded |
| AbrReplay.EveryRowAccounted | tools/abr-window-grade.py:273-322 | every segment row is counted once: checked, filling or ungraded |
| AbrRows.ReplayExactly | tools/abr-window-grade.py:185-296 | after any log, whether the episode is known, which acquisitions it has, the reserve and the expected resets are what the rows say |
| AbrRows.CountersExactly | tools/abr-window-grade.py:185-358 | candidates counts the commits, epochs the seeds, resets the commits that a segment with the expected count confirmed, ungraded the segments not attributable or saturated |
| AbrRows.SegmentExactly | tools/abr-window-grade.py:228-354 | a segment row adds a disagreement if and only if its resets, its length, a constant, its completion bit or a field of its window line is wrong |
| AbrRows.ErrorExactly | tools/abr-window-grade.py:202-209 | an error row is one disagreement and makes the episode unknown |
| AbrExact.RaisedStep | tools/abr-window-grade.py:169-182 | one microsecond more in one acquisition moves demand by one and excess and runway by at most one |
| AbrExact.TermExact | tools/abr-window-grade.py:322-332 | a logged term passes if and only if some acquisitions inside the intervals log as that term |
| AbrExact.CompareExact | tools/abr-window-grade.py:334-354 | the always and never tests are exact: each verdict is open if and only if some acquisitions inside the intervals give it |
| AbrExact.RowExact | tools/abr-window-grade.py:277-354 | a graded row adds no disagreement if and only if it is coherent and each field could have come from acquisitions inside the intervals |
| AbrRows.AmbiguousExactly | tools/abr-window-grade.py:341-354 | a verdict is counted as ambiguous if and only if acquisitions inside the intervals give both answers |
| AbrJoint.JointWhenOneOpen | tools/abr-window-grade.py:277-354 | if the intervals leave at most one of the five fields open, every field is possible by itself if and only if one set of acquisitions gives all of them |
| AbrJoint.TwoOpenJoint | tools/abr-window-grade.py:277-354 | one open field is not necessary: a row with two open fields, replayed from the start, that one acquisition gives as a whole |
| AbrJoint.OneAcquisitionExactly | tools/abr-window-grade.py:169-182 | with a single acquisition a line is possible as a whole if and only if its runway is its demand, its excess what the demand has over the length, and interval, bounds and logged millisecond leave a common time |
| AbrJoint.SampleOneSided | tools/abr-window-grade.py:161-166 | within the interval of a sample an acquisition is always shorter than its segment or never |
| AbrJoint.CommitOneSided | tools/abr-window-grade.py:111-120 | so it is within the interval of a committed transaction |
| AbrJoint.MixedPasses | tools/abr-window-grade.py:185-354 | a log of one row that is checked with no disagreement although no acquisition inside its interval gives its line |
| AbrTotals.SampleReal | tools/abr-window-grade.py:161-166 | a finite sample has an interval that is not empty and never straddles the length, but for a time of less than a microsecond |
| AbrTotals.TermsOfTotals | tools/abr-window-grade.py:169-182 | on such intervals demand and excess are determined by the time of the acquisitions longer than their segments and the time of the others |
| AbrTotals.TotalsAttained | tools/abr-window-grade.py:169-182 | every choice of these two times and of the terminal within their bounds is attained by acquisitions inside the intervals |
| AbrTotals.JointExactly | tools/abr-window-grade.py:277-354 | for episodes of any length, one set of acquisitions gives the whole line if and only if three totals within their bounds give every field |
| AbrTransfer.TransferSound | tools/abr-transfer-bound.py:17-32 | for an observation of at least one byte, no split into fixed and per-byte cost that explains it predicts more than the transferred value |
| AbrTransfer.TransferAttained | tools/abr-transfer-bound.py:28-32 | some split predicts exactly the transferred value, for an observation of no bytes too |
| AbrTransfer.TransferBoundsExactly | tools/abr-transfer-bound.py:112-116 | the value returned bounds every split that explains the observation if and only if the observation has bytes or the query has none |
| AbrTransfer.NoBytesNoBound | tools/abr-transfer-bound.py:114-115 | one millisecond for no bytes: fixed cost 1 and 5 per byte explain it and exceed the value returned for one byte |
| AbrTransfer.KthReaches | tools/abr-transfer-bound.py:159-162 | the k-th largest of a list reaches x if and only if at least k members do |
| AbrTransfer.KthMonotone | tools/abr-transfer-bound.py:175-177 | raising values raises the k-th largest |
| AbrTransfer.AtMostKExceed | tools/abr-transfer-bound.py:50-62 | among any n+1 observations at most k exceed the k-th largest transferred value of the other n |
| AbrTransfer.ExceedsInWindow | tools/abr-transfer-bound.py:156-166 | a graded position exceeds exactly when it does as a member of its window of n+1 |
| AbrTransfer.ExceedsMeans | tools/abr-transfer-bound.py:156-166 | a position exceeds its bound if and only if fewer than k observations of its window, scaled up to its bytes, say at least as much |
| AbrTransfer.GradeOrder | tools/abr-transfer-bound.py:132-167 | counts every position after the window and, of these, the ones above their bound; the worst overshoot is the largest ratio of an exceeding position, infinite when a bound is zero, and 1 when nothing exceeds |
| AbrTransfer.WorstMeans | tools/abr-transfer-bound.py:155-167 | the worst overshoot is unlimited if and only if some exceeded bound is zero; else at least 1, at least every exceeding ratio, and 1 or one of them |
| AbrTransfer.TransferOnlyLowers | tools/abr-transfer-bound.py:147-152 | what exceeds the transferred bound exceeds the raw one |
| AbrTransfer.TransferExceedsLess | tools/abr-transfer-bound.py:147-152 | over a whole trace the transferred grade counts no more than the control |
| AbrTransfer.AdmissibleBound | tools/abr-transfer-bound.py:182-184 | fewer than k of the past observations, scaled up to the queried bytes, exceed the duration if and only if the k-th largest transferred value does not |
| AbrTransfer.AdmissibleDownward | tools/abr-transfer-bound.py:175-177 | a smaller ratio is admissible whenever a larger one is |
| AbrTransfer.AdmissibleRatio | tools/abr-transfer-bound.py:170-188 | with admissible meaning that fewer than k past observations, scaled up to the current bytes times the ratio, exceed the duration: the result is admissible if and only if 1.0 is, and is 1.0 if that is not; no admissible ratio up to 40 is larger by more than 39/2^40; up to that gap it is the largest admissible ratio if and only if 1.0 is admissible and nothing above 40 is |
| AbrTransfer.NothingAdmissible | tools/abr-transfer-bound.py:180-188 | an input on which not even 1.0 is admissible |
| AbrTransfer.MoreAdmissible | tools/abr-transfer-bound.py:180-188 | an input on which ratios above 40 are admissible |
| AbrTransfer.TwiceTheBytes | tools/abr-transfer-bound.py:170-188 | with twice the bytes of the only observation and twice its time as the duration, the result is 1.0 |
| RustTestModules.WhollyTestFiles | ci/rust_test_modules.py:143-158 | the worklist terminates with exactly the files reached from a root and only over walks that cross a test-only edge; no entry point, no file without an incoming edge and no target of a production edge of a root is returned, and a file is that all edges to it are test-only and come from roots |
| RustTestModules.RootsMeans | ci/rust_test_modules.py:146-149 | the roots are the entry points among the files and the files that no edge leads to |
| RustTestModules.TestExactly | ci/rust_test_modules.py:150-158 | file by file: a rooted file is wholly a test file if and only if it is no root and every edge to it is test-only, or comes from a wholly test file, or from a file that no root reaches |
| RustTestModules.RootNeverTest | ci/rust_test_modules.py:147-149 | a root, entry points included, is never returned |
| RustTestModules.UnrootedNeverTest | ci/rust_test_modules.py:157-158 | a file in a set that no root is in and no edge enters is never returned |
| CfgPredicate.ReadExpr | ci/rust_test_modules.py:69-88 | the recursive reader with its loop computes the reading function and terminates on any tokens |
| CfgPredicate.Reads | ci/rust_test_modules.py:71-87 | a written predicate is recovered wherever it stands: the values it can have and the position after it |
| CfgPredicate.ProductPointwise | ci/rust_test_modules.py:82 | the product holds exactly the choices of one value per child |
| CfgPredicate.WithoutTestsSound | ci/rust_test_modules.py:69-88 | in every build without test the value of a well-formed predicate is in the answer, so {False} proves the item absent |
| CfgPredicate.WithoutTestsExact | ci/rust_test_modules.py:69-88 | when no option but test is mentioned twice, a value is in the answer if and only if some build without test has it |
| CfgPredicate.RepeatedOptionUnknown | ci/rust_test_modules.py:69-88 | all(a, not(a)) is false in every build, yet True is in the answer |
| CfgPredicate.OthersUnknown | ci/rust_test_modules.py:71-87 | every other name with a list, a not without exactly one operand, a setting, another name and the end of the tokens are unknown |
| CfgPredicate.ExprPossible | ci/rust_test_modules.py:69-88 | on any tokens at all, some value is possible |
| TokenGroups.Close | ci/rust_test_modules.py:56-66 | returns e if and only if a balanced group starts at the opening token and ends at e |
| TokenGroups.ScanReads | ci/rust_test_modules.py:59-65 | a successful scan has read a balanced run up to the closer on top of its stack |
| TokenGroups.ErrorMeans | ci/rust_test_modules.py:64-66 | the unbalanced error is raised if and only if no further tokens could close the group |
| TokenGroups.BracketsMean | ci/rust_test_modules.py:57 | the three pairs of brackets |
| Numbers.DecFits | ci/mkipk.py:296 | a number takes at most k columns if and only if it is below 10^k |
| ArText.DecodeExactly | ci/check-packaged-elf.py:22 | decoding accepts exactly the byte strings that encode a text, each as that text |
| ArText.IntBound | ci/gen-release-audit.py:100 | a field of k columns holds no number of 10^k or more in either direction |
| ArText.NumberExactly | ci/gen-release-audit.py:100 | the numerals are digits with single underscores between them |
| ArText.IntMeans | ci/gen-release-audit.py:100 | a numeral denotes its number, with a plus in front too, and with a minus its negative |
| ArText.IntOnly | ci/gen-release-audit.py:100 | nothing but a numeral with at most one sign in front denotes a number |
| ArArchive.WriteMembers | ci/mkipk.py:289-300 | the loop writes magic, headers, bodies and padding in order for any header layout |
| ArArchive.WriteAr | ci/mkipk.py:287-300 | refuses exactly a list with a name over 16 characters; otherwise the archive with the header of this writer, padded as text and encoded as UTF-8 |
| ArArchive.ListMembers | ci/gen-release-audit.py:98-104 | whenever the loop ends, it computes the listing and where it stops, going back for negative sizes as Python slices do |
| ArArchive.ArMembers | ci/gen-release-audit.py:94-104 | refuses what is not an archive, otherwise, whenever the loop ends, the listing with the sizes and names of this reader |
| ArArchive.ListedStep | ci/gen-release-audit.py:98-103 | the listing unfolds header by header, one that never ends included |
| ArEnds.Progress | ci/gen-release-audit.py:103 | a round of the loop moves forward if and only if the size is above -60 |
| ArEnds.EndsExactly | ci/gen-release-audit.py:98-103 | the lenient reader returns if and only if it takes no header twice |
| ArEnds.ForwardEnds | ci/gen-release-audit.py:98-103 | it returns when every header it takes has a size above -60 |
| ArEnds.StuckForever | ci/gen-release-audit.py:98-103 | on an archive of one header with the size -60 it never returns |
| ArArchive.WalkMembers | ci/check-packaged-elf.py:18-31 | the loop with its five refusals computes the walk |
| ArArchive.FindData | ci/check-packaged-elf.py:14-31 | the bytes of the one data archive, or the reason there is none, a negative size being truncated and a name that does not decode an error |
| ArRoundTrip.FitsExactly | ci/mkipk.py:292-297 | a header has at least 60 bytes, and exactly 60 if and only if the name is ASCII of at most 16 characters and the size has at most ten digits |
| ArRoundTrip.HeaderLiteral | ci/mkipk.py:296-297 | a fitting header is the padded name, 1262304000 in 12 columns, 0 in six twice, 100644 in eight, the padded size and the two closing bytes |
| ArRoundTrip.HeaderShift | ci/mkipk.py:292-297 | a name that passes the length check makes the header longer than 60 by as many bytes as its encoding has more than it has characters |
| ArRoundTrip.AccentShifts | ci/mkipk.py:292-297 | the name "é" passes the length check and gets a header of 61 bytes |
| ArRoundTrip.LaidOut | ci/mkipk.py:292-300 | a reader that understands the header sees every written member, odd padding included, up to the end of the file |
| ArRoundTrip.LenientReadsBack | ci/gen-release-audit.py:94-104 | the listing is every written member with its bytes in order, ending exactly at end of file, if and only if every member fits its header; the names too come back if and only if besides no name ends in white space |
| ArRoundTrip.StrictReadsBack | ci/check-packaged-elf.py:14-31 | on a written archive whose members fit, the walk returns the payload of the one member it reads as data.tar.gz, or the missing or duplicate error |
| ArRoundTrip.StrictRefuses | ci/check-packaged-elf.py:18-21 | on any other archive the writer accepts, the walk ends at the first member that does not fit: malformed, or duplicate if two data archives came before it |
| ArRoundTrip.PlainKept | ci/check-packaged-elf.py:22 | the strict reader keeps a name if and only if it has no white space around it and no slash at its end |
| ArRoundTrip.StrictFindsData | ci/check-packaged-elf.py:25-31 | when the members fit and have plain names, the data archive is the member of exactly that name |
| ArAgree.ReadersAgree | ci/check-packaged-elf.py:14-31 | on any bytes, when the strict reader returns an archive, the lenient one lists the whole file; exactly one listed member has those bytes and, decoded, that name; and the lenient name is that name if and only if it is ASCII |
| ArAgree.SpacedName | ci/gen-release-audit.py:99 | an archive with a no-break space behind the name, which the strict reader returns and in which the lenient one lists no such name |

## Left out

- libass, FreeType, SDL, Starfish and ACB internals, dlopen and dlsym, the `acb_*` and `vp_*` verbs: foreign calls.
- Address arithmetic of `src/ass.c` is on integers: no wrap of `size_t` or of pointers; libass' reads outside its own buffers are not modelled.
- Whether realloc succeeds is a parameter of each call of the renderer.
- Feeding chunks, pruning and flushing events, fonts: calls into libass.
- StarfishLives.SessionRuns: progress is proved for undisturbed calls with locks that work. Nothing is said about fairness: a failed unlock or broadcast may leave a retirement waiting for ever. The values `sf_callback_gate_retire` and `sf_callback_intercepts` report, the dropped counter and the log lines are not modelled.
- StarfishGate.SlotOf: the lookup under the registry lock is one step, as is each region under a gate; the reads of flags that `sf_destroy` makes while it holds the gate belong to that step.
- The one-time resolution of the hook is a nondeterministic outcome at each call, which includes every outcome of `pthread_once`.
- Signal delivery, the register dump, the re-raise, opening and closing the maps file: operating system behaviour.
- CrashFormat.FmtSignal: the signal number is taken as the `unsigned long` it is cast to.
- CrashScan.Tracer.Emit: the two log files receive the same records, so they are one list; how a record reaches one file is `WriteOut`.
- AbrReplay.Grade: rows are taken as `paired` produces them; the text messages are not modelled. Resets for a collapsed delivery, which `grade` cannot attribute, are not part of the modelled controller.
- AbrTransfer.GradeOrder: k is at least 1 and at most the window.
- Floating point in tools/abr-transfer-bound.py: exact reals instead.
- Rust lexing and `file_edges`: the declared edges are taken as given.
- CfgPredicate.Reads: speaks of well-formed predicates; of other token lists only `OthersUnknown` and `ExprPossible` speak.
- ArArchive.ListMembers: says nothing of a run that never returns, beyond `EndsExactly`.
- What `check` does with the data archive it has found.
- `tools/fwcompat.py`, `tools/abr-plant-sweep.py`, `ci/version_rule.py`, `ci/nightly.py`, `ci/flavor.py`, `src/gpdebug.c`: they would add only easy members.
- Packaging, release text, site, profilers and the rest of the tools: input, output and reporting.
