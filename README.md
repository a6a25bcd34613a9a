# Columns and light trails

A model of the two algorithmic parts of a decorative 3D scene (`script.js`):

- **Column placement** scatters up to `numColumns` (100) boxes inside a disk of
  radius `spreadRadius` (55) by rejection sampling. Each attempt draws a height
  in [1, 16), a size in [1, 3) and a point in the disk shrunk by the column's
  half-width. The candidate is accepted only when its centre is at least
  `MIN_DISTANCE_BETWEEN_COLUMNS` (3) from every column already placed. A column
  gets at most `MAX_PLACEMENT_ATTEMPTS` (100) attempts and is otherwise skipped
  with a warning. Every vertex of a placed box is coloured by interpolating
  between a bottom and a top colour according to its normalised height.
- **Light trails**: every frame, each light source puts its new head position
  at the front of its history with age 0. The history is capped at
  `TRAIL_MAX_POINTS` (150) entries and every entry ages by the frame's
  `deltaTime`. The entries younger than `FADE_DURATION` (1.5 s) are written,
  newest first, into the trail's fixed position and colour buffers. Each entry's
  colour fades from the head colour to the tail colour. The number written
  becomes the line's draw range.

Files:

- `geometry.dfy` (module `Geometry`): points, colours and colour interpolation
  (`lerp`).
- `trail.dfy` (module `Trail`): the trail as values, plus the class
  `LightTrail`.
  - The values part is the functions `Step`, `Frames`, `CountFresh`, `Visible`
    and `VisibleColors`, with lemmas about them.
  - The class holds the history as `seq` fields and the output buffers as
    arrays. Its `Update` method is proved against `Step` and `Visible`.
- `columns.dfy` (module `Columns`): the placement loops as methods over a
  supplied stream of random draws, the overlap test, and the vertex colouring.

The random source is a sequence of `Draw` values, one per placement attempt.
Each draw carries the three uniform samples the code turns into a height, a
size and a radius, and the cosine and sine of the sampled angle. `WellFormed`
states what a uniform source and a true cosine/sine pair deliver. Head
positions of the light sources are parameters of the trail update.

The code ages a new entry in the same frame that records it, so an entry ends
its first frame with age `deltaTime`, not 0. With `deltaTime` 0.5 an entry is
therefore drawn in two frames (ages 0.5 and 1.0), not three (ages 0, 0.5 and
1.0). The model follows the code; `Trail.HalfSecondFrames` states the
two-frame behaviour.

## Model

| member | source | states |
|---|---|---|
| Geometry.LerpChannel | script.js:293 | one channel of `lerp`: `a` at t = 0, `b` at t = 1, between `a` and `b` for t in [0, 1] |
| Geometry.Lerp | script.js:170 | the interpolated colour is `from` at 0, `to` at 1 and channel-wise between them for t in [0, 1] |
| Trail.LifeRatio | script.js:292 | `max(0, 1 - age / FADE_DURATION)` is non-negative, at most 1 for non-negative ages, 1 for a new entry, and 0 exactly when the entry has faded |
| Trail.FadeFraction | script.js:293 | the `lerp` fraction lies in [0, 1] for non-negative ages, is 0 at age 0, and reaches 1 exactly when the entry has faded |
| Trail.TrailColor | script.js:292-293 | an entry's colour is the head colour at age 0, the tail colour once faded, and channel-wise between the two in between |
| Trail.Capped | script.js:283 | popping down to the cap leaves a prefix of length `min(len, cap)` |
| Trail.Aged | script.js:289 | the aging pass keeps the history length; `AgedAt` gives each entry's new age |
| Trail.AgedAt | script.js:289 | aging keeps the length and adds `deltaTime` to every age |
| Trail.Step | script.js:281-289 | one frame as a value: `unshift`, cap and aging keep the history well-formed and non-empty; `StepShape` states it entry by entry |
| Trail.StepShape | script.js:281-289 | one frame: length grows by one up to 150; the new head is at index 0 with age `deltaTime`; every kept older entry moves up one index with its position kept and its age plus `deltaTime` |
| Trail.StepKeepsAgesOrdered | script.js:281-289 | with non-negative `deltaTime`, ages stay ordered newest to oldest and every age is at least `deltaTime` |
| Trail.FramesShape | script.js:281-289 | after K frames from an empty trail: `min(K, 150)` entries, newest head first, entry j has age (j + 1) * `deltaTime` |
| Trail.FramesPoints | script.js:281-283 | the length and positions part of `FramesShape` |
| Trail.FramesAges | script.js:282-289 | the ages part of `FramesShape` |
| Trail.CountFresh | script.js:287-296 | the final `currentPointIndex` (draw range) never exceeds the history length; `VisibleCount` ties it to what is written |
| Trail.Visible | script.js:290-296 | the positions written are at most as many as the history holds; `VisibleAt` and `VisibleExtend` give their slots and contents |
| Trail.VisibleColors | script.js:292-295 | the colours written are at most as many as the history holds; `VisibleAt` gives each one as the colour of its entry's age |
| Trail.VisibleCount | script.js:287-298 | the draw range equals the number of unfaded entries and never exceeds the history length; positions and colours written agree in number |
| Trail.VisibleExtend | script.js:290-296 | scanning one more entry appends it to the output iff its age is below `FADE_DURATION` |
| Trail.CountFreshMonotone | script.js:287-296 | the running output index never decreases along the scan |
| Trail.VisibleAt | script.js:290-296 | every unfaded entry i is written at slot = number of unfaded entries before it, with its own position and the colour of its age |
| Trail.EmittedInOrder | script.js:290-296 | two unfaded entries are written in their history order (strictly increasing slots) |
| Trail.VisiblePrefixWhenOrdered | script.js:287-298 | with ordered ages, the written positions are exactly the first `CountFresh` entries, all unfaded, and every later entry has faded |
| Trail.FreshPrefix | script.js:290 | with ordered ages, the unfaded entries are exactly the first `CountFresh` ones |
| Trail.AllFresh | script.js:290-295 | if no entry has faded, all of them are counted |
| Trail.VisibleOfSplit | script.js:290-295 | an unfaded prefix followed by faded entries yields exactly that prefix of positions |
| Trail.CountFreshSplit | script.js:290-298 | an unfaded prefix of length k followed by faded entries gives draw range k |
| Trail.HalfSecondFrames | script.js:281-298 | with `deltaTime` 0.5 from an empty trail, the draw range after K frames is `min(K, 2)` |
| Trail.LightTrail.constructor | script.js:237-252 | a new trail has empty history, draw range 0, fresh buffers of 150 slots and the given head and tail colours |
| Trail.LightTrail.Update | script.js:280-298 | the history becomes `Step` of the old one; the draw range and the first slots of both buffers hold the visible entries and their colours; slots past the draw range are untouched |
| Trail.LightTrail.Record | script.js:281-283 | `unshift` with age 0 followed by the `pop` loop gives the capped sequences |
| Trail.LightTrail.AgeAndEmit | script.js:285-298 | positions kept, ages become `Aged(old ages)`, buffers and draw range show the visible entries, slots past the range untouched |
| Trail.LightTrail.EmitAll | script.js:287-297 | the loop ages every entry by `deltaTime` and writes the unfaded ones to consecutive slots from 0; the count written is `CountFresh` |
| Trail.LightTrail.AgeEntry | script.js:288-296 | one loop turn: the age grows by `deltaTime`; an unfaded entry is written at the running index, which then advances |
| Trail.UpdateAt | script.js:271-298 | updating trail i leaves every other trail's history and drawn buffers as they were |
| Trail.UpdateLightTrails | script.js:268-303 | every trail's history becomes `Step` of its old history with its own head position, and every trail's buffers show its visible entries |
| Columns.Height | script.js:132 | a uniform sample in [0, 1) gives a height in [1, 16) |
| Columns.Size | script.js:133 | a uniform sample in [0, 1) gives an edge length in [1, 3) |
| Columns.BaseRadius | script.js:134 | the base's half-width lies in [0.5, 1.5) for a uniform sample |
| Columns.ColumnOf | script.js:162-176 | the box stands on the ground (its centre's y is half its height) above the footprint's centre; `DrawRanges` bounds its size and height |
| Columns.PlacementRadius | script.js:137-138 | the centre's distance from the origin is a uniform fraction of the shrunk disk's radius; `DrawRanges` bounds it to [0, `maxPlacementRadius`) |
| Columns.FootprintOf | script.js:139-140 | the saved `{x, z, radius}` of a candidate; `FootprintInsideDisk` keeps the whole base inside `spreadRadius` |
| Columns.DrawRanges | script.js:132-138 | height in [1, 16), size in [1, 3), half-width in [0.5, 1.5), placement radius in [0, `maxPlacementRadius`) |
| Columns.FractionBelow | script.js:138 | a fraction in [0, 1) of a positive length is non-negative and shorter than it |
| Columns.FootprintInsideDisk | script.js:136-140 | the centre lies at distance `radius` from the origin, and that distance plus the half-width stays below `spreadRadius` (on squares) |
| Columns.SquareBelow | script.js:137-138 | squaring preserves the order of non-negative reals |
| Columns.DistanceSq | script.js:145-147 | the squared planar distance is never negative |
| Columns.TooClose | script.js:153 | the constant-threshold test on the squared distance; `TooCloseSymmetric` makes it independent of which column is the candidate |
| Columns.OverlapsAny | script.js:143-157 | some placed column is too close to the candidate; `IsOverlapping` computes it with the early `break` |
| Columns.TooCloseSymmetric | script.js:145-153 | the distance test gives the same answer whichever of the two columns is the candidate |
| Columns.SeparationAllowsOverlappingBases | script.js:149-153 | two columns that pass the constant-distance test can still have intersecting square bases |
| Columns.IsOverlapping | script.js:143-157 | the scan with early `break` reports an overlap iff some placed column is closer than the threshold |
| Columns.PlaceColumn | script.js:124-185 | one column's attempt loop: 1 to 100 attempts, one draw each, every draw tried against all columns placed so far. On success it appends exactly the last draw's footprint and box, so every earlier draw of the column overlapped. On failure it has used all 100 draws and appended nothing. Placed columns stay separated. Facing no placed column, the first attempt succeeds |
| Columns.Accept | script.js:159-182 | appending a candidate that overlaps nothing keeps the placement invariant |
| Columns.Reject | script.js:184 | passing over an overlapping candidate keeps the placement invariant |
| Columns.PlaceColumns | script.js:117-191 | Each column uses 1 to 100 attempts, and at most `numColumns * 100` draws are used in total. Column i uses the consecutive draws from `Starts(attempts)[i]`. It is warned about by its number `i + 1` iff none of those draws is taken; otherwise exactly its last draw is taken. A warned column used all 100 attempts. Placed columns come from the draws in draw order and are pairwise separated. Each draw used is taken iff it is not too close to any column placed from earlier draws (`DrawTakenIffFree`). The first column is placed at the first attempt |
| Columns.PlaceNext | script.js:123-189 | one turn of the outer loop keeps the placement loop's invariant for the next column. It only appends: either the warning `i + 1` after 100 attempts, or one column from the last draw it used |
| Columns.StandingIsCount | script.js:128-184 | the columns standing when a draw is tried are exactly those placed from earlier draws |
| Columns.DrawTakenIffFree | script.js:142-184 | a tried draw becomes a column iff it is not too close to any column placed from earlier draws |
| Columns.TakenBefore | script.js:128-182 | every placed column comes from a draw already tried |
| Columns.StartsShape | script.js:123-129 | the columns' draw ranges start at 0, follow one another without gaps, each as long as that column's attempts, and end at the total used |
| Columns.StartsBounded | script.js:123-129 | no column's draws start past the total number of draws used |
| Columns.StartsAppend | script.js:123-129 | closing a column after `tries` attempts adds `tries` to the total and one range end |
| Columns.OutcomesAppend | script.js:123-189 | closing the current column, by a warning or by one placed column from its last draw, keeps every column's outcome (warned iff none of its draws taken) |
| Columns.ReserveIsProduct | script.js:121-128 | the draws set aside for n columns are n * `MAX_PLACEMENT_ATTEMPTS` |
| Columns.NormalizedY | script.js:165-169 | normalised height is 0 exactly at the bottom face, 1 exactly at the top face, and in [0, 1] exactly for heights within the box |
| Columns.FractionOfHeight | script.js:169 | dividing by a positive height preserves 0, the height itself and the range between |
| Columns.NormalizedYInverse | script.js:165-169 | from the normalised height and the box height the vertex's y is recovered |
| Columns.ColumnVertexColors | script.js:164-172 | one colour per vertex, the bottom colour on the bottom face, the top colour on the top face, channel-wise between them for every vertex of the box |

## Left out

- Rendering: Three.js objects, meshes, materials, textures, blending, `needsUpdate`, `computeBoundingSphere` and the bounding data are not modelled. `setDrawRange` is modelled as the `drawCount` field.
- Light heads: the orbit formula that places each light head (sine/cosine of the elapsed time) and the head mesh itself are not modelled. The head positions are parameters of `UpdateLightTrails`.
- Randomness: `Math.random`, `Math.cos` and `Math.sin` are supplied through the `Draw` stream.
- PlaceColumns: requires a stream holding `numColumns * MAX_PLACEMENT_ATTEMPTS` draws, because `Math.random` never runs out.
- Draw: the source draws the angle before the radius. The model carries the angle's cosine and sine in the same draw, so that order does not show.
- Colours: the hex colour constants (`0x202020`, `0xffffff`, `0x000000`) and the renderer's colour-space conversion are not modelled. Bottom, top, head and tail colours are parameters.
- ColumnVertexColors: receives the box's vertex heights as a sequence, because `BoxGeometry`'s vertex layout belongs to the renderer. It returns one colour per vertex, rather than the flat `r, g, b` list the source builds.
- PlaceColumns: records each placed column's size, height and centre. It does not call `ColumnVertexColors`, which states the colouring of one such box separately.
- Warnings: `console.warn` is modelled as the list of warned column numbers.
- Arithmetic: `Float32Array` rounding and floating point in general are not modelled; all arithmetic is on mathematical reals.
- Trail points: the cloned head position is stored as a value, so aliasing of `Vector3` objects does not arise.
- Threshold: `MIN_DISTANCE_BETWEEN_COLUMNS` is a constant (3). Behaviour under other thresholds, such as 0 where every column would be placed, is not modelled.
- Rest of the scene: the smoke field, the glass cube, the camera path, the intro text and audio timing, the animation loop and the resize handler are not part of this model.
