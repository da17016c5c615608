# Piano hit test: a Dafny model

The app shows a one-octave piano keyboard and plays a sample when a key is
touched. Its only real logic sits in `MainActivity`:

- `getPianoKey` builds, the first time it runs, two hash maps from key
  rectangles to chromatic indices (0 = middle C, one step per half tone).
  There are five black keys (1, 3, 6, 8, 10) and seven white keys (0, 2, 4,
  5, 7, 9, 11). The rectangles come from the piano view's width and height.
  Every call then scans the black keys and then the white keys. It answers
  the index of the first rectangle that contains the point, or -1 when none
  does.
- `handleTap` uses that key to index the key names and the sample ids.
- The load-complete listener finds the first sample whose id matches the
  callback's. It then inserts `true` at that position of `soundsBoolean`.

The model has four modules, one file each:

- `geometry.dfy` (`Geometry`): the platform rectangle and its half-open
  `contains`, where an empty rectangle contains nothing. Also Java's `(int)`
  cast of a double, which truncates toward zero.
- `key_layout.dfy` (`KeyLayout`): the twelve rectangles as functions of the
  view size. `KeyAt` is the hit test over the rectangles taken in source
  order. `Table` is the hash map the puts produce. The lemmas cover what the
  answer is and why the maps' iteration order cannot change it.
- `sound_bank.dfy` (`SoundBank`): the listener's chain of twelve
  comparisons, the positional insert, and what a tap does with its key.
- `main_activity.dfy` (`Piano`): the screen as a class. It holds the two
  maps, the sample ids and the flags. `GetPianoKey` builds the maps on the
  first call and scans their key sets in an arbitrary order, which stands
  for `HashMap`'s unspecified order. It is proved to answer `KeyAt` for the
  size the maps were built from.

Modelling choices:

- The layout arithmetic is done in exact reals (`real`), with `Trunc` for
  the cast. The contracts of `WhiteEdge` and `BlackBottom` and the lemma
  `BlackEdgesExact` restate every edge as an integer division; for example,
  white boundary k is `k * width / 7` rounded down. The program computes in
  doubles, which at some view sizes put an edge one pixel lower (see
  "Left out").
- The platform `Rect` compares by value. So if two puts use equal rectangles,
  the map keeps one entry. Before the view is measured (width 0), all black
  rectangles are equal, and so are all white ones. Each map then holds a
  single entry (`UnmeasuredLayoutCollapses`).
- The view's width and height, and the ids the sound pool returns, are
  parameters.

In three places the code does not do what a design for this screen would
suggest. The model follows the code:

- Containment is half-open (`left <= x < right`), as `Rect.contains` is. A
  point on a key's right or bottom edge is outside it.
- The layout is never rebuilt. A layout built before the view was measured
  stays cached. After that, `getPianoKey` answers -1 for every point, even
  once the view has a size (`StaleUnmeasuredLayout`); through `handleTap`,
  already the first such tap faults on `KEY_NAMES[-1]`.
- A miss is not skipped by `handleTap`; it faults (see Findings).

## Model

| member | source | states |
|---|---|---|
| `Geometry.Trunc` | app/src/main/java/edu/uw/piano/MainActivity.java:178-190 | the `(int)` cast truncates toward zero: the result is the whole part of the argument, never farther from 0 than it |
| `Geometry.HalfOpenEdges` | app/src/main/java/edu/uw/piano/MainActivity.java:193-203 | a key's right and bottom edges are outside it; a rectangle is non-empty exactly when its top-left corner is inside |
| `Geometry.Contains` | app/src/main/java/edu/uw/piano/MainActivity.java:193-203 | an empty rectangle contains no point; a non-empty one contains exactly the points with `left <= x < right` and `top <= y < bottom` |
| `Geometry.TruncMonotone` | app/src/main/java/edu/uw/piano/MainActivity.java:178-190 | the cast keeps the order of its arguments |
| `KeyLayout.WhiteEdge` | app/src/main/java/edu/uw/piano/MainActivity.java:174-190 | for a width that is not negative, white boundary k is `k * width / 7` rounded down |
| `KeyLayout.BlackBottom` | app/src/main/java/edu/uw/piano/MainActivity.java:176-182 | for a height that is not negative, black keys end at `23 * height / 40` rounded down, inside the view |
| `KeyLayout.BlackRect` | app/src/main/java/edu/uw/piano/MainActivity.java:174-182 | a black key runs from the top of the view down to the black keys' bottom edge |
| `KeyLayout.WhiteRect` | app/src/main/java/edu/uw/piano/MainActivity.java:184-190 | white column i is the full height of the view and, for a width that is not negative, runs from `i * width / 7` to `(i + 1) * width / 7`, each rounded down |
| `KeyLayout.BlackRects` | app/src/main/java/edu/uw/piano/MainActivity.java:178-182 | there are five black keys, one per put, all with the same top and bottom edges |
| `KeyLayout.WhiteRects` | app/src/main/java/edu/uw/piano/MainActivity.java:184-190 | there are seven white keys, one per put, each the full height of the view and ending where the next begins |
| `KeyLayout.KeyAt` | app/src/main/java/edu/uw/piano/MainActivity.java:193-205 | the answer is -1 exactly when no rectangle contains the point; otherwise it is in 0..11, a black index exactly when a black key contains the point, and a white index otherwise |
| `KeyLayout.HitIndex` | app/src/main/java/edu/uw/piano/MainActivity.java:193-203 | the scan's answer is the first rectangle containing the point, none before it does, and -1 means none at all does |
| `KeyLayout.Table` | app/src/main/java/edu/uw/piano/MainActivity.java:178-190 | after the puts, the map's keys are exactly the rectangles put |
| `KeyLayout.TableAt` | app/src/main/java/edu/uw/piano/MainActivity.java:178-190 | last put wins: a rectangle not put again later maps to the index put with it |
| `KeyLayout.TablePrefix` | app/src/main/java/edu/uw/piano/MainActivity.java:178-190 | each put extends the map of the puts before it |
| `KeyLayout.TableHit` | app/src/main/java/edu/uw/piano/MainActivity.java:193-203 | whichever containing map entry a scan meets first, its value is the ordered scan's answer, so iteration order does not matter |
| `KeyLayout.TableMiss` | app/src/main/java/edu/uw/piano/MainActivity.java:193-205 | the ordered scan misses exactly when no map entry contains the point |
| `KeyLayout.LeftToRightSeparated` | app/src/main/java/edu/uw/piano/MainActivity.java:178-190 | rectangles that each end where or before the next starts never share a point |
| `KeyLayout.TiledCover` | app/src/main/java/edu/uw/piano/MainActivity.java:184-190 | columns sharing each boundary with the next cover their whole extent |
| `KeyLayout.BlackEdgesExact` | app/src/main/java/edu/uw/piano/MainActivity.java:174-182 | the black key on boundary c spans `(c - 0.26) * width / 7` to `(c + 0.26) * width / 7`, each rounded down |
| `KeyLayout.WhiteColumnsInOrder` | app/src/main/java/edu/uw/piano/MainActivity.java:184-190 | the white columns run left to right, the first starting at 0 and the last ending at the width |
| `KeyLayout.BlackKeysInOrder` | app/src/main/java/edu/uw/piano/MainActivity.java:178-182 | the black keys run left to right, inside `[0, width]` |
| `KeyLayout.NegativeWidthEmpty` | app/src/main/java/edu/uw/piano/MainActivity.java:174-190 | for a negative width every key rectangle is empty |
| `KeyLayout.LayoutSeparated` | app/src/main/java/edu/uw/piano/MainActivity.java:178-190 | for any view size, no point lies in two black keys or in two white keys |
| `KeyLayout.BlackBeatsWhite` | app/src/main/java/edu/uw/piano/MainActivity.java:193-203 | a point inside a black key resolves to that black key, even when a white key also contains it |
| `KeyLayout.WhiteOutsideBlack` | app/src/main/java/edu/uw/piano/MainActivity.java:199-203 | a point outside every black key resolves to the white column containing it |
| `KeyLayout.BlackKeyInsideView` | app/src/main/java/edu/uw/piano/MainActivity.java:174-182 | every black key lies inside `[0, width) x [0, height)` |
| `KeyLayout.WhiteKeyInsideView` | app/src/main/java/edu/uw/piano/MainActivity.java:184-190 | every white key lies inside `[0, width) x [0, height)` |
| `KeyLayout.ViewCoveredByWhite` | app/src/main/java/edu/uw/piano/MainActivity.java:184-190 | every point of the view lies in a white column |
| `KeyLayout.MissIffOutsideView` | app/src/main/java/edu/uw/piano/MainActivity.java:174-205 | the hit test answers -1 exactly for the points outside `[0, width) x [0, height)` |
| `KeyLayout.UnmeasuredViewMisses` | app/src/main/java/edu/uw/piano/MainActivity.java:168-205 | with width 0, every point misses |
| `KeyLayout.BelowBlackKeysOnlyWhite` | app/src/main/java/edu/uw/piano/MainActivity.java:176-203 | at or below the black keys' bottom edge the answer is -1 or a white index |
| `KeyLayout.ChromaticPartition` | app/src/main/java/edu/uw/piano/MainActivity.java:162-190 | there are twelve key names; the black and white indices split 0..11 with no overlap |
| `KeyLayout.MeasuredLayoutKeepsAllKeys` | app/src/main/java/edu/uw/piano/MainActivity.java:178-190 | in a view at least 14 by 2 pixels, all twelve rectangles are distinct map keys, each mapped to its own index |
| `KeyLayout.UnmeasuredLayoutCollapses` | app/src/main/java/edu/uw/piano/MainActivity.java:178-190 | at width 0, each map holds one empty rectangle, mapped to the last index put (10 and 11) |
| `KeyLayout.Example700By400` | app/src/main/java/edu/uw/piano/MainActivity.java:184-205 | on a 700 x 400 view the white boundaries are at multiples of 100, and a tap at (50, 300) is middle C (0) |
| `SoundBank.SlotFrom` | app/src/main/java/edu/uw/piano/MainActivity.java:66-91 | the comparison chain hits the first of the twelve positions holding the id, misses when none does, and faults at the first position past the end of the list |
| `SoundBank.SampleSlot` | app/src/main/java/edu/uw/piano/MainActivity.java:67-90 | the whole chain hits the first of the twelve positions holding the id; it faults at the end of a list shorter than twelve that does not hold it; otherwise it misses, and then none of the twelve holds it |
| `SoundBank.SlotOfFullList` | app/src/main/java/edu/uw/piano/MainActivity.java:66-91 | with twelve ids registered the chain never faults, and it hits exactly when the id is among the first twelve |
| `SoundBank.SlotHitsFirstMatch` | app/src/main/java/edu/uw/piano/MainActivity.java:67-90 | the chain hits the first position holding the id |
| `SoundBank.Insert` | app/src/main/java/edu/uw/piano/MainActivity.java:68-90 | the positional insert needs a position at most the length; the list grows by one, the value lands at that position, earlier elements stay and later ones shift right |
| `SoundBank.LoadCompleted` | app/src/main/java/edu/uw/piano/MainActivity.java:66-91 | the flags change only when the load succeeded, the id matched and the insert position was at most the length; then `true` is inserted at the first matching position; a failed load or an unknown id is ignored |
| `SoundBank.InOrderLoadsAppend` | app/src/main/java/edu/uw/piano/MainActivity.java:66-91 | with distinct ids and callbacks in load order, the k-th callback appends, leaving k + 1 flags `true` |
| `SoundBank.Tap` | app/src/main/java/edu/uw/piano/MainActivity.java:149-156 | a tap plays exactly when the key indexes both the key names and the sample ids; it faults on the names for any key outside 0..11 |
| `SoundBank.TapOutcomeByPosition` | app/src/main/java/edu/uw/piano/MainActivity.java:149-154 | with twelve samples, a tap faults on `KEY_NAMES[-1]` exactly when it is outside the view, and otherwise plays the key under it |
| `SoundBank.TapAtRightEdgeFaults` | app/src/main/java/edu/uw/piano/MainActivity.java:149-154 | a tap on the right edge of a 700-pixel view faults |
| `SoundBank.CheckedTap` | app/src/main/java/edu/uw/piano/MainActivity.java:149-156 | a checked tap is silent exactly on a miss, plays exactly when the key indexes both the names and the sample ids, and never faults for a hit-test answer once all twelve samples are registered |
| `SoundBank.CheckedTapNeverFaults` | app/src/main/java/edu/uw/piano/MainActivity.java:149-154 | with twelve samples, the checked tap never faults and plays exactly for taps inside the view |
| `SoundBank.FailedFirstLoadBreaksInsert` | app/src/main/java/edu/uw/piano/MainActivity.java:66-91 | when sample 0 fails to load, the callback for sample 1 faults on the insert |
| `SoundBank.MarkLoaded` | app/src/main/java/edu/uw/piano/MainActivity.java:66-91 | with one flag per sample, a successful callback sets only the flag of the first matching sample |
| `SoundBank.MarkLoadedCommutes` | app/src/main/java/edu/uw/piano/MainActivity.java:66-91 | flags set that way do not depend on the order in which callbacks arrive |
| `Piano.MainActivity.constructor` | app/src/main/java/edu/uw/piano/MainActivity.java:22-23 | a new screen has no key maps, no sample ids and no flags |
| `Piano.MainActivity.RegisterSounds` | app/src/main/java/edu/uw/piano/MainActivity.java:97-120 | the ids the pool returns are appended in key order |
| `Piano.MainActivity.BuildLayout` | app/src/main/java/edu/uw/piano/MainActivity.java:168-191 | the five black and seven white puts leave the maps equal to the layout of the view size given |
| `Piano.MainActivity.GetPianoKey` | app/src/main/java/edu/uw/piano/MainActivity.java:167-206 | the maps are built only on the first call, from that call's view size, and never changed later, even if the view size changes; the answer, in any iteration order, is the hit test of the layout in use |
| `Piano.MainActivity.HandleTap` | app/src/main/java/edu/uw/piano/MainActivity.java:149-156 | the outcome is the tap on the key `getPianoKey` answers, with the same write-once maps |
| `Piano.MainActivity.OnLoadComplete` | app/src/main/java/edu/uw/piano/MainActivity.java:63-95 | the outcome and the new flags are those of one listener run on the registered ids and the old flags |
| `Piano.TablesUnrolled` | app/src/main/java/edu/uw/piano/MainActivity.java:178-190 | the twelve explicit puts give exactly the black and white maps of the layout |
| `Piano.StaleUnmeasuredLayout` | app/src/main/java/edu/uw/piano/MainActivity.java:167-205 | on a new screen, a first hit test at width 0 answers -1, and so does a later one on a 700 x 400 view, because the empty layout stays cached |
| `Piano.LayoutSurvivesResize` | app/src/main/java/edu/uw/piano/MainActivity.java:167-205 | on a new screen, (50, 300) on a 700 x 400 view is middle C, and it still is after the view reports size 0 |

## Findings

| source | as written | input that shows it | evidently intended | confidence | as-written member | corrected member |
|---|---|---|---|---|---|---|
| app/src/main/java/edu/uw/piano/MainActivity.java:149-154 | `handleTap` looks up `KEY_NAMES[key]` and `sounds.get(key)` without checking `key`. A point outside every key gives -1, and the lookup throws. | a tap at (700, 100) on a 700 x 400 view: the right edge, which no key contains | a miss plays nothing | high; not executed | `SoundBank.TapAtRightEdgeFaults` | `SoundBank.CheckedTapNeverFaults` |
| app/src/main/java/edu/uw/piano/MainActivity.java:66-91 | `soundsBoolean.add(i, true)` is a positional insert. It throws unless i is at most the list's length, so it only works when the callbacks arrive in order and none fails. | sample 0 reports status 1 (failed); sample 1 then loads, and `add(1, true)` runs on an empty list | one flag per sample, set when that sample loads, in any order | medium; not executed | `SoundBank.FailedFirstLoadBreaksInsert` | `SoundBank.MarkLoadedCommutes` |

The class `Piano.MainActivity` keeps the code's behaviour as written in both
cases: `HandleTap` returns the fault outcome, and `OnLoadComplete` performs
the insert. The corrected definitions are `SoundBank.CheckedTap` and
`SoundBank.MarkLoaded`.

## Left out

- Sound pool construction, the API-level branch, `myPool.load` of the raw resources and `myPool.play`: platform audio. The ids `load` returns are the parameter of `RegisterSounds`; a play is the `Played` outcome carrying the id that would be played.
- `onTouchEvent`'s decoding of the motion event, `Log.v`, `findViewById` and `getWidth`/`getHeight`: the touch point and the view size are parameters. Like the code, `GetPianoKey` uses the view size only on its first call.
- The immersive-mode flags in `onWindowFocusChanged`: UI state with no logic.
- The empty `onLoadComplete` override on the activity itself: it does nothing.
- IEEE double arithmetic. The layout is computed in exact reals and the cast is applied to the exact value. Doubles round some products to just below a whole number, and the cast then loses a pixel. For example, `.575 * 400` truncates to 229, not 230, and `(61 / 7.0) * 7` truncates to 60, not 61. The contracts listed below are facts of the exact arithmetic. The cast's saturation at the `int` range is not modelled: every truncated value lies between 0 and the view size.
- `KeyLayout.WhiteEdge`: in doubles, boundary 7 comes out as `width - 1`, not `width`, at some widths (61, 115, 122, 230, 237 and others). The other boundaries agree.
- `KeyLayout.BlackBottom`: in doubles, the bottom edge is one pixel higher at some heights (200, 360, 400, 440 and others).
- `KeyLayout.BlackEdgesExact`: in doubles, the left edge of the key on boundary 6 is one pixel further left at some widths (150, 300, 600, 1200).
- `KeyLayout.WhiteRect`, `KeyLayout.WhiteColumnsInOrder`: in doubles, at the widths listed for `WhiteEdge`, the last column ends at `width - 1`.
- `KeyLayout.ViewCoveredByWhite`, `KeyLayout.MissIffOutsideView`: in doubles, at those widths, the pixel column `x = width - 1` lies in no key, so there `getPianoKey` answers -1 inside the view.
- `SoundBank.TapOutcomeByPosition`, `SoundBank.CheckedTapNeverFaults`: in doubles, at those widths, a tap in column `width - 1` faults in `handleTap` and is silent in the checked handler.
- The asynchronous timing of load callbacks: the model covers the effect of one callback at a time.
- The iteration order of `HashMap`: modelled as an arbitrary choice of key at each step, and proved not to matter.
