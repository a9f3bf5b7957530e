# Image-to-robot-program converter, modelled in Dafny

This project models the core of the converter `CNVRT/convertor.py`. The
converter turns a thresholded black-and-white grid into the instruction list
that the drawing robot runs: `paintON`, `paintOFF`, `F <n>` (drive forward)
and `R <deg>` (rotate). The model covers its four parts:

- `commands.dfy` (`Commands`): the instruction language as a datatype
  `Cmd = PaintOn | PaintOff | Forward(n) | Rotate(deg)`, plus the counts and
  sums the other modules use.
- `compass.dfy` (`Compass`): grid points, the `DIRS` and `VECT` tables, and
  `turn`, which appends the rotations from one heading to another.
- `contours.dfy` (`Contours`): `find_contours`. It flood-fills the
  4-connected groups of black pixels with an explicit stack and a visited
  set, and keeps each group's edge pixels when there are at least two.
- `translate.dfy` (`Translate`): `contour_to_commands`. It walks a contour,
  turns to face each accepted unit step and drives `F step`.
- `merge.dfy` (`Merge`): `merge_forward_commands`, which collapses every
  run of consecutive `F` moves into one.
- `robot.dfy` (`Robot`): a reference interpreter for the instruction list,
  with pose = position, heading and pen. `R deg` adds `deg` to the heading
  modulo 360. `F n` drives `n` times the `VECT` vector of the heading. The
  interpreter reads headings through the same tables the converter uses,
  so on its own it would not notice a table that is not a rotation;
  `Compass.VectRotates` closes that gap by proving that adding 90 degrees
  turns every `VECT` vector by the same quarter turn. With that, the
  interpreter is the partner of the translation and the merge: the robot
  visits exactly the accepted points of the contour (scaled by the step
  length), which need not be all of its points, and merging does not
  change where the robot ends up.

Python's `%` with a positive divisor never returns a negative value. Dafny's
`%` behaves the same way, so `turn`'s `(target - current) % 360` is written
as it stands.

The image is a `Bitmap`: rows of booleans, true meaning black. This stands
for the pixel access of the image library, where a pixel is black when its
value is 0. `find_contours` is modelled as two methods:
`ExploreComponent` is the inner depth-first search, and `FindContours` is
the row-by-row scan. Both follow the source's order of work exactly,
including the order in which neighbours are pushed (the `DIRS` order).

## Model

| member | source | states |
|---|---|---|
| Compass.Dirs | CNVRT/convertor.py:24-29 | `DIRS` has an entry exactly for the four unit 4-steps, and each entry is one of the headings 0, 90, 180, 270 |
| Compass.Vect | CNVRT/convertor.py:31-36 | `VECT` has an entry exactly for the four headings; each entry is a unit step that `DIRS` maps back to the same heading |
| Compass.VectRotates | CNVRT/convertor.py:31-36 | the `VECT` table is a rotation: the vector of `h + 90` is the vector of `h` turned by a quarter turn from the x axis towards the y axis, and the vector of `h - 90` turns back to the vector of `h`, for every heading |
| Compass.DirsThenVect | CNVRT/convertor.py:24-36 | the other half of the round trip: looking up a unit step in `DIRS` and the result in `VECT` gives the step back |
| Compass.NeighbourBack | CNVRT/convertor.py:24-29 | every `DIRS` offset is a unit step, and the offset two places further on undoes it, so neighbour-of-neighbour returns to the pixel |
| Compass.Turn | CNVRT/convertor.py:39-48 | `turn` returns `target`, only appends to `commands` (the old list is a prefix), appends at most two commands, each `R 90` or `R -90`, and appends nothing when the difference is 0 modulo 360 |
| Compass.TurnReachesTarget | CNVRT/convertor.py:40-47 | when the headings differ by a whole number of quarter turns, the appended rotations take `current` to `target` modulo 360; otherwise nothing is appended; in every case the appended rotations add up to more than -180 and at most 180 degrees, so a half turn is `R 90, R 90` and never `R -90, R -90` |
| Compass.TurnIsShortest | CNVRT/convertor.py:40-47 | no list of quarter turns that reaches `target` from `current` is shorter than the one `turn` appends |
| Translate.Accepted | CNVRT/convertor.py:96-108 | the points the walk accepts: each is taken from the contour, each is a unit step from the previously accepted point (the first from the start point), and its heading is the `DIRS` entry of that step; a skipped point therefore leaves the cursor where it was |
| Translate.AcceptedFirst | CNVRT/convertor.py:98-108 | the first point that is a unit step from the cursor is always taken, with its `DIRS` heading, and the walk goes on from that point over the points after it, in contour order |
| Translate.AcceptedNone | CNVRT/convertor.py:98-102 | when no remaining point is a unit step from the cursor, the walk takes nothing more |
| Translate.DepthFirstOrderSkips | CNVRT/convertor.py:98-102 | for an all-black 3 by 3 block at any position, whose edge pixels `find_contours` lists in depth-first order, the walk accepts only four of the eight points, an L through three sides; the edge pixels (1, 0), (2, 0) and (2, 1) are skipped because none is a unit step from the cursor when it comes up |
| Translate.WalkFromSplit | CNVRT/convertor.py:98-108 | the walk only ever appends: its result is the commands so far followed by what a walk from an empty list emits |
| Translate.WalkFacts | CNVRT/convertor.py:98-108 | the walk emits only `F step`, `R 90` and `R -90`, and exactly one `F` per accepted unit step |
| Translate.ContourToCommands | CNVRT/convertor.py:92-111 | for a non-empty contour the program starts with `paintON` and ends with `paintOFF`; everything between is `F step` or a quarter turn; the number of `F` equals the number of accepted steps |
| Robot.QuarterTurnRotates | CNVRT/convertor.py:39-48 | the `R 90` and `R -90` that `turn` emits turn the robot's drive direction by one quarter turn one way and the other, from every heading |
| Robot.FaceStep | CNVRT/convertor.py:39-48 | running the rotations `turn` appends leaves the robot in place, facing `target`, with no mark drawn |
| Robot.TurnAndDrive | CNVRT/convertor.py:104-108 | turning to a unit step and driving `F step` brings the robot to that neighbour, facing the step's `DIRS` heading, and draws exactly one mark there |
| Robot.WalkTraces | CNVRT/convertor.py:98-108 | with the pen down, the walk leaves one mark per accepted point (scaled by `step`), in order, each facing the direction of its step; the robot stops on the last accepted point, and a skipped point moves nothing |
| Robot.ContourIsTraced | CNVRT/convertor.py:92-111 | starting at the first contour point, heading 0 and pen up, the whole program draws exactly the accepted points, scaled by `step`, with the pen down, and ends on the last one with the pen lifted; with `step == 0` every mark sits at the origin, so only the headings and the count of marks say anything |
| Merge.MergeForward | CNVRT/convertor.py:6-22 | the output has only positive `F`s and no two adjacent `F`s; its non-`F` commands are the input's, in order; it is no longer than the input; with non-negative distances it drives the same distance between each pair of non-`F` commands, and so the same total |
| Merge.MergeForwardCommands | CNVRT/convertor.py:6-22 | the loop as written (running total, emit-and-reset only when positive, final flush) meets the same guarantees and computes `MergeForward` |
| Merge.NormalIsFixed | CNVRT/convertor.py:10-20 | a list that is already merged (positive, non-adjacent `F`s) comes out unchanged |
| Merge.MergeIdempotent | CNVRT/convertor.py:6-22 | merging a merged list changes nothing, for any distances |
| Merge.NormalUnique | CNVRT/convertor.py:10-20 | a merged list is fully determined by its non-`F` commands and the distances between them |
| Merge.MergeCharacterised | CNVRT/convertor.py:10-20 | with non-negative distances, a list is the merge of the input if and only if it is merged and has the input's non-`F` commands and the input's distances between them |
| Merge.MergeIsOnlyNormalForm | CNVRT/convertor.py:10-20 | the harder direction of that equivalence on its own: with non-negative distances, any merged list with the input's non-`F` commands and distances is exactly what the merge returns |
| Merge.MergeDropsNonPositive | CNVRT/convertor.py:10-20 | when no `F` distance is positive the running total never becomes positive, so nothing is emitted for the moves: the result is just the non-`F` commands |
| Robot.NonPositiveStepLosesMoves | CNVRT/convertor.py:6-22 | with a step length of 0 or less, merging the program of a contour removes every forward move and leaves only the pen commands and turns |
| Robot.DrivesAdd | CNVRT/convertor.py:11-12 | two consecutive drives along one heading end where one drive of the summed distance ends |
| Robot.MergeEndsAlike | CNVRT/convertor.py:6-22 | with non-negative distances and quarter-turn rotations, the merged program leaves the robot in the same position, heading and pen state as the original |
| Contours.Bitmap.FrontierFrom | CNVRT/convertor.py:80-83 | the pixels pushed for the current pixel are black and unvisited, and every black unvisited 4-neighbour is among them |
| Contours.FrontierSteps | CNVRT/convertor.py:80-83 | every pushed pixel is a 4-neighbour of the current pixel |
| Contours.ConnectedInside | CNVRT/convertor.py:62-83 | a 4-connected set of black pixels that meets a set closed under black neighbours lies entirely inside it |
| Contours.PatchesEqualOrApart | CNVRT/convertor.py:57-88 | two whole 4-connected components are either the same component or share no pixel |
| Contours.ShortContour | CNVRT/convertor.py:85-86 | a component whose edge list has fewer than two entries has at most one edge pixel, which is why dropping it loses no second edge pixel |
| Contours.ExploreComponent | CNVRT/convertor.py:62-83 | one depth-first fill from an unvisited black pixel marks exactly one whole 4-connected component as visited, nothing visited before, and returns each of its edge pixels exactly once and nothing else; the visited set stays black and closed |
| Contours.FillVisible | CNVRT/convertor.py:62-83 | what one fill leaves in its real results: the start pixel is newly visited, the visited pixels stay black and closed under black neighbours, and the contour lists distinct edge pixels, all newly visited |
| Contours.FlattenDistinct | CNVRT/convertor.py:59-69 | edge lists of pairwise disjoint components, each without repeats, together contain no pixel twice |
| Contours.FindContours | CNVRT/convertor.py:50-88 | every contour point is an in-bounds black pixel with a white or out-of-bounds `DIRS` neighbour; every contour has at least two points; no pixel appears twice in or across contours; each contour lists the edge pixels of one whole component; the discarded components have at most one edge pixel; the kept and discarded components are pairwise disjoint and together cover every black pixel |

## Left out

- `image_to_commands_arduino` and `main`: image loading, resizing and thresholding through the image library, file and console output, and interactive input are I/O and are not modelled. The logic of `image_to_commands_arduino` is joining the programs of all contours into one list and merging it. Of that, only the merge of one contour's program is stated (`Robot.NonPositiveStepLosesMoves`); the joined list is not modelled.
- Whole outlines: the model does not claim that the robot draws every edge pixel of a contour, because the converter does not. `find_contours` lists edge pixels in depth-first visiting order, not in order around the outline, and `contour_to_commands` skips every point that is not a unit step from the cursor. So whole stretches of an outline can go undrawn. `Translate.DepthFirstOrderSkips` proves this for a 3 by 3 block: three of its eight edge pixels are never visited. That the contour of such a block is the list used there was worked out by hand from the depth-first search; it is not proved.
- Robot.ContourIsTraced: the start pose (the contour's first point, heading 0, pen up) holds only for the first contour of a joined program. `contour_to_commands` starts every contour at heading 0 and emits no move between contours. So in the joined list each later contour starts where the previous one stopped, facing its last heading, and is drawn shifted and turned from its place in the image. For example, contours `[(0,0),(0,1)]` and `[(5,5),(6,5)]` at step 1 give `paintON, R 90, F 1, paintOFF, paintON, F 1, paintOFF`. Worked by hand under the interpreter's convention, the second mark lands at (0,2), not at (6,5). This example is not proved.
- The text form of commands: `"F n"` is parsed with `split` and `int`, and commands are formatted with f-strings. The `Cmd` datatype replaces the strings.
- The robot firmware that runs the program is not part of this model. The `Robot` interpreter is the convention that `DIRS`, `VECT` and `turn` encode together: `R` adds to the heading modulo 360, and `F` moves along the `VECT` vector. It is an assumption, not a model of that firmware.
- `VECT` is never used by the converter itself. It is modelled as a table, and the robot interpreter uses it.
- Image dimensions: a `Bitmap` carries its rows, and the methods require the rows to have the stated width and height. The source assumes the same of the image library.
- Contours.ExploreComponent: the order of the edge pixels within a contour is computed exactly as the source does, but the contract does not state it. It says which pixels appear, not in which order.
- Contours.FindContours: the order of the contours (row-by-row scan order of their first pixel) is computed but not stated.
- Merge.MergeForward: distance conservation is stated only for non-negative `F` distances. With a negative distance the source's running total is neither emitted nor reset, because the check is `acc > 0`, so it carries into the next run. The model computes that behaviour exactly but proves conservation only where it holds. The converter emits `F step` with the step length the user typed, which is not checked for sign.
- Merge.Gaps: the function states only that the list of gaps is non-empty. That it has one entry more than there are non-`F` commands follows from its definition, but it is not stated.
- Translate.ContourToCommands: requires a non-empty contour. The source indexes `contour[0]` and raises on an empty list; `find_contours` never returns one.
- Translate.ContourToCommands: the step is an unbounded integer; the source passes the user's `int`, with no sign check.
- Step lengths of 0 or less: nothing stops them, and then the merge drops every forward move of the program (`Robot.NonPositiveStepLosesMoves`), so the robot only turns and lifts and lowers the pen. The model states this behaviour rather than excluding it.
