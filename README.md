# LightHouse raytracer: frontend render state and sphere intersection

This project models two parts of the LightHouse interactive raytracer.

The first part is the frontend `Render` class:
- the selection outline that the HUD paints over the displayed frame;
- the per-frame sample loop, which honours the pause flag and the sample count;
- the console command dispatcher;
- the orbiting camera ("fix rotator") that the R key switches on and off;
- shape selection by mouse click.

The second part is the sphere primitive:
- ray intersection by the closed-form quadratic;
- point containment;
- its constructors and radius accessors.

Scalars (`double`) are modelled as `real`. `Math.sqrt` is a parameter `sqrt`, and every lemma that needs its value assumes `SqrtLaw(sqrt)`: on non-negative arguments, `sqrt` returns the non-negative root.

The modules are:
- `Geometry`: points, vectors and rays, with real-arithmetic helpers.
- `SphereShape`: the `Sphere` class and the properties of its intersection test.
- `Outline`: the outline pass as a function on sequences.
- `Command`: `String.split(" ")` and the command dispatch.
- `Frontend`: the `Render`, `FixRotator` and `Averager` classes. Their methods change state in place. The frame loop, the sample loop and the outline loops are proved against the functions `Samples`, `DrawnOver` and `OutlinePass`. The setters and event handlers (`AddZ`, `AddY`, `FactorDistance`, `ApplySettings`, `KeyPressed`, `MouseClicked`) state the new field values directly. `FixRotator.Apply` is a function that returns the camera placement.
- `Wrappers`: `Option` and `Result`.

The intersection time is modelled exactly as the source groups it: `((-b - sqrt(disc)) / 2.0) * a`. It is reported under "## Findings" together with a repaired version.

The intersection test does no filtering by sign:
- **Negative times are returned.** `getIntersection` returns `((-b - √disc)/2)·a` whatever its sign (Sphere.java:53-57); on a unit direction that is the smaller root (`UnitRayHitOnSurface`, `UnitRoots`). A ray whose origin is inside the sphere gets a negative time (`InsideOriginNegativeTime`). Callers must discard hits behind the origin themselves.
- **Rays pointing away still hit.** Whenever the discriminant is non-negative, `getIntersection` reports a hit, even for a ray pointing away from the sphere (Sphere.java:53-57). That hit has a negative time (`AwayRayNegativeTime`).

## Model

| member | source | states |
|---|---|---|
| SphereShape.Sphere.constructor | src/main/java/ch/herzog/lighthouse/scene/shape/Sphere.java:23-25 | a sphere at the given position with radius 1 |
| SphereShape.Sphere.WithRadius | src/main/java/ch/herzog/lighthouse/scene/shape/Sphere.java:33-36 | a sphere at the given position with the given radius |
| SphereShape.Sphere.SetRadius | src/main/java/ch/herzog/lighthouse/scene/shape/Sphere.java:75-84 | afterwards `GetRadius` returns the new radius, and the position is unchanged |
| SphereShape.Sphere.GetRadius | src/main/java/ch/herzog/lighthouse/scene/shape/Sphere.java:75-77 | reads the radius; its meaning is stated by `SetRadius` and the constructors |
| SphereShape.Sphere.Coefficients | src/main/java/ch/herzog/lighthouse/scene/shape/Sphere.java:46-51 | the coefficients a, b, c of lines 46-49; `SurfaceValue` states what they measure |
| SphereShape.AsWrittenTime | src/main/java/ch/herzog/lighthouse/scene/shape/Sphere.java:56 | the time with the source's grouping; `UnitRayHitOnSurface` and `AsWrittenTimeOffSurface` state when it is on the surface |
| SphereShape.Sphere.Contains | src/main/java/ch/herzog/lighthouse/scene/shape/Sphere.java:68-70 | distance below the radius; `ContainsBySquares` states it without the square root |
| SphereShape.Sphere.GetIntersection | src/main/java/ch/herzog/lighthouse/scene/shape/Sphere.java:45-59 | no intersection exactly when the discriminant is negative (so a tangent ray hits); a hit names the given ray and this sphere, and its time has the source's grouping |
| SphereShape.Factored | src/main/java/ch/herzog/lighthouse/scene/shape/Sphere.java:46-51 | given a square root of the discriminant, `4a` times the quadratic factors into two linear factors |
| SphereShape.UnitRoots | src/main/java/ch/herzog/lighthouse/scene/shape/Sphere.java:51-56 | for a = 1, the quadratic vanishes exactly at `(-b - s)/2` and `(-b + s)/2`, and the first is not larger |
| SphereShape.RootDiscriminant | src/main/java/ch/herzog/lighthouse/scene/shape/Sphere.java:51-54 | a quadratic with a real root has a non-negative discriminant, so the no-hit branch excludes every point of the line |
| SphereShape.SurfaceValue | src/main/java/ch/herzog/lighthouse/scene/shape/Sphere.java:46-49 | the quadratic at t plus r² is the squared distance from the centre to `origin + t·direction` |
| SphereShape.UnitRayHitOnSurface | src/main/java/ch/herzog/lighthouse/scene/shape/Sphere.java:46-57 | on a unit direction the returned time is `(-b - sqrt(disc))/2`, and the point it names lies on the surface |
| SphereShape.UnitRayEarliestOnLine | src/main/java/ch/herzog/lighthouse/scene/shape/Sphere.java:51-57 | on a unit direction, if any time puts the ray on the surface, the test hits, at a time no later than that one |
| SphereShape.TangentRayUniqueTime | src/main/java/ch/herzog/lighthouse/scene/shape/Sphere.java:51-57 | with discriminant 0 on a unit direction, a time is on the surface iff it is the returned time |
| SphereShape.InsideOriginNegativeTime | src/main/java/ch/herzog/lighthouse/scene/shape/Sphere.java:53-57 | with the origin inside (c < 0) on a unit direction, a hit is returned with a negative time; nothing filters it |
| SphereShape.AwayRayNegativeTime | src/main/java/ch/herzog/lighthouse/scene/shape/Sphere.java:53-57 | a ray with b > 0 (pointing away from the centre) still gets every hit the discriminant allows, at a negative time |
| SphereShape.HeadOnHit | src/main/java/ch/herzog/lighthouse/scene/shape/Sphere.java:45-59 | a unit ray starting k before the centre, aimed at it, hits at time k - r (the worked case: origin (0,0,-5), direction (0,0,1), radius 1, time 4) |
| SphereShape.SideMiss | src/main/java/ch/herzog/lighthouse/scene/shape/Sphere.java:45-59 | a unit ray that passes the centre at a perpendicular offset longer than the radius misses (the worked case: origin (2,0,-5), direction (0,0,1), radius 1) |
| SphereShape.HitAtFour | src/main/java/ch/herzog/lighthouse/scene/shape/Sphere.java:51-57 | a ray whose quadratic is t² - 10t + 24 is reported at time 4, the smaller root |
| SphereShape.AxisRayCoefficients | src/main/java/ch/herzog/lighthouse/scene/shape/Sphere.java:46-49 | for the unit sphere at the origin, a ray along +z from (e, 0, z) has a = 1, b = 2z, c = e² + z² - 1 |
| SphereShape.OriginHeadOnExample | src/main/java/ch/herzog/lighthouse/scene/shape/Sphere.java:45-59 | unit sphere at the origin, ray from (0,0,-5) along (0,0,1): hit at time 4 |
| SphereShape.OriginSideMissExample | src/main/java/ch/herzog/lighthouse/scene/shape/Sphere.java:45-59 | unit sphere at the origin, ray from (2,0,-5) along (0,0,1): no intersection |
| SphereShape.HeadOnExample | src/main/java/ch/herzog/lighthouse/scene/shape/Sphere.java:45-59 | concrete head-on case: coefficients (1, -10, 24), time 4, one unit before the centre |
| SphereShape.OffsetMissExample | src/main/java/ch/herzog/lighthouse/scene/shape/Sphere.java:45-59 | concrete offset case: coefficients (1, -10, 41), no intersection |
| SphereShape.ContainsBySquares | src/main/java/ch/herzog/lighthouse/scene/shape/Sphere.java:68-70 | for radius ≥ 0, contains iff the squared distance is below r²; for a negative radius, nothing is contained |
| SphereShape.ContainedOriginHasNegativeC | src/main/java/ch/herzog/lighthouse/scene/shape/Sphere.java:68-70 | a ray whose origin the sphere contains has c < 0 |
| SphereShape.AsWrittenTimeOffSurface | src/main/java/ch/herzog/lighthouse/scene/shape/Sphere.java:56 | for a non-unit direction the source's time (32) names a point far off the surface; the repaired time (2) is on it |
| SphereShape.Sphere.GetIntersectionCorrected | src/main/java/ch/herzog/lighthouse/scene/shape/Sphere.java:56 | repaired test: no hit iff the discriminant is negative or the direction is zero; a hit names this ray and sphere |
| SphereShape.TextbookRoot | src/main/java/ch/herzog/lighthouse/scene/shape/Sphere.java:56 | for a > 0, the repaired time `(-b - s)/(2a)` is a root of the quadratic |
| SphereShape.CorrectedHitOnSurface | src/main/java/ch/herzog/lighthouse/scene/shape/Sphere.java:56 | every hit of the repaired test lies on the surface, for every non-zero direction |
| SphereShape.CorrectedAgreesOnUnitRays | src/main/java/ch/herzog/lighthouse/scene/shape/Sphere.java:56 | on unit directions the repaired test and the source's test agree |
| Outline.OutlinePass | src/main/java/com/illuminai/vision/frontend/Render.java:127-144 | the pass keeps the buffer's length; which pixels change is stated by the lemmas below |
| Outline.OutlinePassAt | src/main/java/com/illuminai/vision/frontend/Render.java:134-140 | an interior pixel (x, y) becomes 0xff00ff exactly when it carries the selected id and a neighbour does not; otherwise it keeps its colour |
| Outline.BorderUnchanged | src/main/java/com/illuminai/vision/frontend/Render.java:132-133 | the first and last row and column never change |
| Outline.NeighboursInBounds | src/main/java/com/illuminai/vision/frontend/Render.java:134-138 | for an interior pixel, `i`, `i±1` and `i±w` all lie in `[0, w·h)` |
| Outline.IndexCoordinates | src/main/java/com/illuminai/vision/frontend/Render.java:134 | the flat index `x + y·w` has column x and row y |
| Outline.IndexInBounds | src/main/java/com/illuminai/vision/frontend/Render.java:134 | every pixel of the w-by-h grid has a flat index below `w·h` |
| Outline.PaintedCarriesId | src/main/java/com/illuminai/vision/frontend/Render.java:137 | every painted pixel carries the selected id |
| Outline.NoSelectionNoChange | src/main/java/com/illuminai/vision/frontend/Render.java:128 | with no selected shape the pass changes nothing |
| Outline.UniformNoChange | src/main/java/com/illuminai/vision/frontend/Render.java:137-138 | a buffer with one id everywhere yields no recoloured pixel |
| Outline.AbsentIdNoChange | src/main/java/com/illuminai/vision/frontend/Render.java:137 | a buffer without the selected id yields no recoloured pixel |
| Outline.OutlinePassIdempotent | src/main/java/com/illuminai/vision/frontend/Render.java:127-144 | a second pass over the same ids changes nothing more |
| Command.JavaSplit | src/main/java/com/illuminai/vision/frontend/Render.java:246 | `split(" ")`; `SplitJoin`, `SplitSpaceFree` and `SplitTrailingSpace` state its meaning |
| Command.Direction | src/main/java/com/illuminai/vision/frontend/Render.java:256-263 | a recognised direction token is a move by the distance or by its negation |
| Command.Dispatch | src/main/java/com/illuminai/vision/frontend/Render.java:250-273 | success only for `move` and the no-op verbs; a move needs at least two tokens, and a successful `move` is a camera move |
| Command.ExecuteCommand | src/main/java/com/illuminai/vision/frontend/Render.java:245-275 | a line without a space succeeds exactly when it is a no-op verb (a lone `move` lacks its direction) |
| Command.Fields | src/main/java/com/illuminai/vision/frontend/Render.java:246 | cutting at every space gives at least one piece |
| Command.DropTrailingEmpty | src/main/java/com/illuminai/vision/frontend/Render.java:246 | the result is a prefix; it does not end in an empty piece; exactly the empty pieces at the end are dropped |
| Command.FieldsSpaceFree | src/main/java/com/illuminai/vision/frontend/Render.java:246 | no piece contains a space |
| Command.JoinFields | src/main/java/com/illuminai/vision/frontend/Render.java:246 | joining the pieces with single spaces gives back the line |
| Command.FieldsJoin | src/main/java/com/illuminai/vision/frontend/Render.java:246 | space-free pieces joined by spaces cut back into the same pieces |
| Command.FieldsOfSpaceFree | src/main/java/com/illuminai/vision/frontend/Render.java:246 | a line without spaces is one piece |
| Command.FieldsAppend | src/main/java/com/illuminai/vision/frontend/Render.java:246 | a space-free piece, a space and a tail cut into that piece, then the tail's pieces |
| Command.FieldsTrailingSpace | src/main/java/com/illuminai/vision/frontend/Render.java:246 | a trailing space adds one empty piece |
| Command.SplitJoin | src/main/java/com/illuminai/vision/frontend/Render.java:246 | `split(" ")` of non-empty, space-free tokens joined by spaces gives back the tokens |
| Command.SplitSpaceFree | src/main/java/com/illuminai/vision/frontend/Render.java:246 | no token of `split(" ")` contains a space |
| Command.SplitTrailingSpace | src/main/java/com/illuminai/vision/frontend/Render.java:246 | a space appended to a non-empty line does not change its split |
| Command.DirectionTokens | src/main/java/com/illuminai/vision/frontend/Render.java:256-263 | exactly the six tokens `+f -f +s -s +u -u` are accepted, each moving along its axis with its sign |
| Command.MoveDefaultDistance | src/main/java/com/illuminai/vision/frontend/Render.java:251-265 | `move <dir>` moves by 0.1 along the direction's axis, with its sign |
| Command.MoveGivenDistance | src/main/java/com/illuminai/vision/frontend/Render.java:252-255 | `move <dir> <n>` moves by the parsed n, or fails with a bad number when n does not parse |
| Command.OppositeDirections | src/main/java/com/illuminai/vision/frontend/Render.java:257-262 | opposite tokens with the same other tokens succeed or fail alike, along the same axis, by opposite distances |
| Command.DefaultUnlessThreeTokens | src/main/java/com/illuminai/vision/frontend/Render.java:252-255 | unless there are exactly three tokens, the distance is ±0.1 and tokens after the second are ignored |
| Command.MoveSucceeds | src/main/java/com/illuminai/vision/frontend/Render.java:251-265 | a move succeeds iff the second token is a direction and, with three tokens, the third parses |
| Command.NoOpVerbs | src/main/java/com/illuminai/vision/frontend/Render.java:267-270 | `rotate`, `mode`, `exit` and `save` succeed and do nothing, whatever follows them |
| Command.UnknownVerb | src/main/java/com/illuminai/vision/frontend/Render.java:271-272 | the unknown-command error is raised, naming the verb, exactly for verbs other than move and the no-op verbs |
| Command.WorkedLines | src/main/java/com/illuminai/vision/frontend/Render.java:245-275 | "move +f 3" moves forward 3; "move" lacks its second token; " " splits into nothing, so the verb is missing; "" is an unknown command |
| Frontend.Samples | src/main/java/com/illuminai/vision/frontend/Render.java:115-117 | one frame per sample slot |
| Frontend.SamplesJitter | src/main/java/com/illuminai/vision/frontend/Render.java:115-117 | the last slot is rendered with jitter 0; slot i before it is rendered with the i-th random draw |
| Frontend.Jitter | src/main/java/com/illuminai/vision/frontend/Render.java:116 | the jitter of slot i; `SamplesJitter` states its values |
| Frontend.DrawnOverCovers | src/main/java/com/illuminai/vision/frontend/Render.java:120 | a source at least as long covers the target; a shorter one covers its own length and keeps the rest; drawing it twice changes nothing more |
| Frontend.Averager.constructor | src/main/java/com/illuminai/vision/frontend/Render.java:83 | a fresh averager holding the given number of buffers |
| Frontend.Averager.Amount | src/main/java/com/illuminai/vision/frontend/Render.java:105 | the number of sample buffers; `ApplySettings` and `SetAmount` state its value |
| Frontend.Averager.SetAmount | src/main/java/com/illuminai/vision/frontend/Render.java:106 | fresh buffers, as many as asked for |
| Frontend.WrapPitch | src/main/java/com/illuminai/vision/frontend/Render.java:55 | the ±π shift of the pitch; `WrapPitchRange` states its range |
| Frontend.WrapPitchRange | src/main/java/com/illuminai/vision/frontend/Render.java:55 | a pitch within a half-turn is passed on unchanged; one within a full turn is brought within a half-turn |
| Frontend.FixRotator.constructor | src/main/java/com/illuminai/vision/frontend/Render.java:40-44 | unturned (angles 0), at distance 1 |
| Frontend.FixRotator.AddZ | src/main/java/com/illuminai/vision/frontend/Render.java:59-61 | adds to angleZ; the other fields are unchanged |
| Frontend.FixRotator.AddY | src/main/java/com/illuminai/vision/frontend/Render.java:63-65 | adds to angleY; the other fields are unchanged |
| Frontend.FixRotator.FactorDistance | src/main/java/com/illuminai/vision/frontend/Render.java:67-69 | multiplies the distance; the angles are unchanged |
| Frontend.FixRotator.Apply | src/main/java/com/illuminai/vision/frontend/Render.java:46-57 | no placement iff no shape is selected; otherwise the camera faces by (0, wrapped pitch, angleZ) |
| Frontend.OrbitDistance | src/main/java/com/illuminai/vision/frontend/Render.java:50-56 | for length-keeping rotations, the camera sits exactly `distance` from the selected shape |
| Frontend.TurnedOffsetLength | src/main/java/com/illuminai/vision/frontend/Render.java:50-53 | the turned offset `(-distance, 0, 0)` keeps its squared length |
| Frontend.UnturnedPlacement | src/main/java/com/illuminai/vision/frontend/Render.java:50-56 | an unturned rotator puts the camera `distance` behind the shape along x |
| Frontend.ViewCoordinate | src/main/java/com/illuminai/vision/frontend/Render.java:299-300 | the click offset from the centre in units of the render size; `ViewCoordinateRange` states its range |
| Frontend.ViewCoordinateRange | src/main/java/com/illuminai/vision/frontend/Render.java:299-300 | clicks within the render size map into [-1/2, 1/2]; the value is 0 exactly at the centre |
| Frontend.Render.constructor | src/main/java/com/illuminai/vision/frontend/Render.java:72-88 | not paused, one sample, no rotator, no selection, a blank kept frame, an averager of one buffer |
| Frontend.Render.ApplySettings | src/main/java/com/illuminai/vision/frontend/Render.java:104-108 | afterwards the averager holds as many buffers as the settings ask for; its buffers are kept when the count already matched |
| Frontend.Render.RenderSamples | src/main/java/com/illuminai/vision/frontend/Render.java:115-117 | every slot 0..amount-1 holds its sample, as `Samples` defines it |
| Frontend.Render.DrawTempScreen | src/main/java/com/illuminai/vision/frontend/Render.java:123 | the display shows the kept frame drawn over the previous display |
| Frontend.Render.DrawOutline | src/main/java/com/illuminai/vision/frontend/Render.java:127-144 | the display after the nested x/y loops is exactly `OutlinePass` of the display before it |
| Frontend.Render.DrawOutlineColumn | src/main/java/com/illuminai/vision/frontend/Render.java:133-142 | one pass of the inner loop advances the scan by one column |
| Frontend.Render.RenderFrame | src/main/java/com/illuminai/vision/frontend/Render.java:110-125 | the sample count is applied. Unpaused, the slots hold the samples and their average is drawn on the kept frame. Paused, the kept frame is untouched, and so are the slots when the sample count did not change. The display becomes the outline pass over the kept frame |
| Frontend.Render.KeyPressed | src/main/java/com/illuminai/vision/frontend/Render.java:282-290 | R switches the rotator between absent and a fresh unturned one at distance 1; other keys and the other fields are unchanged |
| Frontend.Render.MouseClicked | src/main/java/com/illuminai/vision/frontend/Render.java:297-308 | a primary click selects the picked shape, or none when nothing is hit; other buttons change nothing |
| Frontend.ToggleTwice | src/main/java/com/illuminai/vision/frontend/Render.java:283-289 | pressing R twice leaves the rotator switched on or off as it was |

## Left out

- The HUD text, `FontCreator` and the scaled text overlay (Render.java:146-159): display plumbing.
- Frame timing with `System.currentTimeMillis` (Render.java:113, 121): clocks are outside the model.
- `tick`'s key polling (Render.java:166-239), `Actor`, `setMode` and the settings accessors: input handling and state outside the core.
- I/O and the AWT event dispatch are not modelled. Only the state effects of `keyPressed` and `mouseClicked` are.
- The ray tracer, the camera and `ScreenAverager` are not part of this model. They enter as parameters:
  - `renderScene` renders a frame at a jitter;
  - `average` stands for `calculateAverage`;
  - `outline`, `w` and `h` stand for `getOutliner` and the render size;
  - `pick` stands for `getRay` followed by `getIntersection`;
  - `rotate` stands for the `Matrix3x3` rotation.
- Camera moves are not performed. `Command.ExecuteCommand` returns the move it would make.
- The camera rotation and position read at Render.java:248-249 are unused by the source and are left out.
- `Math.random` is a parameter `random`, whose i-th value is the i-th draw.
- `Double.parseDouble` is a parameter `parse`. It returns `None` where the source throws `NumberFormatException`.
- Exceptions are modelled as `Failure` values:
  - an out-of-range token index is `MissingToken`;
  - the two `RuntimeException`s are `InvalidParameter` and `UnknownCommand`.
- IEEE-754 rounding, infinities and NaN are not modelled: `double` is `real`, and `Math.PI` is its decimal expansion.
- `Math.sqrt` is a parameter that every lemma needing its value assumes lawful.
- `Screen.drawScreen` is not part of this model. 2-D compositing at (0, 0) is modelled flat as `DrawnOver`, on the assumption that the two screens have the same width. Clipping between screens of different widths is not modelled.
- `Settings` holds a `nat` sample count: a negative count, which would fail when the buffers are allocated, cannot be represented.
- The averager's fresh buffers hold unspecified frames until they are rendered. The source's blank screens of the display's size are not modelled.
- Frontend.Render.DrawOutline: requires both the id buffer and the display to hold at least `w·h` entries, and that the two are distinct arrays. `Screen.setPixel` is not part of this model, so its behaviour on a smaller display is not captured.
- Frontend.Render.MouseClicked: requires a positive render width and height. The source would divide by zero there and pass infinities or NaN on.
- SphereShape.AwayRayNegativeTime: also requires a non-zero direction. That requirement excludes no input, because b > 0 already rules out the zero direction, which gives b = 0.
- The `Shape` base class is represented only by the position field, and by the id and position the renderer reads. How ids are assigned is not part of this model.

## Findings

| source | as written | input that shows it | evidently intended | confidence | as-written member | corrected member |
|---|---|---|---|---|---|---|
| src/main/java/ch/herzog/lighthouse/scene/shape/Sphere.java:56 | `(-b - Math.sqrt(discriminant)) / 2.0 * a` computes `((-b - √disc) / 2) · a` | sphere at (2,3,4), radius 1; ray from (1/3,-1/3,2/3) along (2/3,4/3,4/3): a = 4, time 32, whose point lies at squared distance 3481 from the centre | `(-b - √disc) / (2a)`: time 2, on the surface | proved, not executed | SphereShape.AsWrittenTimeOffSurface | SphereShape.Sphere.GetIntersectionCorrected |
