/** The frontend renderer: its frame loop over the sample buffers, the HUD's
    selection outline, the orbiting camera of the R key, and shape picking
    with the mouse. The ray tracer, the camera, `Math.random` and the sample
    averaging are not part of this model; they enter as parameters, and the
    camera placements are returned instead of being set. */
module Frontend {
  import opened Wrappers
  import opened Geometry
  import opened Outline

  /** A frame of 0xRRGGBB pixels, row after row. */
  type Frame = seq<int>

  /** What the renderer uses of a scene shape: its id in the ray tracer's
      id buffer and its position. */
  datatype Shape = Shape(id: int, position: Point3d)

  datatype Settings = Settings(pause: bool, samples: nat)

  /** Where a camera is put: its rotation angles and its position. */
  datatype Pose = Pose(rotation: Vector3d, position: Point3d)

  /** Key code of the R key, and the primary mouse button. */
  const VK_R: int := 82
  const BUTTON1: int := 1

  /** `Math.PI`, as a decimal. */
  const PI: real := 3.141592653589793

  // ---------------------------------------------------------------------
  // Sampling

  /** The sub-pixel jitter of sample `i` out of `n`: the `i`-th random draw,
      except for the last sample, which is rendered without jitter. */
  function Jitter(random: nat -> real, n: nat, i: nat): real {
    if i == n - 1 then 0.0 else random(i)
  }

  /** The `n` frames one pass of sampling renders. */
  function Samples(renderScene: real -> Frame, random: nat -> real, n: nat): (r: seq<Frame>)
    ensures |r| == n
  {
    seq(n, i requires 0 <= i < n => renderScene(Jitter(random, n, i)))
  }

  /** The last sample is the unjittered frame, and every other one is
      rendered at a draw of the random source, in the order of the samples. */
  lemma SamplesJitter(renderScene: real -> Frame, random: nat -> real, n: nat)
    requires n >= 1
    ensures Samples(renderScene, random, n)[n - 1] == renderScene(0.0)
    ensures forall i :: 0 <= i < n - 1 ==> Samples(renderScene, random, n)[i] == renderScene(random(i))
  {
    assert Samples(renderScene, random, n)[n - 1] == renderScene(Jitter(random, n, n - 1));
    forall i | 0 <= i < n - 1
      ensures Samples(renderScene, random, n)[i] == renderScene(random(i))
    {
      assert Samples(renderScene, random, n)[i] == renderScene(Jitter(random, n, i));
    }
  }

  /** `drawScreen(0, 0, src)` on a buffer of the same width: the pixels of
      `src` replace those of `dst` that they cover. */
  function DrawnOver(dst: seq<int>, src: seq<int>): (r: seq<int>)
    ensures |r| == |dst|
  {
    seq(|dst|, k requires 0 <= k < |dst| => if k < |src| then src[k] else dst[k])
  }

  /** A source at least as long as the target covers it entirely; a shorter
      one covers its own length and leaves the rest of the target; drawing
      the same source a second time changes nothing more. */
  lemma DrawnOverCovers(dst: seq<int>, src: seq<int>)
    ensures |src| >= |dst| ==> DrawnOver(dst, src) == src[..|dst|]
    ensures |src| <= |dst| ==> DrawnOver(dst, src) == src + dst[|src|..]
    ensures DrawnOver(DrawnOver(dst, src), src) == DrawnOver(dst, src)
  {
  }

  // ---------------------------------------------------------------------
  // The sample buffers

  /** The buffers of the samples that are averaged into one frame. */
  class Averager {
    var screens: array<Frame>

    constructor (amount: nat)
      ensures screens.Length == amount && fresh(screens)
    {
      screens := new Frame[amount];
    }

    function Amount(): nat
      reads this
    {
      screens.Length
    }

    /** New buffers, `amount` of them. */
    method SetAmount(amount: nat)
      modifies this
      ensures Amount() == amount && fresh(screens)
    {
      screens := new Frame[amount];
    }
  }

  // ---------------------------------------------------------------------
  // The orbiting camera

  /** The pitch as the camera receives it: shifted by one half-turn when it
      is beyond a half-turn either way. */
  function WrapPitch(angle: real): real {
    if angle > PI then angle - PI else if angle < -PI then angle + PI else angle
  }

  /** A pitch within a half-turn is kept, and one within a full turn is
      brought within a half-turn. */
  lemma WrapPitchRange(angle: real)
    ensures -PI <= angle <= PI ==> WrapPitch(angle) == angle
    ensures -2.0 * PI <= angle <= 2.0 * PI ==> -PI <= WrapPitch(angle) <= PI
  {
  }

  /** A camera that circles the selected shape at `distance`, turned by
      `angleY` and `angleZ`. */
  class FixRotator {
    var angleZ: real
    var angleY: real
    var distance: real

    /** One unit away, unturned. */
    constructor ()
      ensures angleZ == 0.0 && angleY == 0.0 && distance == 1.0
    {
      angleZ := 0.0;
      angleY := 0.0;
      distance := 1.0;
    }

    method AddZ(angle: real)
      modifies this
      ensures angleZ == old(angleZ) + angle
      ensures angleY == old(angleY) && distance == old(distance)
    {
      angleZ := angleZ + angle;
    }

    method AddY(angle: real)
      modifies this
      ensures angleY == old(angleY) + angle
      ensures angleZ == old(angleZ) && distance == old(distance)
    {
      angleY := angleY + angle;
    }

    method FactorDistance(f: real)
      modifies this
      ensures distance == old(distance) * f
      ensures angleZ == old(angleZ) && angleY == old(angleY)
    {
      distance := distance * f;
    }

    /** The camera placement `apply` sets: none without a selected shape;
        otherwise the camera sits at the shape's position plus the offset
        `(-distance, 0, 0)` turned about y by `angleY` and then about z by
        `angleZ`, and faces by the wrapped pitch and the yaw `angleZ`.
        `rotate(axis, angle, v)` is the rotation matrix's action on `v`. */
    function Apply(selected: Option<Shape>, rotate: (char, real, Vector3d) -> Vector3d): (r: Option<Pose>)
      reads this
      ensures r.Some? <==> selected.Some?
      ensures r.Some? ==> r.value.rotation == Vector3d(0.0, WrapPitch(angleY), angleZ)
    {
      match selected
      case None => None
      case Some(shape) =>
        var offset := rotate('z', angleZ, rotate('y', angleY, Vector3d(-distance, 0.0, 0.0)));
        Some(Pose(Vector3d(0.0, WrapPitch(angleY), angleZ), shape.position.Translate(offset)))
    }
  }

  /** The camera stays at `distance` from the selected shape, however it is
      turned, when `rotate` keeps lengths as a rotation does. */
  lemma OrbitDistance(rot: FixRotator, shape: Shape, rotate: (char, real, Vector3d) -> Vector3d)
    requires forall axis: char, angle: real, u: Vector3d :: rotate(axis, angle, u).SquaredLength() == u.SquaredLength()
    ensures rot.Apply(Some(shape), rotate).Some?
    ensures Between(shape.position, rot.Apply(Some(shape), rotate).value.position).SquaredLength()
         == rot.distance * rot.distance
  {
    var offset := rotate('z', rot.angleZ, rotate('y', rot.angleY, Vector3d(-rot.distance, 0.0, 0.0)));
    BetweenTranslate(shape.position, offset);
    TurnedOffsetLength(rotate, rot.angleZ, rot.angleY, rot.distance);
  }

  lemma TurnedOffsetLength(rotate: (char, real, Vector3d) -> Vector3d, angleZ: real, angleY: real, distance: real)
    requires forall axis: char, angle: real, u: Vector3d :: rotate(axis, angle, u).SquaredLength() == u.SquaredLength()
    ensures rotate('z', angleZ, rotate('y', angleY, Vector3d(-distance, 0.0, 0.0))).SquaredLength()
         == distance * distance
  {
    var v := Vector3d(-distance, 0.0, 0.0);
    var turned := rotate('y', angleY, v);
    assert turned.SquaredLength() == v.SquaredLength();
    assert rotate('z', angleZ, turned).SquaredLength() == turned.SquaredLength();
  }

  /** An unturned rotator, with rotations by zero that change nothing, puts
      the camera `distance` behind the shape along x, facing along x. */
  lemma UnturnedPlacement(rot: FixRotator, shape: Shape, rotate: (char, real, Vector3d) -> Vector3d)
    requires rot.angleZ == 0.0 && rot.angleY == 0.0
    requires forall axis: char, u: Vector3d :: rotate(axis, 0.0, u) == u
    ensures rot.Apply(Some(shape), rotate)
         == Some(Pose(Vector3d(0.0, 0.0, 0.0), shape.position.Translate(Vector3d(-rot.distance, 0.0, 0.0))))
  {
    var v := Vector3d(-rot.distance, 0.0, 0.0);
    assert rotate('y', 0.0, v) == v;
    assert rotate('z', 0.0, v) == v;
  }

  // ---------------------------------------------------------------------
  // Picking

  /** The view coordinate of pixel `p` along an axis of `size` pixels:
      relative to the centre, in units of the whole axis. */
  function ViewCoordinate(p: int, size: real): real
    requires size > 0.0
  {
    (p as real - size / 2.0) / size
  }

  /** Dividing by a positive number keeps order. */
  lemma DivMonotone(a: real, b: real, s: real)
    requires s > 0.0 && a <= b
    ensures a / s <= b / s
  {
  }

  lemma HalfOverWhole(s: real)
    requires s > 0.0
    ensures (s / 2.0) / s == 0.5 && (-s / 2.0) / s == -0.5
  {
    assert 0.5 * s == s / 2.0;
  }

  /** Pixels across the axis map into [-1/2, 1/2], and the centre to 0. */
  lemma ViewCoordinateRange(p: int, size: real)
    requires size > 0.0
    ensures 0.0 <= p as real <= size ==> -0.5 <= ViewCoordinate(p, size) <= 0.5
    ensures ViewCoordinate(p, size) == 0.0 <==> p as real == size / 2.0
  {
    var offset := p as real - size / 2.0;
    if 0.0 <= p as real <= size {
      DivMonotone(-size / 2.0, offset, size);
      DivMonotone(offset, size / 2.0, size);
      HalfOverWhole(size);
    }
  }

  // ---------------------------------------------------------------------
  // The outline loop

  /** The scan has reached column `x`, row `y`: pixel `j` comes before. */
  ghost predicate Before(w: nat, j: int, x: int, y: int) {
    w > 0 && (j % w < x || (j % w == x && j / w < y))
  }

  /** The buffer once the outline scan has reached column `x`, row `y`. */
  ghost function Scanned(pixels: seq<int>, ids: seq<int>, w: nat, h: nat, selected: Option<int>, x: int, y: int): seq<int>
    requires |ids| >= w * h
  {
    seq(|pixels|, j requires 0 <= j < |pixels| =>
      if Before(w, j, x, y) && Painted(ids, w, h, selected, j) then MAGENTA else pixels[j])
  }

  lemma ScanStart(pixels: seq<int>, ids: seq<int>, w: nat, h: nat, selected: Option<int>)
    requires |ids| >= w * h
    ensures Scanned(pixels, ids, w, h, selected, 1, 1) == pixels
  {
  }

  /** One scanned pixel: `(x, y)` is painted when it is on the silhouette. */
  lemma ScanStep(pixels: seq<int>, ids: seq<int>, w: nat, h: nat, id: int, x: int, y: int)
    requires |ids| >= w * h && |pixels| >= w * h
    requires Interior(w, h, x, y)
    ensures 0 <= x + y * w < |pixels|
    ensures Scanned(pixels, ids, w, h, Some(id), x, y + 1)
         == if OnSilhouette(ids, w, h, id, x, y)
            then Scanned(pixels, ids, w, h, Some(id), x, y)[x + y * w := MAGENTA]
            else Scanned(pixels, ids, w, h, Some(id), x, y)
  {
    var i := x + y * w;
    NeighboursInBounds(w, h, x, y);
    IndexCoordinates(w, x, y);
    var next := Scanned(pixels, ids, w, h, Some(id), x, y + 1);
    var prev := Scanned(pixels, ids, w, h, Some(id), x, y);
    var expected := if OnSilhouette(ids, w, h, id, x, y) then prev[i := MAGENTA] else prev;
    forall j | 0 <= j < |pixels|
      ensures next[j] == expected[j]
    {
      CoordinatesIndex(w, j);
    }
  }

  /** A finished column: the scan moves on to the next one. */
  lemma ColumnDone(pixels: seq<int>, ids: seq<int>, w: nat, h: nat, selected: Option<int>, x: int, y: int)
    requires |ids| >= w * h
    requires 1 <= y && h - 1 <= y
    ensures Scanned(pixels, ids, w, h, selected, x, y) == Scanned(pixels, ids, w, h, selected, x + 1, 1)
  {
  }

  /** A finished scan is the outline pass. */
  lemma ScanEnd(pixels: seq<int>, ids: seq<int>, w: nat, h: nat, selected: Option<int>, x: int)
    requires |ids| >= w * h
    requires w - 1 <= x
    ensures Scanned(pixels, ids, w, h, selected, x, 1) == OutlinePass(pixels, ids, w, h, selected)
  {
  }

  // ---------------------------------------------------------------------
  // The renderer

  class Render {
    /** The displayed buffer. */
    const renderOn: array<int>
    /** The last averaged frame, redrawn while the rendering is paused. */
    var tempScreen: Frame
    const averager: Averager
    var settings: Settings
    var rot: FixRotator?
    var selectedShape: Option<Shape>

    /** Not paused, one sample, no rotator and no selection. */
    constructor (renderOn: array<int>)
      ensures this.renderOn == renderOn
      ensures settings == Settings(false, 1) && rot == null && selectedShape == None
      ensures tempScreen == seq(renderOn.Length, _ => 0)
      ensures fresh(averager) && fresh(averager.screens) && averager.Amount() == 1
    {
      this.renderOn := renderOn;
      settings := Settings(false, 1);
      rot := null;
      tempScreen := seq(renderOn.Length, _ => 0);
      averager := new Averager(1);
      selectedShape := None;
    }

    /** The id the outline is drawn for. */
    function SelectedId(): Option<int>
      reads this
    {
      match selectedShape
      case None => None
      case Some(shape) => Some(shape.id)
    }

    /** The averager holds as many buffers as the settings ask for; they are
        replaced only when that number changes. */
    method ApplySettings()
      modifies averager
      ensures averager.Amount() == settings.samples
      ensures old(averager.Amount()) == settings.samples ==> averager.screens == old(averager.screens)
      ensures old(averager.Amount()) != settings.samples ==> fresh(averager.screens)
    {
      if averager.Amount() != settings.samples {
        averager.SetAmount(settings.samples);
      }
    }

    /** Every buffer of the averager is rendered once, jittered by a random
        draw except for the last. */
    method RenderSamples(renderScene: real -> Frame, random: nat -> real)
      modifies averager.screens
      ensures averager.screens[..] == Samples(renderScene, random, averager.Amount())
    {
      var n := averager.Amount();
      var i := 0;
      while i < n
        invariant 0 <= i <= n
        invariant forall k :: 0 <= k < i ==> averager.screens[k] == renderScene(Jitter(random, n, k))
      {
        averager.screens[i] := renderScene(if i == n - 1 then 0.0 else random(i));
        i := i + 1;
      }
    }

    /** `renderOn.drawScreen(0, 0, tempScreen)`. */
    method DrawTempScreen()
      modifies renderOn
      ensures renderOn[..] == DrawnOver(old(renderOn[..]), tempScreen)
    {
      forall k | 0 <= k < renderOn.Length && k < |tempScreen| {
        renderOn[k] := tempScreen[k];
      }
    }

    /** The outline of the HUD: with a shape selected, each interior pixel of
        the `w`-by-`h` id buffer `outline` that carries the shape's id and
        has a neighbour that does not is painted magenta on the display. */
    method DrawOutline(outline: array<int>, w: nat, h: nat)
      requires outline != renderOn
      requires outline.Length >= w * h && renderOn.Length >= w * h
      modifies renderOn
      ensures renderOn[..] == OutlinePass(old(renderOn[..]), outline[..], w, h, SelectedId())
    {
      ghost var pixels := renderOn[..];
      ghost var ids := outline[..];
      if selectedShape.None? {
        NoSelectionNoChange(pixels, ids, w, h);
        return;
      }
      var id := selectedShape.value.id;
      ScanStart(pixels, ids, w, h, Some(id));
      var x := 1;
      while x < w - 1
        invariant 1 <= x && (x <= w - 1 || x == 1)
        invariant renderOn[..] == Scanned(pixels, ids, w, h, Some(id), x, 1)
      {
        DrawOutlineColumn(outline, w, h, id, x, pixels, ids);
        x := x + 1;
      }
      ScanEnd(pixels, ids, w, h, Some(id), x);
    }

    /** Column `x` of the outline scan, rows 1 to `h - 2`. */
    method DrawOutlineColumn(outline: array<int>, w: nat, h: nat, id: int, x: int,
                             ghost pixels: seq<int>, ghost ids: seq<int>)
      requires outline != renderOn && ids == outline[..]
      requires outline.Length >= w * h && renderOn.Length >= w * h && |pixels| == renderOn.Length
      requires 1 <= x < w - 1
      requires renderOn[..] == Scanned(pixels, ids, w, h, Some(id), x, 1)
      modifies renderOn
      ensures renderOn[..] == Scanned(pixels, ids, w, h, Some(id), x + 1, 1)
    {
      var y := 1;
      while y < h - 1
        invariant 1 <= y && (y <= h - 1 || y == 1)
        invariant renderOn[..] == Scanned(pixels, ids, w, h, Some(id), x, y)
      {
        var i := x + y * w;
        ScanStep(pixels, ids, w, h, id, x, y);
        NeighboursInBounds(w, h, x, y);
        if outline[i] == id {
          if outline[i - 1] != id || outline[i + 1] != id || outline[i + w] != id || outline[i - w] != id {
            renderOn[i] := MAGENTA;
          }
        }
        y := y + 1;
      }
      ColumnDone(pixels, ids, w, h, Some(id), x, y);
    }

    /** One frame: the sample count is applied; unless paused, the samples
        are rendered and their average is drawn over the kept frame; the kept
        frame is drawn on the display and the outline painted over it. */
    method RenderFrame(renderScene: real -> Frame, random: nat -> real, average: seq<Frame> -> Frame,
                       outline: array<int>, w: nat, h: nat)
      requires outline != renderOn
      requires outline.Length >= w * h && renderOn.Length >= w * h
      modifies this, averager, averager.screens, renderOn
      ensures settings == old(settings) && rot == old(rot) && selectedShape == old(selectedShape)
      ensures averager.Amount() == settings.samples
      ensures !settings.pause ==> averager.screens[..] == Samples(renderScene, random, settings.samples)
                                  && tempScreen == DrawnOver(old(tempScreen), average(averager.screens[..]))
      ensures settings.pause ==> tempScreen == old(tempScreen)
      ensures settings.pause && old(averager.Amount()) == settings.samples ==>
                averager.screens == old(averager.screens) && averager.screens[..] == old(averager.screens[..])
      ensures renderOn[..] == OutlinePass(DrawnOver(old(renderOn[..]), tempScreen), outline[..], w, h, SelectedId())
    {
      ApplySettings();
      if !settings.pause {
        RenderSamples(renderScene, random);
        tempScreen := DrawnOver(tempScreen, average(averager.screens[..]));
      }
      DrawTempScreen();
      DrawOutline(outline, w, h);
    }

    /** R switches the orbiting camera on, unturned and one unit away, or
        off; any other key changes nothing. */
    method KeyPressed(code: int)
      modifies this
      ensures code == VK_R && old(rot) == null ==>
                rot != null && fresh(rot) && rot.angleZ == 0.0 && rot.angleY == 0.0 && rot.distance == 1.0
      ensures code == VK_R && old(rot) != null ==> rot == null
      ensures code != VK_R ==> rot == old(rot)
      ensures settings == old(settings) && selectedShape == old(selectedShape) && tempScreen == old(tempScreen)
    {
      if code == VK_R {
        if rot == null {
          rot := new FixRotator();
        } else {
          rot := null;
        }
      }
    }

    /** A primary click selects the shape that `pick` finds along the ray
        through the clicked pixel, or clears the selection when there is
        none; other buttons change nothing. */
    method MouseClicked(x: int, y: int, button: int, renderWidth: real, renderHeight: real,
                        pick: (real, real) -> Option<Shape>)
      requires renderWidth > 0.0 && renderHeight > 0.0
      modifies this
      ensures selectedShape == if button == BUTTON1
                               then pick(ViewCoordinate(x, renderWidth), ViewCoordinate(y, renderHeight))
                               else old(selectedShape)
      ensures settings == old(settings) && rot == old(rot) && tempScreen == old(tempScreen)
    {
      if button == BUTTON1 {
        selectedShape := pick(ViewCoordinate(x, renderWidth), ViewCoordinate(y, renderHeight));
      }
    }
  }

  /** Pressing R twice leaves the rotator switched on or off as it was. */
  method ToggleTwice(render: Render)
    modifies render
    ensures (render.rot == null) == old(render.rot == null)
  {
    render.KeyPressed(VK_R);
    render.KeyPressed(VK_R);
  }
}
