# Phase space visualizer — a Dafny model of its simulation and rasterizer core

The program animates balls bouncing inside a circular arena and draws them into a
400×400 RGBA frame buffer. This project models its core over mathematical reals:

- `RealOps` (`real_ops.dfy`): the `f64` operations the program relies on —
  `powi(2)`, `floor`, `ceil`, `round` (halfway cases away from zero), the float-to-`usize`
  cast, and a square root taken as a parameter that satisfies `IsSqrt`.
- `Geometry` (`geometry.dfy`): the value types `Vec2`, `Circle` and `Range`, with
  `dot_product`, `reflect`, `Circle::new` and `map_to_range`.
- `Raster` (`raster.dfy`): `clear_frame`, `set_pixel` and `draw_circle` as methods that update
  an `array<byte>` in place. The frame is row-major with 4 bytes per pixel. Each method states
  the new value of every byte of the frame.
- `Simulation` (`simulation.dfy`): the class `BallSimulation`, with its constructor and
  `update`. `update` is specified by the function `Step`, whose contract carries the physics
  (semi-implicit Euler, reflection off the wall, containment). The module also has the
  ball-per-pixel setup loop shared by scenes 3, 4 and 5, specified by the sequence
  `InteriorPoints`.

`DrawCircle` returns the scan's `pixel_count` as an out-parameter, so that its value can be
stated. The Rust function keeps the counter local.

## Model

| member | source | states |
|---|---|---|
| RealOps.Square | src/main.rs:124 | `powi(2)` is never negative |
| RealOps.Floor | src/main.rs:53 | `floor` gives the largest integer not above its argument |
| RealOps.Ceil | src/main.rs:50-56 | `ceil` gives the smallest integer not below its argument |
| RealOps.Round | src/main.rs:49 | `round` lies within 0.5 of its argument; a halfway case moves away from zero |
| RealOps.ToUsize | src/main.rs:49-56 | the float-to-`usize` cast keeps non-negative integral values and sends negative ones to 0 |
| Geometry.DotSymmetric | src/main.rs:99-101 | the dot product is symmetric |
| Geometry.Reflect | src/main.rs:103-109 | for a unit normal, reflection negates the normal component and keeps the squared length |
| Geometry.ReflectKeepsTangent | src/main.rs:103-109 | reflection leaves every component orthogonal to the normal unchanged |
| Geometry.ReflectInvolution | src/main.rs:103-109 | reflecting twice about a unit normal gives back the original vector |
| Geometry.NewCircle | src/main.rs:119-126 | `Circle::new` keeps centre and radius; `radius_squared` is the square of the radius, so the hit test is "squared distance below radius squared" |
| Geometry.MapToRange | src/main.rs:38-40 | `from.start` maps to `to.start`, `from.end` maps to `to.end`, and the map is proportional in between |
| Geometry.MapToRangeRoundTrip | src/main.rs:38-40 | mapping `from → to` and then `to → from` returns the original value |
| Geometry.MapToRangeMonotonic | src/main.rs:38-40 | for ranges in the same direction (both increasing, or both decreasing) the map preserves order |
| Geometry.MapToRangeWithin | src/main.rs:38-40 | a value inside `from` lands inside `to` |
| Raster.PixelBytes | src/main.rs:88 | the 4 bytes of an on-screen pixel `(y*W+x)*4 .. +4` lie in the frame and belong to that pixel |
| Raster.BytePixel | src/main.rs:12-13 | every byte of a full frame belongs to exactly one on-screen pixel |
| Raster.CopyColor | src/main.rs:89 | `copy_from_slice` writes the colour into bytes `index .. index+4` and no other byte |
| Raster.PutPixel | src/main.rs:65-66 | writing pixel `(row, col)` changes exactly its 4 bytes, to the colour |
| Raster.ClearFrame | src/main.rs:42-46 | every complete 4-byte chunk becomes the colour; a trailing partial chunk is left alone |
| Raster.SetPixel | src/main.rs:83-90 | an off-screen pixel leaves the frame unchanged; otherwise exactly the pixel's 4 bytes become the colour |
| Raster.DrawCircle | src/main.rs:48-81 | every write stays in the frame; exactly the painted pixels (scan hits, or the fallback pixel) change, to the colour; `pixel_count` is zero iff the scan hit nothing (with `BoxHitsZero`), which is the only use the source makes of it |
| Raster.RowHitsZero | src/main.rs:59-69 | a row's hit count is zero iff no scanned column of that row is inside the circle |
| Raster.BoxHitsZero | src/main.rs:58-70 | `pixel_count` is zero iff no scanned pixel is inside the circle |
| Raster.ScanIsDisk | src/main.rs:49-70 | for a circle from `Circle::new` with a non-negative radius, the clipped bounding box loses nothing: the scan writes exactly the on-screen pixels whose centre is strictly inside |
| Raster.FallbackOnlyWhenScanEmpty | src/main.rs:72-80 | the fallback runs only when the scan wrote nothing |
| Raster.CentreOnScreenIsVisible | src/main.rs:72-80 | a circle whose rounded centre is on screen always paints at least one pixel |
| Raster.ScanMissPaintsRoundedCentre | src/main.rs:48-81 | a circle containing no on-screen pixel centre leaves `pixel_count` at zero and paints exactly the pixel of its rounded centre, and that only when it is on screen |
| Raster.SubPixelDiskPaintsOnePixel | src/main.rs:48-81 | the radius-0.3 disk at (10.4, 20.7) paints exactly pixel (row 21, column 10) |
| Simulation.Euler | src/main.rs:146-151 | the velocity takes `a*dt` first, then the centre moves by the new velocity times `dt`; that the field-by-field code does exactly this, in this order, is `BallSimulation.Update`'s first ensures |
| Simulation.UnitNormal | src/main.rs:157-162 | the divisor is positive, so the division cannot be by zero, and the normal is a unit vector |
| Simulation.AlongUnit | src/main.rs:166-169 | the corrected centre lies at squared distance `(R-r)²` from the arena centre |
| Simulation.Bounce | src/main.rs:157-169 | for an overshoot offset of positive length, the clamped centre lies on the limit circle, on the line of the offset, on its side for a non-negative limit and opposite it for a negative one; the reflected velocity keeps its speed and tangential component and flips its component along the offset |
| Simulation.Step | src/main.rs:146-171 | the ball always ends within `R-r` of the arena centre; with no overshoot the Euler result stands; with overshoot the ball lands on the limit circle, its speed is kept and its velocity's component along the outward offset is negated |
| Simulation.StepIsSpecular | src/main.rs:157-170 | on overshoot the bounce is specular (the velocity's component tangent to the wall is kept) and the ball is put back along its own outward direction: on the line through the arena centre and the overshot position, on the same side when `R-r >= 0` and on the opposite side when `R-r < 0` |
| Simulation.BallSimulation.constructor | src/main.rs:137-144 | the fields are the arguments and `initial_position` is the ball's centre |
| Simulation.BallSimulation.Update | src/main.rs:146-171 | the ball's centre and the velocity become `Step` of the old ones; arena, ball radius, radius squared and initial position are unchanged; afterwards the ball is contained |
| Simulation.SingleBallFirstStep | src/main.rs:204-220 | the first step of the single-ball scene moves the ball to (201, 200.098) with velocity (10, 0.98), without reflection |
| Simulation.RowInteriorFacts | src/main.rs:318-329 | one row of the setup yields exactly that row's interior pixel centres, in column order |
| Simulation.GridInteriorFacts | src/main.rs:317-330 | the rows before `m` yield exactly their interior pixel centres, in row-major order |
| Simulation.InteriorPointsExact | src/main.rs:316-330 | the setup's positions are exactly the on-screen integer points strictly inside the arena, each once, in row-major order |
| Simulation.BallPerPixel | src/main.rs:316-330 | one fresh, distinct simulation per interior point, in creation order: the ball has radius 1 at that point, zero velocity and the arena |

## Left out

- Scene dispatch in `main` (src/main.rs:23-36) and `initialize_scene` (src/main.rs:174-198): window creation and argument parsing.
- The `event_loop.run` closures of every scene: event handling, `request_redraw` and `pixels.render()`. The model has the operations they call (`update`, `clear_frame`, `draw_circle`) but not the loop around them.
- The colour mapping of scenes 4 and 5 (`map_to_range` followed by saturating `as u8` casts). `map_to_range` itself is modelled; the casts are not.
- The ten-ball setup of scene 2. It is a plain loop of `BallSimulation::new` calls with different initial velocities.
- IEEE-754 behaviour: rounding error, NaN and infinities. Everything is over exact reals, so statements such as `Step`'s containment hold for the real-number algorithm, not bit for bit.
- `f64::sqrt` is a parameter that must satisfy `IsSqrt` (a non-negative square root). Dafny has no real square root.
- RealOps.ToUsize: does not saturate at `usize::MAX`. In `draw_circle` the upper bounds are first clamped to 400, and a row or column start beyond `usize::MAX` would need a centre beyond 1.8e19.
- Raster.DrawCircle: the rounded centre's `as i32` cast is a plain integer. A saturated value fails the on-screen test just as the exact one does, so the outcome is the same.
- Raster.DrawCircle: requires a frame of exactly `W*H*4` bytes. The Rust code panics when a written pixel's bytes lie past the end of a shorter slice, and accepts a longer slice; the model requires the exact length every call site passes (`pixels.frame_mut()` of a 400×400 `Pixels`).
- Raster.SetPixel: requires a frame of exactly `W*H*4` bytes. The Rust code returns before indexing for an off-screen pixel, panics when an on-screen pixel's bytes lie past the end of a shorter slice, and accepts a longer slice; the model requires the exact length every call site passes.
- Geometry.MapToRange: requires `from.end != from.start`. With `f64`, a degenerate range divides by zero and yields NaN or an infinity, which the real model cannot represent.
- Geometry.Reflect: its guarantees are stated for unit normals only. The program passes only the unit normal computed in `update`.
- Multi-step dynamics: no claim is made about trajectories over many steps, beyond each step keeping the ball contained.
