# A verified model of the kernel's hard parts

The kernel draws a small block world, lets a player pick and place blocks in it, shows a log in a
text box, and saves the world through an NVMe driver. This project models the parts of it where one
piece of code has to agree with a simple mathematical statement, and proves that it does.

| file | what it models |
|---|---|
| `ExtReal.dfy`, `Game.dfy`, `Voxel.dfy`, `Derail.dfy`, `Picking.dfy` | the ray through the block world: slab test, one cell per crossed grid plane; exactly what goes wrong with -0.0 and along a border; picking and placing |
| `Clip.dfy`, `ClipGrid.dfy`, `ClipConvex.dfy` | Sutherland-Hodgman clipping to a rectangle, the shoelace area, and clipping to a whole pixel grid |
| `Color.dfy`, `Raster.dfy`, `ThickLine.dfy` | colour bytes, the repeating 48-byte pattern, rectangles, the two-dimensional renderer and its lines of any thickness |
| `Line.dfy`, `Triangle.dfy`, `Raster3d.dfy`, `DepthOrder.dfy` | Bresenham lines and scanline triangles with a depth buffer, and the order in which they are drawn |
| `Nvme.dfy`, `NvmeStore.dfy`, `NvmeLiveness.dfy`, `Session.dfy` | the submission and completion rings with their device, the driver on top as a block store, when commands do succeed, and whole sessions of reads and writes |
| `Save.dfy` | the save file, and saving and loading through the block store |
| `Mesh.dfy`, `MeshTheorems.dfy` | the face-culled mesh of a world of any size |
| `Frames.dfy` | the physical frame allocator |
| `TextParser.dfy`, `TextContent.dfy`, `TextLayout.dfy`, `VisualLines.dfy`, `TextDrawing.dfy`, `TextBox.dfy`, `GlyphCache.dfy` | the escape parser, the text it stores, line wrapping, the partition of the text into visual lines, drawing and the cursor, the text box object, the glyph cache |
| `Wrappers.dfy`, `Reals.dfy`, `Bytes.dfy`, `DivMod.dfy` | options and results, functions on reals, byte sequences, integer division |

World, screen, ring and grid sizes are parameters throughout; nothing is a finite enumeration.
`f32` is exact real arithmetic. Where the original meets infinities (the reciprocal of a zero
direction component) numbers are extended with infinities and "not a number", and a zero keeps its sign.
Code that changes state in place is a class with `modifies` clauses or a method with loops, proved
against a function; the theorems are about that function.

Main results, and where the code falls short of what one would expect:

- **Ray traversal** yields every cell whose interior the ray meets within the limit, only cells it meets, none
  twice, in order, and at most X+Y+Z-2 of them; the picked block is the first solid one, and a block is never
  placed over a solid one. There are two exceptions, and `Derail.CompleteIff` is the exact condition over all rays:
  - A `-0.0` direction component on the y or z axis, met on an integer coordinate, makes the comparison cascade
    take the z axis at every step. Such a walk covers exactly the part of the ray in the column of its first cell
    (`Derail.StuckWalkCovers`) and can yield cells the ray does not meet (`Derail.StuckMeets`). As it runs in a
    plane between cells it meets no interior, so picking only goes wrong by finding such a cell
    (`Picking.PickedBlockIsFirst`).
  - A ray that slides along a border plane at coordinate 0, as from the default camera at the origin, yields
    nothing, although it touches the cells along the border; it meets no interior either
    (`Voxel.GrazingWalkIsEmpty`).
- **Clipping** conserves signed area up to an exact formula for the edges that take the EPSILON
  branch. For a convex polygon with no such edge at any line of the pixel grid, the overlap areas add up to its area,
  and to no more than that when it leaves the grid. Thick lines are the points within half the thickness of the line;
  exactly the pixels they cover at least by half are painted, of which, with no such edge, there are at most twice
  length times thickness.
- **Lines** are the nearest-pixel lines between the pixels that hold their end points; **triangles** cover exactly
  the pixels whose centres are inside.
  Exception: edges with a height of at most 0.000001 are skipped by the fill. With one skipped edge, what is
  painted in a row beyond the triangle's top or bottom is outside it, and in a row that the skipped edge
  itself crosses, what lies beyond the crossing (`Triangle.SkippedEdge`). With two or three skipped edges
  the triangle is a needle, and up to two rows can be painted from border to border
  (`Triangle.NeedleIsThin`, `Triangle.NeedlePaintsRows`, `Triangle.InsideByCrossings`).
- **NVMe rings** deliver exactly once and in order in every interleaving, even when the host submits on a full
  submission ring, which loses commands but no completion. A command reports a timeout exactly when none of the
  500,000,000 looks finds an answer, and otherwise the status of the first answer; every read of a session returns
  the last bytes written; and with a device that fails no command and gets round to fetching and finishing
  often enough, every possible request succeeds, and saving then loading is the identity. Exception: `wait` never
  looks at the command identifier, so after a timeout the next command is given the answer of the old one
  (`Nvme.NextAnswerIsOwnIffIdle`, `NvmeStore.AnswerAfterTimeout`).
- **Text box**: the text stored is exactly the printable bytes in order, each in the colour set last before it and
  on its line; incremental layout is greedy layout, the visual lines always partition the text, the
  colour escape round-trips. Exceptions: a log message that ends inside an unfinished command swallows the
  escape that restores the colour (`TextParser.LogLineRestores`); and the cursor index, documented as counting
  across all visual lines (text_box.rs:280), restarts on every logical line, so that the cursor is drawn as
  documented exactly when the conditions of `TextDrawing.CursorAsDocumented` hold.
- **Mesh**: every face between solid and air occurs exactly once, clockwise from outside; the discrete divergence
  theorem holds, and the mesh encloses the volume of the solid blocks.
- **Frames** are handed out at most once, all of them, and only usable ones.

Where code and documentation disagree the model follows the code: the cursor index above; and line spacing and
left padding, which the text box both counts twice (text_box.rs:326 with 341 and 478, and text_box.rs:425 with
440). The first makes lines stand at their documented distance exactly when there is no spacing
(`TextBox.TextBox.PitchAsDocumentedIff`), and together they break the promise of `min_dimensions` exactly when
`TextBox.TextBox.MinWidthFitsIff` and `TextBox.TextBox.MinHeightFitsIff` say; with the default padding of 10, a
box of the minimum width breaks some of the lines it is meant to hold.

## Model

| member | source | states |
|---|---|---|
| Voxel.SlabTest | kernel-core/src/game/camera.rs:61-77 | the slab test is exact: a ray point at a parameter of at least 0 lies in the world box, and the ray does not slide along a border at coordinate 0, if and only if the parameter lies between `tclose` and `tfar` |
| Voxel.EntryIsFinite | kernel-core/src/game/camera.rs:64-82 | whenever the walk goes past the slab test the entry parameter is a finite number and not negative |
| Voxel.EntryTracks | kernel-core/src/game/camera.rs:85-112 | unless the walk is stuck (see module `Derail`), the first cell holds the entry point, and there the loop invariant holds: each `t` is the distance to the next plane divided by the direction |
| Voxel.EntryIsComplete | kernel-core/src/game/camera.rs:74-96 | if any point of the ray within the limit lies in the box, and the ray does not slide along a border, the walk starts, no later than that point |
| Voxel.ChooseAxisIsLeast | kernel-core/src/game/camera.rs:165-175 | the comparison cascade picks a finite, smallest next crossing, even when x is not a number, or y while x does not move |
| Voxel.ChooseAxisTakesLast | kernel-core/src/game/camera.rs:165-175 | when several planes are nearest, the last axis among them, in the order x, y, z, is crossed |
| Voxel.AxisStay | kernel-core/src/game/camera.rs:22-26 | on one axis, the invariant holds all the way up to the next crossing |
| Voxel.AxisCross | kernel-core/src/game/camera.rs:150-160 | adding `delta` at a crossing gives the next crossing of the neighbouring cell |
| Voxel.AxisBeyond | kernel-core/src/game/camera.rs:152-159 | a step out of the grid on an axis means the ray has left the box for good |
| Voxel.StayTracks | kernel-core/src/game/camera.rs:140-176 | between two crossings the ray stays in the closed cube of the current cell |
| Voxel.CrossTracks | kernel-core/src/game/camera.rs:148-176 | one step of the iterator keeps the invariant at the crossing parameter, which is within the limit and lies in the new cell |
| Voxel.CrossEndsOutside | kernel-core/src/game/camera.rs:152-159 | when a step ends the walk, no later ray point within the limit lies in the box |
| Voxel.RunIsShort | kernel-core/src/game/camera.rs:140-176 | the walk terminates: the cells left are bounded by the distance to the far corner |
| Voxel.RunIsSound | kernel-core/src/game/camera.rs:140-176 | each further cell is in bounds and its closed cube meets the ray at its crossing parameter; the parameters never decrease nor exceed the limit |
| Voxel.RunFaces | kernel-core/src/game/camera.rs:161-162 | the reported face of a crossing looks back at the cell the ray came from |
| Voxel.RunIsComplete | kernel-core/src/game/camera.rs:140-176 | every ray point up to the limit or the border lies in the current cell or in one of those still to come, not later than its crossing parameter says |
| Voxel.WalkIsShort | kernel-core/src/game/camera.rs:48-178 | a world of X by Y by Z blocks yields at most X+Y+Z-2 cells |
| Voxel.WalkIsSound | kernel-core/src/game/camera.rs:48-178 | unless the walk is stuck, every yielded cell is in bounds and its closed cube meets the ray within the limit, at parameters that never decrease; `Derail.StuckMeets` has the rest |
| Voxel.WalkIsComplete | kernel-core/src/game/camera.rs:48-178 | unless the walk is stuck or the ray slides along a border at coordinate 0, every ray point in the world box within the limit lies in the closed cube of a yielded cell, and a point before cell n is entered lies in one of the first n; `Derail.CompleteIff` has the rest |
| Voxel.WalkInBounds | kernel-core/src/game/camera.rs:90-156 | every yielded cell of every usable ray is in bounds |
| Voxel.NoCellTwice | kernel-core/src/game/camera.rs:48-178 | no cell occurs twice in the walk of any usable ray |
| Voxel.GrazingWalkIsEmpty | kernel-core/src/game/camera.rs:64-77 | a ray that slides along a border plane at coordinate 0, as from the default camera, yields nothing, and no interior of a cell is on it |
| Voxel.WalkFaces | kernel-core/src/game/camera.rs:148-176 | each later cell plus the offset of its face is the cell before it |
| Voxel.WalkEntersThroughBorder | kernel-core/src/game/camera.rs:114-137 | a ray that starts outside enters through a border face: the neighbour across the reported face is out of bounds |
| Voxel.FirstFace | kernel-core/src/game/camera.rs:67-137 | the face of the first item, also for an eye inside the box, looks back along the axis whose slab is entered last, the first such axis if there are several |
| Picking.FirstSolidAt | kernel-core/src/game/camera.rs:286-291 | the search returns the first solid cell of the walk, with only air before it, or nothing when there is none |
| Picking.InteriorIsVisited | kernel-core/src/game/camera.rs:48-178 | on every usable ray, stuck and sliding ones too, each cell whose interior is met within the limit occurs in the walk, and before item n if it is met before item n is entered |
| Picking.MetIffItemIsMet | kernel-core/src/game/camera.rs:148-175 | the ray meets item k of its walk if and only if k is 0, the walk is not stuck, or the condition of `Derail.StuckMeets` holds |
| Picking.AirPrefix | kernel-core/src/game/camera.rs:286-291 | when the first n cells are air, no solid interior is met before cell n is entered, on every usable ray |
| Picking.PickedBlockIsFirst | kernel-core/src/game/camera.rs:272-292 | on every usable ray a hit is the first solid cell of the walk, and no solid interior is met before it; the ray meets the hit itself exactly when `ItemIsMet`; no hit means that no solid interior is met within the limit |
| Picking.PlacementTargetIsFree | kernel/src/main.rs:347-357 | the cell a block is placed into is never solid, except for an eye inside the box that picks the cell it stands in; beyond the first cell it is an in-bounds cell of the walk |
| Derail.StuckWalkCovers | kernel-core/src/game/camera.rs:100-104 | when y or z has a -0.0 component on an integer coordinate, a ray point in the box and within the limit lies in a yielded cell if and only if it lies in the column of the first cell |
| Derail.CompleteIff | kernel-core/src/game/camera.rs:100-175 | exactly when every ray point in the box within the limit lies in a yielded cell: a ray that slides along a border must not enter the other slabs within the limit; any other must miss the box, or not be stuck (or only on y while x does not move), or reach limit or border before it leaves the column of its entry cell |
| Derail.StuckMeets | kernel-core/src/game/camera.rs:148-175 | exactly which later cells of a stuck walk the ray meets: those entered before the ray leaves the column in x, or, when z does not move either, only the neighbour across a stuck z |
| Derail.NegativeZeroDerails | kernel-core/src/game/camera.rs:100-104 | looking along (-3/5, -0.0, 4/5) from (5/2, 4, 1/2), the walk misses a point of the ray and yields a cell the ray never touches |
| Voxel.VoxelTraverser.constructor | kernel-core/src/game/camera.rs:34-46 | a new traverser is the uninitialised state with the given ray |
| Voxel.VoxelTraverser.Next | kernel-core/src/game/camera.rs:48-178 | each call makes one step of the state machine in place and returns the head of the remaining walk |
| Picking.LookingAtSolidBlock | kernel-core/src/game/camera.rs:274-292 | returns the first solid item of the whole walk; `None` only when no solid interior is met within the limit |
| Clip.ClipPolygonGeneric | kernel-core/src/rendering/geometry.rs:62-95 | the loop with its running previous vertex builds the concatenation of what each edge contributes |
| Clip.PolygonArea | kernel-core/src/rendering/geometry.rs:98-110 | returns half the absolute shoelace sum for every polygon, so the early return for fewer than three vertices agrees with the sum |
| Clip.SmallPolygonsAreFlat | kernel-core/src/rendering/geometry.rs:99-101 | fewer than three vertices have shoelace sum zero |
| Clip.ClipSum | kernel-core/src/rendering/geometry.rs:62-95 | any edge quantity that vanishes on the clip line, summed around the clipped polygon, is the sum of what survives of each original edge |
| Clip.StripIsShoelace | kernel-core/src/rendering/geometry.rs:97-110 | around a closed polygon the shoelace sum equals the sum of (x_prev + x_curr - 2c)(y_curr - y_prev) for any c |
| Clip.EdgeConserved | kernel-core/src/rendering/geometry.rs:113-120 | edge by edge, the parts kept left and right of a line make up the edge, apart from the defect of a sliver edge |
| Clip.AreaSplits | kernel-core/src/rendering/geometry.rs:62-120 | for every polygon and vertical line, the signed areas of the two clips add up to the polygon's plus the exact defect of the edges that take the EPSILON branch, which is zero when there are none |
| Clip.AreaSplitsHorizontally | kernel-core/src/rendering/geometry.rs:122-130 | the same for horizontal lines |
| Clip.DefectIsTiny | kernel-core/src/rendering/geometry.rs:115-117 | the defect is at most EPSILON times the summed heights of the edges |
| Clip.ClipSwap | kernel-core/src/rendering/geometry.rs:112-130 | the horizontal clip is the vertical clip of the transposed polygon |
| Clip.ShoelaceSwap | kernel-core/src/rendering/geometry.rs:104-108 | transposing a polygon negates its signed area |
| Clip.CutIsBetween | kernel-core/src/rendering/geometry.rs:112-130 | in both branches a new vertex lies on the clip line and between the edge's end points on the other axis |
| Clip.ClipInside | kernel-core/src/rendering/geometry.rs:26-54 | a clip puts every vertex inside its own side and never breaks a side established before |
| Clip.ClipStaysInRect | kernel-core/src/rendering/geometry.rs:41-54 | after the four clips every vertex lies in the rectangle |
| Clip.OverlapAreaPolygonWithRect | kernel-core/src/rendering/geometry.rs:8-57 | with all its early returns, computes the area of the polygon clipped to the four sides |
| ClipGrid.ClipTwice | kernel-core/src/rendering/geometry.rs:41-47 | a clip at a border one unit further left changes neither the area nor the defect of a later clip |
| ClipGrid.ColumnsAddUp | kernel-core/src/rendering/geometry.rs:41-47 | the signed areas of a polygon's pixel columns add up to its signed area plus the defects on the grid lines |
| ClipGrid.PixelsAddUp | kernel-core/src/rendering/geometry.rs:41-54 | the signed areas of the pieces in all pixels of a grid add up to the signed area of any polygon in the grid, up to the exact defects |
| ClipConvex.ClipIsConvex | kernel-core/src/rendering/geometry.rs:59-95 | clipping a convex polygon gives a convex polygon of the same orientation |
| ClipConvex.ConvexArea | kernel-core/src/rendering/geometry.rs:97-110 | a convex polygon's shoelace sum has the sign of its orientation, so that the absolute value only fixes the sign |
| ClipConvex.FlatStaysFlat | kernel-core/src/rendering/geometry.rs:26-39 | clipping a convex polygon of no area leaves no area, so the early returns between the stages are right |
| ClipConvex.EarlyExitsAreRight | kernel-core/src/rendering/geometry.rs:18-56 | for any polygon without EPSILON edges the early exits change nothing: the result is half the absolute shoelace sum of all four clips |
| ClipConvex.OverlapIsShoelace | kernel-core/src/rendering/geometry.rs:8-57 | for a convex polygon without EPSILON edges the result is half the shoelace sum of the clipped polygon, with the sign of the polygon's orientation |
| ClipConvex.OverlapAreasAddUp | kernel-core/src/rendering/geometry.rs:8-57 | with no EPSILON edge at any grid line, the overlap areas of a convex polygon with all pixels of a grid that contains it add up to its area |
| ClipConvex.OverlapAreasAtMost | kernel-core/src/rendering/geometry.rs:8-57 | with no EPSILON edge at any grid line, the overlap areas of a convex polygon with all pixels of any grid, also one it leaves, add up to no more than its area |
| Color.WriteTo | kernel-core/src/rendering/color.rs:80-97 | writes the channel bytes of the format at the start of the chunk and leaves every other byte |
| Color.PixelLayout | kernel-core/src/rendering/color.rs:80-97 | which byte of a pixel is which channel in each format; the bytes behind the channels are zero |
| Color.GrayIsMean | kernel-core/src/rendering/color.rs:67-69 | the grey level is the mean of the channels, at most two levels too dark |
| Color.Build48BytePattern | kernel-core/src/rendering/color.rs:99-105 | the pattern holds whole zero-padded pixels as far as they fit into 48 bytes and zeros behind them |
| Color.PatternHasNoSeam | kernel-core/src/rendering/color.rs:99-105 | if the pixel size divides 48, the pattern repeated without end is the pixel repeated without end |
| Color.PatternSeamless | kernel-core/src/rendering/color.rs:99-105 | the repeated pattern is the repeated pixel if and only if the pixel size divides 48 or the pixel is all zeros |
| Raster.Rectangle.Intersection | kernel-core/src/rendering/renderer.rs:24-38 | the intersection contains exactly the common points; `None` exactly when there are none |
| Raster.RowSpan | kernel-core/src/rendering/renderer.rs:163-177 | the bytes of a run of pixels are exactly those whose pixel lies in the run |
| Raster.FillByteIsPixel | kernel-core/src/rendering/renderer.rs:150-180 | if the pixel size divides 48, what the fill writes into every byte of the area is the zero-padded pixel |
| Raster.Renderer.RenderPixel | kernel-core/src/rendering/renderer.rs:84-104 | writes only the channel bytes of that pixel, nothing outside the screen |
| Raster.Renderer.FillSlice48 | kernel-core/src/rendering/renderer.rs:44-56 | chunks and remainder together repeat the pattern over the slice and change no other byte |
| Raster.Renderer.FillSolid | kernel-core/src/rendering/renderer.rs:150-180 | writes exactly the bytes of the pixels in the area and on the screen; they are the zero-padded pixel when its size divides 48 |
| Raster.Renderer.Clear | kernel-core/src/rendering/renderer.rs:182-197 | fills the whole buffer with the pattern, which is the zero-padded pixel repeated when its size divides 48 |
| ThickLine.OutlineIsRectangle | kernel-core/src/rendering/renderer.rs:215-226 | the four corners are a convex polygon whose area is length times thickness |
| ThickLine.OutlineIsStroke | kernel-core/src/rendering/renderer.rs:215-226 | a point lies in the outline if and only if its foot on the line lies between start and end and it is at most half the thickness away from the line |
| ThickLine.NoOverlapBeyond | kernel-core/src/rendering/geometry.rs:8-57 | a polygon on the other side of a border of the rectangle has overlap area 0 |
| ThickLine.NothingOutsideBox | kernel-core/src/rendering/renderer.rs:228-241 | no pixel outside the rounded bounding box is covered at all, so that skipping them loses nothing |
| ThickLine.DrawLine | kernel-core/src/rendering/renderer.rs:199-265 | exactly the pixels of the screen that the line's rectangle covers at least by half are painted, in their channel bytes; nothing else changes |
| ThickLine.CoverageAddsUp | kernel-core/src/rendering/renderer.rs:245-255 | on a screen that holds the line, and with no EPSILON edge at any line of the pixel grid, the coverages of all pixels add up to length times thickness |
| ThickLine.PaintsFewPixels | kernel-core/src/rendering/renderer.rs:256-262 | with no EPSILON edge at any line of the pixel grid, at most twice length times thickness pixels are painted on any screen, also one that the line leaves |
| Line.ShareIsNearest | kernel-core/src/rendering/renderer.rs:336-343 | with i major and j minor moves, 2(j major - i minor) lies in [-major, major) exactly for the rounded j, so ties go one way |
| Line.LineEnds | kernel-core/src/rendering/renderer.rs:331-334 | the ideal pixel line starts and ends at the two end pixels |
| Line.StepOnTrack | kernel-core/src/rendering/renderer.rs:378-386 | one turn moves the major axis always and the minor axis when it is due |
| Line.NextPixel | kernel-core/src/rendering/renderer.rs:378-386 | from the error term of pixel k the two tests compute pixel k+1 of the ideal line and its error term |
| Line.TurnsToNext | kernel-core/src/rendering/renderer.rs:374-387 | each turn of the loop takes position and error term from one pixel of the ideal line to the next |
| Line.OnlyTheEnd | kernel-core/src/rendering/renderer.rs:374-376 | the loop stops after exactly max(dx, dy) steps, neither before nor after |
| Line.ErrorFits | kernel-core/src/rendering/renderer.rs:340-385 | for sides up to (2^31 - 1)/3 the error term, its double and its updates fit into 32 bits |
| Line.WithinHalfAPixel | kernel-core/src/rendering/renderer.rs:342-343 | every pixel of the line is within half a pixel of the ideal line |
| Raster3d.LineZEnds | kernel-core/src/rendering/renderer.rs:344-349 | the depth steps arrive at the depth of the end point |
| Raster3d.LineJoins | kernel-core/src/rendering/renderer.rs:331-334 | the line joins the pixels found by truncating the coordinates of its end points towards zero, to 32 bits |
| Raster3d.LinePaintsEnds | kernel-core/src/rendering/renderer.rs:331-374 | what is painted at the pixels of the two end points: their own depths, exactly where clip and screen allow it and nothing is nearer by 0.0001 |
| Raster3d.LinePaintsNearby | kernel-core/src/rendering/renderer.rs:331-387 | every pixel painted is drawable, between the end pixels, and within half a pixel of the straight line between them |
| Raster3d.LineOneMore | kernel-core/src/rendering/renderer.rs:356-372 | plotting pixel k extends the picture of the first k pixels to that of the first k+1, with the biased depth test |
| Raster3d.Renderer3d.FillLineThin | kernel-core/src/rendering/renderer.rs:297-389 | paints exactly the pixels of the ideal line that lie in clip and screen and pass the biased depth test, with their depths, and changes nothing else |
| Triangle.NarrowIsEdge | kernel-core/src/rendering/renderer.rs:495-510 | narrowing the span by an edge keeps exactly the points where the edge function is not negative |
| Triangle.DepthSteps | kernel-core/src/rendering/renderer.rs:470-477 | adding `dz_dx` is barycentric interpolation one pixel further right |
| Triangle.DepthAtVertices | kernel-core/src/rendering/renderer.rs:531-536 | the interpolated depth is the vertex depth at each vertex |
| Triangle.Barycentric | kernel-core/src/rendering/renderer.rs:533-536 | the three edge functions add up to the area and reproduce the row of the point |
| Triangle.NoCentreMissed | kernel-core/src/rendering/renderer.rs:452-527 | no pixel in clip and screen whose centre lies in the triangle is missed, whatever edges are skipped |
| Triangle.CoverageIsExact | kernel-core/src/rendering/renderer.rs:452-527 | without skipped edges exactly the pixels in clip and screen are painted whose centres satisfy all three edge functions |
| Triangle.SkippedEdge | kernel-core/src/rendering/renderer.rs:495-510 | exactly when a painted pixel is in the triangle although any one edge was skipped: in a row the edge spans, when the centre is on the inner side of its crossing; in every other row, when the row's centre lies between the highest and lowest vertex |
| Triangle.InsideByCrossings | kernel-core/src/rendering/renderer.rs:488-510 | the triangle is the inner side of all sloping edges between highest and lowest vertex, the fill asks for the inner side of the steep ones only |
| Triangle.NeedleIsThin | kernel-core/src/rendering/renderer.rs:452-466 | with fewer than two steep edges the triangle is at most 0.000002 high and two rows at most are visited |
| Triangle.NeedlePaintsRows | kernel-core/src/rendering/renderer.rs:486-529 | without a steep edge exactly the whole rows visited are painted, whatever part of them is in the triangle |
| Triangle.NeedleOverpaints | kernel-core/src/rendering/renderer.rs:497-498 | a needle ten pixels long paints its row from border to border of any area |
| Triangle.OverpaintIsOneRow | kernel-core/src/rendering/renderer.rs:497-498 | when all skipped edges are horizontal, a painted pixel is in the triangle if and only if its row's centre lies between the highest and lowest vertex |
| Triangle.FlatTopOverpaints | kernel-core/src/rendering/renderer.rs:497-498 | a concrete triangle with a flat top for which a pixel above it is painted |
| Raster3d.SpanIsRow | kernel-core/src/rendering/renderer.rs:512-529 | the rounded and clamped integer span holds exactly the pixels of the row inside the edges |
| Raster3d.Renderer3d.FillTriangle | kernel-core/src/rendering/renderer.rs:407-552 | paints exactly the covered pixels that are nearer than what is there, with their interpolated depths, and changes nothing else |
| DepthOrder.AfterIsMax | kernel-core/src/rendering/renderer.rs:542-547 | after any list of triangles each depth cell is the maximum of its start value and the covering depths, and the colour is that of a triangle at the maximum |
| DepthOrder.OrderDoesNotMatter | kernel-core/src/rendering/renderer.rs:542-547 | permuting the list changes no depth, and no colour where the nearest fragments agree on one |
| DepthOrder.PlacementMovesPixels | kernel-core/src/game/screen.rs:47-56 | moving a triangle by the corner of its part of the screen moves its pixels and their depths with it and keeps its colour |
| DepthOrder.DrawMesh | kernel-core/src/game/screen.rs:45-65 | drawing the placed mesh triangle by triangle, clipped to its part of the screen, leaves at every pixel what the list leaves there |
| Nvme.CidRoundTrip | kernel/src/nvme/regs.rs:136-144 | setting the identifier keeps the opcode and the other low bits, and is read back |
| Nvme.OpcodeRoundTrip | kernel/src/nvme/regs.rs:136-139 | setting the opcode keeps the bits above it and is read back |
| Nvme.InitialInv | kernel/src/memory.rs:87-90 | zeroed rings and phase one establish the invariant of the queue pair |
| Nvme.SubmitInv | kernel/src/nvme/queue.rs:46-62 | submit keeps the invariant while there is room |
| Nvme.FetchInv | kernel/src/nvme/queue.rs:53-59 | the device fetches the oldest unfetched command, as it was written |
| Nvme.CompleteInv | kernel/src/nvme/queue.rs:74-77 | a device that respects the head doorbell and flips its phase on a wrap keeps the invariant, in whatever order it completes |
| Nvme.PollInv | kernel/src/nvme/queue.rs:104-124 | poll returns an entry if and only if one is posted and not taken, and then the oldest such entry |
| Nvme.RunKeeps | kernel/src/nvme/queue.rs:46-124 | in every interleaving of host and device steps, submits on a full ring included, completion slots from host head to device tail carry the expected phase and all others the opposite one, and each posted entry has the identifier of its command |
| Nvme.RunInv | kernel/src/nvme/queue.rs:87-124 | with a host that only submits when there is room, every interleaving of host and device steps keeps the whole invariant, submission ring included |
| Nvme.TakenIsPosted | kernel/src/nvme/queue.rs:104-124 | what the polls of any run return, submits on a full ring included, is exactly the next posted entries, in order, none lost or repeated, over any number of laps |
| Nvme.DeliveryFromReset | kernel/src/nvme/queue.rs:87-124 | from power-on, for a ring of any size from two and in every run, the k-th entry taken is the k-th posted and carries the identifier of the k-th completed command |
| Nvme.SubmitVisibleIffRoom | kernel/src/nvme/queue.rs:57-59 | an unguarded submit leaves anything for the device to see if and only if the ring had room |
| Nvme.NextAnswerIsOwnIffIdle | kernel/src/nvme/queue.rs:126-136 | with a device that completes in order, the next entry taken after a submit carries its identifier if and only if nothing was outstanding before it |
| Nvme.IdleAnswerIsOwn | kernel/src/nvme/queue.rs:126-136 | with nothing outstanding before it, the next entry taken after a submit carries its identifier, in whatever order the device works |
| Nvme.StaleAnswer | kernel/src/nvme/queue.rs:126-136 | a concrete run in which a late answer is taken for that of the next command |
| NvmeStore.SubmissionQueue.Submit | kernel/src/nvme/queue.rs:46-62 | writes the tagged command at the tail, advances tail and doorbell around the ring, counts identifiers modulo 2^16 |
| NvmeStore.CompletionQueue.Poll | kernel/src/nvme/queue.rs:104-124 | takes the entry at the head exactly when its phase is the expected one, and flips the expected phase on a wrap |
| NvmeStore.StepKeepsPending | kernel/src/nvme/mod.rs:72-73 | whatever the device does, the one outstanding command is unfetched, being executed, or completed with its identifier and its effect |
| NvmeStore.StepIsDo | kernel/src/nvme/queue.rs:74-77 | every step that a device may take is an act of a plan, so that arbitrary plans cover all devices |
| NvmeStore.OneOutcome | kernel/src/nvme/queue.rs:127-136 | for each plan of the device, waiting either times out or has one first answer with one status, never both |
| NvmeStore.PollPending | kernel/src/nvme/queue.rs:104-136 | a poll finds nothing until the command is done; then it takes that completion and the queue is idle |
| NvmeStore.AnswerAfterTimeout | kernel/src/nvme/mod.rs:72-83 | when a late answer is there, the next call takes it at once, with its status, on a bounce buffer its own command has not touched |
| NvmeStore.IdleStays | kernel/src/nvme/mod.rs:48-118 | between commands the device touches neither disk nor bounce buffer |
| NvmeStore.NvmeController.Wait | kernel/src/nvme/queue.rs:127-136 | for any plan of the device: a timeout, with the command still outstanding, only when none of the 500,000,000 looks finds anything; otherwise the first entry that a look finds, which is the completion of the one outstanding command |
| NvmeStore.NvmeController.CommandRoundTrip | kernel/src/nvme/mod.rs:64-70 | the device decodes from the command exactly the opcode, namespace, address, count and identifier that the driver encoded |
| NvmeStore.NvmeController.ReadSectors | kernel/src/nvme/mod.rs:53-84 | a successful read fills the caller's buffer with the disk's bytes; errors leave it alone; the disk never changes; `BufferTooSmall` exactly when the range does not fit 4096 bytes or the buffer; otherwise a timeout, success or an error status exactly when a command with opcode 2 times out or is first answered with that status |
| NvmeStore.NvmeController.WriteSectors | kernel/src/nvme/mod.rs:86-118 | a successful write replaces exactly the addressed sectors; a failed one touches nothing outside them; it times out, succeeds or reports a status exactly when a command with opcode 1 and the data in the bounce buffer does |
| NvmeStore.LastWriteWins | kernel/src/nvme/mod.rs:86-118 | in a replayed history of writes every byte is that of the last write to it, or was there from the start |
| NvmeLiveness.LivelyDeviceAnswers | kernel/src/nvme/queue.rs:127-136 | with a device that fails no command and has a fetch and a finish in every 250 million looks, a command in range on an idle store is answered in time with success |
| NvmeLiveness.LivelyDeviceServes | kernel/src/nvme/mod.rs:53-118 | the same for the commands of reads and writes |
| Session.PerformAll | kernel/src/nvme/mod.rs:53-118 | performing any list of reads and writes leaves the disk as the replay of a log with one write a request, and every reply answers its request on the disk as the log had left it by then; with a healthy, lively device no possible request fails |
| Session.ReadReturnsLastWrite | kernel/src/nvme/mod.rs:53-118 | in every session, every byte of a successful read is that of the last write to its place if that was successful, unknown if it failed, and as at the start if there was none |
| NvmeStore.CreateIoQueues | kernel/src/nvme/mod.rs:277-354 | zeroed frames give a store that is idle and shows the disk |
| Save.LeRoundTrip | kernel-core/src/game/save.rs:26-60 | a 32-bit pattern survives its little-endian bytes |
| Save.BlockIndexRange | kernel-core/src/game/save.rs:26-60 | the running offset of a block is in range and determines its coordinates |
| Save.FileHeader | kernel-core/src/game/save.rs:5-43 | the first 32 bytes: MCOS, version 1, two zeros, and the six words of the camera in order, lowest byte first |
| Save.FileBlock | kernel-core/src/game/save.rs:45-57 | block (x, y, z) is byte 32 + (x Y + y) Z + z, one for solid and zero for air |
| Save.DecodedErrors | kernel-core/src/game/save.rs:62-74 | a wrong magic number is reported exactly when the first four bytes are not MCOS, a wrong version exactly when they are and the version is not 1 |
| Save.DecodeEncode | kernel-core/src/game/save.rs:26-104 | decoding an encoded save gives back world and camera bit patterns, for any dimensions that fit |
| Save.EncodeDecode | kernel-core/src/game/save.rs:62-104 | re-encoding a decoded buffer gives the buffer back if and only if its reserved bytes and padding are zero and its block bytes are 0 or 1 |
| Save.Serialize | kernel-core/src/game/save.rs:26-60 | the loops with their running offset write header, one byte a block, and zeros |
| Save.Deserialize | kernel-core/src/game/save.rs:62-104 | wrong magic and wrong version are the two errors, in that order; otherwise the loops read world and camera |
| Save.SaveWorld | kernel/src/main.rs:248-258 | a successful save puts the encoding into two sectors and touches no other byte of the disk; it fails only as the write command does, and not at all with a healthy, lively device |
| Save.LoadWorld | kernel/src/main.rs:259-276 | a load decodes the two sectors and leaves the disk alone; the storage does not fail with a healthy, lively device |
| Save.SaveThenLoad | kernel/src/main.rs:248-276 | saving and then loading restores the world and the camera; only the storage can fail, and with a healthy, lively device it does not |
| Mesh.NeighboringSolids | kernel-core/src/game/world.rs:151-159 | entry i tells whether the neighbour across face i is in bounds and solid |
| Mesh.FaceNumbers | kernel-core/src/game/mod.rs:44-74 | the neighbour across the face with each number, in coordinates |
| Mesh.GetWorldMesh | kernel-core/src/game/world.rs:105-149 | the nested loops emit the two triangles of every exposed face, layer by layer |
| MeshTheorems.MeshTotal | kernel-core/src/game/world.rs:105-149 | any quantity summed over the mesh is its sum over the exposed faces of all blocks, direction by direction |
| MeshTheorems.MeshSize | kernel-core/src/game/world.rs:105-149 | the mesh has 12 triangles a solid block minus 4 for every adjacent solid pair |
| MeshTheorems.NormalsBalance | kernel-core/src/game/world.rs:105-149 | opposite normals occur equally often |
| MeshTheorems.Divergence | kernel-core/src/game/world.rs:105-149 | along each axis, the first-vertex heights of the forward faces minus those of the backward faces sum to twice the number of solid blocks |
| MeshTheorems.SignedVolume | kernel-core/src/game/world.rs:105-149 | the triple products of the triangles add up to six times the number of solid blocks, so the mesh encloses their volume |
| MeshTheorems.FaceTriIsInjective | kernel-core/src/game/world.rs:40-103 | no two faces share a triangle |
| MeshTheorems.FaceCorners | kernel-core/src/game/world.rs:40-103 | the corners of the two triangles of a face are exactly the corners that the block shares with its neighbour across the face |
| MeshTheorems.FirstCorner | kernel-core/src/game/world.rs:40-103 | the corner at which each face starts, and the diagonal its two triangles share |
| MeshTheorems.MeshIsClockwise | kernel-core/src/game/world.rs:33-36 | every triangle of the mesh lies on an exposed face, has its normal, and turns clockwise for a viewer whom the normal points at |
| MeshTheorems.FacesOnce | kernel-core/src/game/world.rs:105-149 | each triangle of an exposed face occurs exactly once |
| MeshTheorems.NothingElse | kernel-core/src/game/world.rs:105-149 | nothing else occurs in the mesh |
| MeshTheorems.ExposedFaces | kernel-core/src/game/world.rs:151-163 | the exposed faces of a direction are the solids minus the solid pairs along it |
| Frames.FramesAreUsable | kernel/src/memory.rs:113-125 | every frame handed out is aligned and lies wholly in usable memory |
| Frames.FramesAreDistinct | kernel/src/memory.rs:113-132 | no two calls hand out the same frame |
| Frames.FrameCount | kernel/src/memory.rs:113-132 | exactly as many calls succeed as whole frames fit into the usable regions |
| Frames.FramesAreComplete | kernel/src/memory.rs:113-132 | every aligned frame of usable memory is handed out by some call |
| Frames.BootInfoFrameAllocator.AllocateFrame | kernel/src/memory.rs:127-132 | the k-th call returns the k-th usable frame |
| Frames.BootInfoFrameAllocator.AllocPhysFrame | kernel/src/memory.rs:76-93 | zeroes exactly the frame it returns |
| Frames.BootInfoFrameAllocator.InitHeap | kernel/src/allocator.rs:85-91 | each heap page gets a frame of its own call, whatever the mapper takes in between; it fails only when a call finds no frame left |
| Frames.BootSequence | kernel/src/memory.rs:76-133 | heap frames and driver frames of a whole boot are pairwise different and usable, and as many as asked for unless memory runs out |
| TextParser.HexCodeRoundTrip | kernel-core/src/rendering/color.rs:70-79 | parsing the hexadecimal code of a colour gives the colour |
| TextParser.FgRoundTrip | kernel-core/src/rendering/color.rs:112-124 | outside a command, feeding `Fg(c)` ends in the Text state with colour c, an empty command buffer and the text unchanged |
| TextParser.FgSwallowed | kernel-core/src/rendering/text_box.rs:217-261 | inside an unfinished command the same bytes end that command and change no colour |
| TextParser.FeedInv | kernel-core/src/rendering/text_box.rs:172-231 | after any bytes the command buffer is empty outside the Command state and every stored glyph is in 0x20..=0x7E |
| TextParser.LogLineRestores | kernel/src/logger.rs:84-91 | a log line restores the previous colour if and only if its message does not end inside a command, or has set that colour itself |
| TextParser.PlainLogLineRestores | kernel/src/logger.rs:84-91 | a log line without ESC always restores the previous colour |
| TextParser.UnfinishedCommandLosesColour | kernel/src/logger.rs:84-91 | the message ESC, leader loses it |
| TextParser.Parser.PushByte | kernel-core/src/rendering/text_box.rs:196-231 | the parser object, with its retry of a byte that ends an escape, follows the state machine |
| TextContent.PlainTextIsStored | kernel-core/src/rendering/text_box.rs:186-231 | outside a command, bytes without ESC append exactly the printable ones in order, each in the current colour, with a line break for each newline, and leave the parser as it was |
| TextContent.BufferOfStream | kernel-core/src/rendering/text_box.rs:186-231 | the logical lines are determined by their glyphs and the breaks between them |
| TextContent.LoneEscapeIsDropped | kernel-core/src/rendering/text_box.rs:196-231 | ESC followed by a byte other than the leader does what that byte alone does |
| TextContent.DocumentIsStored | kernel-core/src/rendering/color.rs:112-124 | pieces of text with colour escapes between them are stored as meant, each glyph in the colour set last before it |
| TextContent.CommandsSetColours | kernel-core/src/rendering/text_box.rs:232-261 | a command sets a colour if and only if it is FG, a hash sign, an optional plus sign and hexadecimal digits of a 32-bit number, whose low 24 bits are the colour |
| TextContent.FgBytes | kernel-core/src/rendering/color.rs:112-124 | the twelve bytes of the colour escape |
| TextLayout.WrapSnoc | kernel-core/src/rendering/text_box.rs:415-444 | the incremental rule applied to the batch layout of a line gives the batch layout of the line with one more glyph, and the pen position with it |
| TextLayout.WrapIsGreedy | kernel-core/src/rendering/text_box.rs:426-443 | the batch layout meets the declarative reading of greedy wrapping |
| TextLayout.GreedyIsWrap | kernel-core/src/rendering/text_box.rs:426-443 | nothing else meets it |
| TextLayout.LongLinesFit | kernel-core/src/rendering/text_box.rs:426-443 | every visual line of two or more glyphs ends within `line_end` |
| TextLayout.StaysWhole | kernel-core/src/rendering/text_box.rs:415-444 | a line of n glyphs stays in one piece if every number of widest advances up to n fits, and a line of equally wide glyphs only then |
| VisualLines.PushKeepsLayout | kernel-core/src/rendering/text_box.rs:395-444 | every byte keeps the partition of the text into visual lines, and keeps visual lines and pen equal to greedy wrapping |
| TextBox.TextBox.PushByte | kernel-core/src/rendering/text_box.rs:395-408 | follows the parser, keeps all invariants, and keeps an up-to-date layout up to date |
| TextBox.TextBox.UpdateLastLineLayout | kernel-core/src/rendering/text_box.rs:415-444 | extends the last visual line or starts a new one, as the incremental rule says |
| TextBox.TextBox.SetText | kernel-core/src/rendering/text_box.rs:384-389 | the box holds what the parser makes of the text, which without ESC is what the text spells in the configured colour, freshly laid out and scrolled to the end |
| TextBox.TextBox.WriteStr | kernel-core/src/rendering/text_box.rs:530-536 | appends what the parser makes of the text, which without ESC outside a command is what the text spells in the current colour; a layout that was up to date stays so |
| TextBox.TextBox.Clear | kernel-core/src/rendering/text_box.rs:380-382 | an empty box, laid out and not scrolled |
| TextBox.TextBox.SetFontSize | kernel-core/src/rendering/text_box.rs:332-336 | clamps the size, scrolls to the end, keeps text and lines, and keeps the invariants though the old breaks stay |
| TextBox.TextBox.Scroll | kernel-core/src/rendering/text_box.rs:367-378 | the offset saturates at both ends and never leaves the visual lines |
| TextBox.TextBox.LinesToRender | kernel-core/src/rendering/text_box.rs:449-454 | the slice to draw is always in range, and full whenever there are enough lines |
| TextBox.TextBox.MinDimensions | kernel-core/src/rendering/text_box.rs:345-365 | the loop over all printable characters gives paddings plus so many times the widest advance, and paddings plus so many line heights |
| TextBox.TextBox.MinWidthFitsIff | kernel-core/src/rendering/text_box.rs:345-365 | a box of the minimum width for n characters holds every line of n characters unbroken if and only if n is 0 or there is no left padding (with a negative widest advance: the first character fits) |
| TextBox.TextBox.MinHeightFitsIff | kernel-core/src/rendering/text_box.rs:338-365 | a box of the minimum height for n lines shows n lines if and only if n is 0 or the line spacing is not positive |
| TextBox.TextBox.Render | kernel-core/src/rendering/text_box.rs:446-480 | draws exactly the glyphs and cursors of the lines on the page, from the bottom up |
| TextDrawing.WholePageDrawsText | kernel-core/src/rendering/text_box.rs:456-480 | a page with all visual lines draws every glyph of the text exactly once, wherever the cursor is |
| TextDrawing.GlyphsStayInMargin | kernel-core/src/rendering/text_box.rs:460-474 | drawing a laid-out line, every glyph after the first ends within the margin the layout used |
| TextDrawing.CursorSpots | kernel-core/src/rendering/text_box.rs:465-477 | where in the text the cursor is drawn, for any laid-out text: before glyph n of every logical line longer than n, and for n the length of the text, behind every logical line of that length |
| TextDrawing.CursorCount | kernel-core/src/rendering/text_box.rs:465-477 | how often: the number of logical lines longer than n, plus, for n the length of the text, the number of lines of that length |
| TextDrawing.CursorAsDocumented | kernel-core/src/rendering/text_box.rs:279-281 | exactly when the cursor is drawn once and where documented: inside the text when only the first line with glyphs is longer than n, at its end when one line holds the whole text and a text without glyphs is one line, beyond the end always |
| TextDrawing.CursorOnceInOneLine | kernel-core/src/rendering/text_box.rs:465-477 | for text of one logical line a cursor index up to its length is drawn once, where documented, a larger one never |
| TextDrawing.CursorTwiceInTwoLines | kernel-core/src/rendering/text_box.rs:465-477 | with two one-glyph lines the index 0 is drawn before both glyphs |
| GlyphCache.GlyphCache.GetRaster | kernel-core/src/rendering/text_box.rs:27-49 | returns what rasterising would return; the queue lists the cached keys without duplicates, at most 256, evicts the oldest, and the unchecked push has room |
| GlyphCache.EnqueueKeepsOrder | kernel-core/src/rendering/text_box.rs:36-46 | the queue is always the newest 256 insertions, oldest first |

## Left out

- `f32` rounding and overflow: all coordinates, depths and ray parameters are exact reals.
- Voxel.SlabTest: excludes a zero direction component with the eye's coordinate exactly on the far border plane of the world: zero times infinity meets the vector library's minimum and maximum in an order whose treatment of "not a number" is not part of this model. At the near border both treatments agree and the case is included.
- Voxel.WalkIsSound: is about rays that do not get stuck, as is `Voxel.WalkIsComplete`, which also leaves out rays that slide along a border; `Derail.StuckMeets` and `Derail.CompleteIff` say exactly which cells and points the others get right.
- Camera angles, projection, lighting, block outlines and crosshair; the ray direction is a parameter.
- Clip.ClipStaysInRect: asks for corners in order, as the callers supply them.
- ClipConvex.ClipIsConvex: excludes edges that take the EPSILON branch on the clip line, which can bend a convex outline.
- ClipConvex.OverlapAreasAddUp: and `ClipConvex.OverlapAreasAtMost` exclude EPSILON edges at the grid lines for that reason; for them `ClipGrid.PixelsAddUp` has the exact defect of the signed areas.
- TextBox.TextBox.MinWidthFitsIff: asks for a font whose advances are not negative; the width is rounded after the maximum in the original and before it here, which is the same as rounding is monotone.
- ThickLine.DrawLine: the distance of the end points is a parameter, as the square root is foreign code.
- `draw_iter` and `fill_contiguous` of the two-dimensional renderer; `fill_line_thick` is unfinished in the original.
- Pixel formats the original panics on, framebuffers whose rows do not fit, and sizes beyond `i32`.
- Line.ErrorFits: sides longer than 715827882 pixels may overflow 32 bits in the original; the line theorems themselves use unbounded integers.
- DepthOrder.DrawMesh: takes triangles already projected and shaded; projection and light are foreign numeric code.
- DepthOrder.OrderDoesNotMatter: is about triangles; lines may lower a depth by their bias, so they are not order independent.
- NvmeStore.NvmeController.ReadSectors: excludes a count of 0, for which the original's `count - 1` underflows; the same for `NvmeStore.NvmeController.WriteSectors`.
- NvmeStore.CreateIoQueues: does not model the admin commands that create the queues and their failures, because they are a linear script over the same queue pair.
- NvmeStore.NvmeController.WriteSectors: and `NvmeStore.NvmeController.ReadSectors` are about an idle store; what a call after a timeout is given is `NvmeStore.AnswerAfterTimeout`.
- NvmeStore.NvmeController.Wait: time is a number of polls; what the device does before each of them is in a plan, which is arbitrary and finite; it does nothing while the host is elsewhere.
- The data pointer of commands (the bounce buffer is the device's only memory), the admin queue, controller start-up, the AHCI back end, the lock around the driver.
- Frames.FramesAreDistinct: assumes what the boot loader promises, disjoint usable regions with page-aligned borders.
- Frames.BootInfoFrameAllocator.AllocPhysFrame: `None` stands for the original's panic.
- Page mapping itself and the heap allocator; how many page-table frames the mapper takes is arbitrary.
- TextBox.TextBox.Render: the bitmaps of glyphs and cursor are not drawn; glyph advances and line metrics are arbitrary functions of character and size.
- TextBox.TextBox.SetFontSize: the original keeps the old breaks, so the layout is up to date again only after the next reset.
- `usize` and `i32` overflow of text sizes, except for the cast in `max_visible_lines`.
- Save files of worlds that do not fit 1024 bytes, for which the original would index past its buffer.
- The save file's `f32` values are their 32-bit patterns.
- Interrupts, tables, ACPI, serial, keyboard, mouse and console editing: little logic that spans operations.
