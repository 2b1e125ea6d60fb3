# Faceted sphere: a Dafny model of the point buffer and the facet shader

This project models the two computational parts of a small WebGL demo. The
demo draws a faceted sphere. N generator points spread over the unit sphere
each define a plane. Every pixel shows the eligible plane whose hit point on
the line of sight is closest to the far pole (0, 0, -RADIUS), unless that hit
point lies outside another plane. A plane is eligible when it faces the camera
and the squared distance from its hit point to the pole is below 10 * RADIUS.
A pixel with no eligible plane has no chosen plane.

- `script/main.js` keeps the generator points in `shapePos`. This is a flat
  array of stride 4: point p is `(x, y, z, 0)` in slots 4p .. 4p + 3.
  - `initShapePos` seeds the points on a golden-angle spiral.
  - `applyCoulomb` performs one step of a Coulomb-like relaxation.
  - `rotateY` and `rotateX` turn the points in place.
  - `move`, `rotate` and `zoom` handle the mouse, the idle spin and the wheel.
  - `hexToRGB` and `setColor` turn the colour picker's `#rrggbb` into an RGBA
    colour.
- `script/fragment-shader.js` decides each pixel:
  - `pointOnPlan` meets the line of sight with a plane;
  - `pointInPlan` tests a side of a plane;
  - `nearestNorm` chooses the plane;
  - `isBackground` rejects points outside the solid;
  - `main` shades the pixel.

The files are:

- `js_math.dfy` (module `JsMath`): JavaScript numbers as `Finite(real) | NaN`,
  and `Math.cos`, `Math.sin`, `Math.sqrt` and `Math.PI` as values of a
  `MathLib` record. `Lawful` states the laws the proofs use:
  - cos² + sin² = 1;
  - cos is even and sin is odd;
  - the square root of a nonnegative number is a nonnegative root.
- `squares.dfy` (module `Squares`): products and squares of reals, and the
  facts about them that the geometric proofs need.
- `shape_buffer.dfy` (module `ShapeBuffer`): the buffer layout and the
  buffer produced by each main.js operation, as functions. It also holds
  their properties:
  - the spiral lies on the unit sphere;
  - rotations preserve the norm and round-trip;
  - relaxation gives NaN for coincident points and for a pushed vector of
    zero; an isolated point whose pushed vector is nonzero gets unit length.
- `scene.dfy` (module `Scene`): the globals of main.js as the class
  `Scene`, and the handlers as methods that update it in place. Each method
  is proved against the function it implements: the buffer methods against
  `Seed`, `Coulomb` and `Rotate` of `ShapeBuffer`, `Zoom` against the zoom
  clamp `ZoomStep`, and `SetColor` against `HexColor.ColorOf(HexToRGB(..))`.
- `hex_color.dfy` (module `HexColor`): `hexToRGB` with JavaScript's
  string-to-number conversion of `"0x" + hex[i] + hex[i+1]`, including the
  NaN cases, and the colour of `setColor`.
- `fragment_shader.dfy` (module `FragmentShader`): the shader over reals,
  with `normalize`, `reflect`, `pow` and the point texture as parameters.

The model follows the code in its unguarded cases:

- The code does not guard n = 1: `2 * i / (n - 1)` is 0 / 0, so the only
  point is NaN in x, y and z (`SeedSinglePoint`).
- Coincident points are not guarded: the code divides by a squared distance
  of 0, which makes the relaxed point NaN (`CoincidentPointsGiveNaN`).
- `nearest` has no initial value in the shader. `NearestNorm` therefore
  returns `None` when no plane is eligible, and `main` is then
  `Undetermined`.
- Both shader loops run to pointsSize inclusive, which is one lookup more
  than there are points.

JavaScript gives ±Infinity for x / 0 when x ≠ 0. `Div` folds that case to
NaN. `SeedDivisionExact`, `ForceDivisionExact` and `NormalizeExact` show
that the modelled code only divides 0 by 0. In that case NaN is exact.

## Model

| member | source | states |
|---|---|---|
| ShapeBuffer.SeedShape | script/main.js:109-128 | initShapePos(n) leaves exactly 4n slots. Every fourth slot is 0, and point p is the spiral point of round p. |
| ShapeBuffer.SeedZInRange | script/main.js:116 | For n ≥ 2, z_i = 1 − 2i/(n−1) is finite and in [−1, 1]. z_0 = 1 and z_{n−1} = −1. |
| ShapeBuffer.SeedZDecreasing | script/main.js:116 | For n ≥ 2, z strictly decreases with the round number. |
| ShapeBuffer.SeedDistinct | script/main.js:114-126 | For n ≥ 2, no two seeded points coincide. |
| ShapeBuffer.SeedDivisionExact | script/main.js:116 | The division 2i/(n−1) in round i < n is never x / 0 with x ≠ 0. |
| ShapeBuffer.SpiralPointOnSphere | script/main.js:117-121 | Given the Math laws and z in [−1, 1], (r·cos θ, r·sin θ, z) with r = √(1 − z²) is finite and has squared length 1. |
| ShapeBuffer.SeedOnUnitSphere | script/main.js:114-126 | For n ≥ 2, every seeded point lies on the unit sphere. |
| ShapeBuffer.SeedSinglePoint | script/main.js:116 | With n = 1 the unguarded 0 / 0 makes the buffer [NaN, NaN, NaN, 0]. |
| ShapeBuffer.Rotate | script/main.js:172-194 | A rotation keeps the buffer length. rotateY leaves slots 4k+1 and 4k+3 untouched. rotateX leaves slots 4k and 4k+3 untouched. |
| ShapeBuffer.RotatePointwise | script/main.js:174-181 | Point p of the rotated buffer is point p of the old buffer turned by one loop round. |
| ShapeBuffer.TurnValues | script/main.js:179-180 | On finite inputs a turn is the exact real rotation a·cos − z·sin, a·sin + z·cos. A NaN input makes both outputs NaN. |
| ShapeBuffer.TurnIsometry | script/main.js:179-180 | When cos² + sin² = 1, a turn keeps a² + z². |
| ShapeBuffer.TurnRoundTrip | script/main.js:179-180 | Turning by (cos, −sin) undoes a turn by (cos, sin). |
| ShapeBuffer.RotatePreservesNorm | script/main.js:172-194 | Given the Math laws, rotateY keeps y and x² + z² of a finite point. rotateX keeps x and y² + z². Both keep the squared length. |
| ShapeBuffer.RotateSpreadsNaN | script/main.js:179-180 | If the paired coordinate or z is NaN, both rotated coordinates are NaN. |
| ShapeBuffer.RotatePointRoundTrip | script/main.js:172-194 | Given the Math laws, rotating by angle then by −angle restores a point whose rotated pair is finite. |
| ShapeBuffer.RotateRoundTrip | script/main.js:172-194 | Rotating the buffer by angle then by −angle restores every point whose rotated pair is finite. It restores the whole buffer when every slot is finite. |
| ShapeBuffer.RotateRoundTripAt | script/main.js:172-194 | The round trip for a single point of the buffer. |
| ShapeBuffer.RotateLoopStep | script/main.js:174-181 | One round of the stride-4 loop turns point p. It keeps points before p turned and the slots after point p untouched. |
| ShapeBuffer.CoulombShape | script/main.js:137-169 | applyCoulomb's new buffer has the old length and 0 in every fourth slot. Point p is point p's pushed vector divided by its length. |
| ShapeBuffer.RelaxLoopStep | script/main.js:139-167 | One round of the outer loop appends point p's relaxed coordinates and a 0 to the first p relaxed points. |
| ShapeBuffer.DiffOfFinite | script/main.js:149-151 | The difference of two finite points is finite. It is the origin exactly when the points coincide. |
| ShapeBuffer.SumSqOfFinite | script/main.js:153 | For a finite vector, `vecX*vecX + vecY*vecY + vecZ*vecZ` is its nonnegative squared length. It is 0 exactly at the origin. |
| ShapeBuffer.ForceDivisionExact | script/main.js:153-157 | The divisions by `norm` are never x / 0 with x ≠ 0. |
| ShapeBuffer.ForceOfCoincident | script/main.js:147-157 | The term for two equal points is 0 / 0 in all three coordinates. This is why the self-term j = i must be skipped. |
| ShapeBuffer.ForceOfDistinct | script/main.js:149-157 | Two finite, distinct points give a finite term. |
| ShapeBuffer.PushedStaysNaN | script/main.js:145-159 | Once the accumulated vector is NaN, later rounds of the inner loop keep it NaN. |
| ShapeBuffer.CoincidentPointsGiveNaN | script/main.js:145-166 | When two points at distinct indices coincide, the relaxed point is NaN in all three coordinates. |
| ShapeBuffer.PushedFinite | script/main.js:145-159 | When point i and every other point are finite and no other point equals point i, its accumulated vector stays finite. |
| ShapeBuffer.LengthOf | script/main.js:161 | For a finite vector, `Math.sqrt` of the sum of squares is a nonnegative root of the squared length. It is 0 exactly at the origin. |
| ShapeBuffer.NormalizeExact | script/main.js:161-166 | The division by `length` is never x / 0 with x ≠ 0. |
| ShapeBuffer.NormalizeStep | script/main.js:161-166 | A finite vector other than the origin, divided by its length, is finite and has squared length 1. |
| ShapeBuffer.Normalize | script/main.js:161-166 | Dividing a finite vector by its length gives NaN in every coordinate exactly when the vector is the origin. Otherwise the result is on the unit sphere. |
| ShapeBuffer.RelaxedOfIsolated | script/main.js:139-167 | For an isolated point, the relaxed point is NaN exactly when the pushed vector is the origin. Otherwise it has unit length. |
| Scene.ZoomStep | script/main.js:218-232 | After one wheel event the zoom lies in [0.1, 4] whatever it was before. From a zoom within range, it does not decrease when deltaY > 0 and does not increase otherwise. |
| Scene.ZoomStepUnclamped | script/main.js:222-229 | Away from the bounds, deltaY > 0 divides by 0.9 and any other deltaY, 0 included, multiplies by 0.9. |
| Scene.ZoomRoundTrip | script/main.js:218-232 | One notch out and one notch in, in either order, restore the zoom when neither step hits a bound. |
| Scene.SeedPrefixStep | script/main.js:114-127 | Round i of initShapePos appends point i's x, y, z and 0 to the buffer of the earlier rounds. |
| Scene.SeedLoopStep | script/main.js:123-126 | The four pushes of round i turn the buffer of i rounds into that of i + 1 rounds. |
| Scene.PushedStep | script/main.js:145-158 | One inner round at slot j adds point j's term to point i's vector, unless j = i. |
| Scene.AccumulatePushes | script/main.js:141-159 | The inner loop returns point i plus the term of every other point. |
| Scene.Scene.constructor | script/main.js:8-18 | The initial globals: empty buffer, zoom 0.7, not pressed, lastRotate = now, Coulomb on, colour [0, 0.5, 1, 1]. |
| Scene.Scene.InitShapePos | script/main.js:109-128 | The buffer becomes the n-point spiral, 4n slots long. No other global changes. |
| Scene.Scene.ApplyCoulomb | script/main.js:130-170 | With the checkbox off, nothing changes. Otherwise the buffer becomes the relaxation of the old buffer, with the same length and layout. No other global changes. |
| Scene.Scene.RotateY | script/main.js:172-182 | The buffer becomes its rotation about y in place. No other global changes. |
| Scene.Scene.RotateX | script/main.js:184-194 | The buffer becomes its rotation about x in place. No other global changes. |
| Scene.Scene.Move | script/main.js:196-204 | Unpressed, nothing changes. Pressed, the buffer is turned about x by movementY·0.005·zoom, then about y by −movementX·0.005·zoom. |
| Scene.Scene.Rotate | script/main.js:206-216 | Unpressed, the buffer turns about y by −0.0001·(now − lastRotate). Pressed, it stays. lastRotate = now in both cases. |
| Scene.Scene.Zoom | script/main.js:218-235 | zoomRatio becomes the clamped step, so it stays in [0.1, 4]. Nothing else changes. |
| Scene.Scene.SetColor | script/main.js:253-258 | The colour becomes the parsed channels over 255, with alpha 1. Nothing else changes. |
| HexColor.DigitValue | script/main.js:246-250 | A hex digit is worth less than 16. |
| HexColor.DigitValueIgnoresCase | script/main.js:246-250 | `+"0x.."` reads digits case-insensitively: "A" to "F" are worth what "a" to "f" are, and format back as the lower-case letter. |
| HexColor.HexPair | script/main.js:246-250 | `+("0x" + a + b)` is finite exactly when a is a hex digit and b is a hex digit or trailing white space. A finite result is in [0, 255]. Anything else, including a missing character read as "undefined", is NaN. |
| HexColor.HexToRGBOfHexColor | script/main.js:244-251 | On "#rrggbb" each channel is the value of its two-digit hex pair, so each is in [0, 255]. |
| HexColor.HexToRGBReadsOneToSix | script/main.js:246-248 | Only characters 1 to 6 are read. |
| HexColor.HexToRGBNaN | script/main.js:246-250 | A channel whose characters are missing or malformed is NaN, so a string shorter than 7 characters always has a NaN channel. |
| HexColor.FormatHex | script/main.js:255 | The picker's format "#rrggbb" has 7 characters and starts with '#'. |
| HexColor.ParseFormatRoundTrip | script/main.js:244-251 | Parsing the "#rrggbb" of three bytes gives back the three bytes. |
| HexColor.FormatParseRoundTrip | script/main.js:244-251 | A lower-case "#rrggbb" is the formatting of the bytes it parses to. |
| HexColor.FormatParseAnyCase | script/main.js:244-251 | A "#rrggbb" in any case parses to bytes that format back as the same string in lower case. |
| HexColor.ColorOfAnyString | script/main.js:253-256 | For any string the colour has four components and alpha 1. Each of r, g, b is NaN or in [0, 1]. |
| HexColor.ColorOfHexColor | script/main.js:253-256 | On "#rrggbb" each component is its byte over 255 and lies in [0, 1]. Alpha is 1. |
| FragmentShader.DistSquaredIsMetric | script/fragment-shader.js:24-29 | distSquared is nonnegative and is 0 exactly for equal points. |
| FragmentShader.PointOnPlanOnBoth | script/fragment-shader.js:31-47 | The intersection exists exactly when the plane's normal is not orthogonal to camera − f. It lies on the line f + k·(camera − f) and satisfies n̂·I = \|n̂\|², so pointInPlan(I, n) = 0. |
| FragmentShader.NearestNorm | script/fragment-shader.js:49-73 | It returns no plane exactly when no plane 0 .. pointsSize (inclusive) is eligible. Otherwise it returns the eligible plane closest to the pole, the earliest among ties. |
| FragmentShader.NearestIsUnique | script/fragment-shader.js:65-68 | The strict comparison makes the chosen plane unique. |
| FragmentShader.NearestIsARealPoint | script/fragment-shader.js:54-68 | If the lookup at pointsSize repeats the last texel (CLAMP_TO_EDGE, set at script/main.js:63-64), the chosen index is below pointsSize. |
| FragmentShader.IsBackground | script/fragment-shader.js:75-95 | It is true iff the plane's hit point lies strictly outside some plane 0 .. pointsSize. It is unspecified when the hit point does not exist. |
| FragmentShader.OwnPlaneNeverOutside | script/fragment-shader.js:77-91 | The plane's own test gives exactly 0, so it never makes its hit point background. |
| FragmentShader.LightingClamped | script/fragment-shader.js:112-130 | The diffuse and specular factors are at least 0 because of the max clamps. The colour has alpha 1. |
| FragmentShader.Shade | script/fragment-shader.js:97-134 | main is undetermined exactly when no plane is eligible. It is background exactly when the chosen plane's hit point is outside some plane. Otherwise it shades the chosen plane. |
| FragmentShader.ShadeColours | script/fragment-shader.js:105-133 | Background pixels are (1, 1, 1, 1). Shaded pixels have nonnegative Phong factors and alpha 1. |

## Left out

- WebGL setup and drawing (`initShaderParameters`, `initBuffers`, `createDataTexture`, `drawScene`, `initWebGL`, `renderLoop`): calls into the graphics API. The call to `initBuffers` at the end of `setColor` is not modelled.
- DOM and event wiring (`window.onload`, the mousedown/mouseup listeners that set `pressed`, the checkbox that sets `doCoulomb`, `setShapeN` with `parseFloat`, and `event.preventDefault()` at the end of `zoom`): UI plumbing. The model reads those globals as fields.
- `setInterval` scheduling of `applyCoulomb` and `rotate`: concurrency with rendering. `Date.now()` is the parameter `now`.
- Floating-point rounding: numbers are exact reals. JavaScript's ±Infinity for x / 0 with x ≠ 0 is folded into NaN. The lemmas above show that this case does not arise in the modelled buffer code.
- The values of `Math.cos`, `Math.sin`, `Math.sqrt`, `Math.PI` and of GLSL `normalize`, `reflect` and `pow`: they are parameters. Only the laws in `Lawful` are assumed.
- Texture sampling in `getFromTex`: the texture is the function `tex`. CLAMP_TO_EDGE is a stated assumption (`ClampToEdge`), not proved.
- FragmentShader.NearestNorm: a hit point that does not exist (denominator 0) is never chosen. In GLSL its distance is infinite or NaN, so the comparison fails; the model does not compute those IEEE values.
- FragmentShader.IsBackground: the result for a hit point that does not exist is left unspecified (`None`) rather than modelled through IEEE infinities.
- The `for (int i = 0; i >= 0; ++i)` loops of the shader would stop at integer overflow. The model scans 0 .. pointsSize, as the loop does for any realistic pointsSize.
- The unused `dist` of the shader's `main`. The globals `shapeN` and `lightPos` are not state of the model: `shapeN` is the seeding argument `n` and `lightPos` is the uniform `u.lightPos`; `vertices`, `indices` and `colors` only feed the WebGL buffers.
- NaN texels: texels are real vectors in the shader model. In GLSL a NaN texel fails both `dist < distNear` and `pointInPlan(...) > EPSILON`, so it is never chosen and never makes a pixel background; when every texel is NaN, `nearest` keeps its initial value.
- HexColor.HexToRGB indexes characters, not UTF-16 code units. The two agree on the picker's ASCII values.
