# Thermal webcam and layered feedback voices: a Dafny model

The sketch shows a webcam feed as a pixelated "thermal camera". It also layers
microphone feedback voices on top of each other. This project models the two
parts of `script.js` that carry logic, plus the fade-in ramp of a voice:

- **The per-frame renderer** (`Thermal`). For each frame, the callback does this:
  - It ignores a frame with no size.
  - It resizes the canvas to the frame and paints it black.
  - It reads the RGBA buffer at every sixth pixel in both directions.
  - It classifies each sampled pixel. The pixel is black when its mean
    brightness is below the black threshold. Otherwise it gets a hue that runs
    linearly from 240 (blue, dark) down to 0 (red, bright).
  - It paints a square of the slider's pixel size, centred on the sampled pixel.

  The frame is a `seq<Byte>` of `w * h * 4` channels. The canvas is a class with
  four fields: its size, its fill style, and the list of rectangles filled since
  it was last cleared. `Canvas.OnResults` keeps the source's nested loops. Its
  inner loop is the method `Canvas.PaintRow`, and the loop body is the method
  `Canvas.PaintBlock`. The result is proved equal to the
  specification function `Render`, and the lemmas state what `Render` draws.
  Setting `canvas.width` clears the canvas and resets its fill style, so
  `OnResults` empties `painted` and sets the fill style to black before it
  paints.
  Brightness and hue are exact `real` values. The source computes them as
  rounded doubles; see "## Left out".
- **The voice layers** (`Voices`). `activeVoices` is a list capped at
  `maxLayers` = 3. Creating a voice pushes it to the back. If the list then
  holds more than 3 voices, the oldest is shifted off and faded out. The sound
  button does one of two things:
  - When sound is off, it asks for the microphone. If access is refused, nothing
    changes. Otherwise it starts a voice and sets `audioActive`.
  - When sound is on, it disconnects every voice, empties the list and clears
    `audioActive`.

  `AudioState` is a class with these two fields. A voice is an opaque id.
- **The fade-in ramp** (`Ramp`). Every 50 ms a voice's interval computes
  `t = min(elapsed / 20, 1)`. It ramps the gain towards `0.5 * t` and sets the
  feedback cutoff to `1200 - 800 * t`. It stops once `t` reaches 1.
  `RunInterval` replays that interval against a sequence of clock readings.

The segmentation result passed to the callback is never read. The choice
between black and hue depends only on brightness; no foreground or background
mask plays any part. The model follows the code in this.

## Model

| member | source | states |
|---|---|---|
| Thermal.Brightness | script.js:68 | the brightness is the mean of r, g and b: it lies in [0, 255], between the smallest and largest channel, and equals the channel when all three agree |
| Thermal.HueOf | script.js:70 | for a brightness in [0, 255] the hue lies in [0, 240]; it is 240 at brightness 0 and 0 at brightness 255 |
| Thermal.HueDecreasing | script.js:70 | a brighter block never gets a higher (bluer) hue, and a strictly brighter one gets a strictly lower hue |
| Thermal.Classify | script.js:68-70 | a block is black iff `r + g + b < 3 * blackThreshold`; otherwise its hue is the hue of its brightness, lies in [0, 240], and is at most the hue of the threshold |
| Thermal.RowPoints | script.js:63 | every point of a row lies on that row, at or right of the start column and left of `w` |
| Thermal.GridPoints | script.js:62-63 | every sampled point lies inside the frame, at or below the start row |
| Thermal.SamplePointsCount | script.js:62-63 | a w by h frame is sampled exactly ceil(w/6) * ceil(h/6) times |
| Thermal.SamplePointsExact | script.js:62-63 | a point is sampled iff it lies inside the frame and both its coordinates are multiples of 6 |
| Thermal.SamplePointsRowMajor | script.js:62-63 | samples are visited row by row, left to right within a row, and no point is visited twice |
| Thermal.PixelIndexInBounds | script.js:64-67 | for every in-frame pixel, the red, green and blue reads at `(y*w + x)*4`, `+1` and `+2` lie inside the `w*h*4` buffer |
| Thermal.Square | script.js:71 | the painted square has side `pixelSize` and is centred on its sample point, so its origin is `(x - pixelSize/2, y - pixelSize/2)` |
| Thermal.RowSquaresAt | script.js:63-72 | one pass of the inner loop paints exactly one square per sample point of its row, the k-th square for the k-th point |
| Thermal.GridSquaresAt | script.js:62-72 | the two loops paint exactly one square per sample point, the k-th square for the k-th point |
| Thermal.Render | script.js:59-72 | a non-empty frame leaves the full-size black background followed by one square per sample point |
| Thermal.RenderSpec | script.js:59-72 | after a non-empty frame the canvas holds a full-size black rectangle and then ceil(w/6)*ceil(h/6) squares; the k-th square is centred on the k-th sample point (whose channel reads are in bounds), is black iff its channel sum is below 3 * threshold, and otherwise carries its brightness's hue in [0, 240] |
| Thermal.Canvas.constructor | script.js:9-10 | a fresh canvas has the given size, nothing painted and a black fill style |
| Thermal.Canvas.OnResults | script.js:48-74 | a frame with zero width or height leaves the canvas unchanged; otherwise the canvas takes the frame's size, holds exactly `Render` of the frame, and its fill style is the colour of the last square |
| Thermal.Canvas.PaintRow | script.js:63-72 | one pass of the inner loop appends exactly the squares of row y, left to right, to what was painted |
| Thermal.Canvas.PaintBlock | script.js:64-71 | the body of the inner loop reads the pixel's three channels, sets the fill style to the block's colour and appends that block's square |
| Voices.Pushed | script.js:139-142 | after a push the new voice is last; a list within the cap stays within it; below the cap the voice is simply appended; at the cap exactly the head is dropped and the rest keep their order |
| Voices.Evicted | script.js:141-142 | a voice is evicted iff the list was already at the cap, and then it is the oldest (the head) |
| Voices.PushConserves | script.js:139-142 | no voice is lost by a push: the evicted voice followed by the new list is the old list followed by the new voice |
| Voices.PushedIsNewest | script.js:139-142 | from a list within the cap, a push keeps the newest three voices of the old list plus the new one |
| Voices.PushAllIsNewest | script.js:139-142 | after any series of creations, the active list is the newest three voices ever pushed, in creation order |
| Voices.PushAllBelowCap | script.js:139-142 | while the total stays within three, creations only append and nothing is evicted |
| Voices.ThreeLayersFromEmpty | script.js:171-173 | from an empty list (the page's first session), the three creations give exactly those three voices, with no eviction |
| Voices.AudioState.constructor | script.js:18-19 | sound starts off with no active voices |
| Voices.AudioState.CreateVoiceCycle | script.js:139-153 | the list becomes `Pushed` of the old list, stays within the cap, and the voice returned for fading out is the evicted head, if any; evicted plus active is the old list plus the new voice |
| Voices.AudioState.Click | script.js:93-192 | when sound is off and the microphone is refused, nothing changes and nothing is released; when it is granted, sound turns on and the given voice starts as `CreateVoiceCycle` does; when sound is on, it turns off, every active voice is released and the list is left empty |
| Ramp.Fraction | script.js:160 | `t` never exceeds 1, is non-negative for non-negative elapsed time, equals 1 exactly from 20 s on, and before that is elapsed / 20 |
| Ramp.Tick | script.js:160-167 | for non-negative elapsed time the gain target lies in [0, 0.5] and the cutoff in [400, 1200]; the tick stops the interval iff 20 s have elapsed, which is iff the gain has reached 0.5 |
| Ramp.TickMonotone | script.js:160-165 | as time passes the gain target never falls and the feedback cutoff never rises |
| Ramp.TickStartsAtInitialValues | script.js:119-165 | at time 0 the targets equal the values the nodes are created with (gain 0, cutoff 1200), so the fade starts without a jump |
| Ramp.TickSettles | script.js:160-167 | from 20 s on every tick sets gain 0.5 and cutoff 400 and stops |
| Ramp.TickCoupled | script.js:162-165 | the cutoff target falls 1600 Hz per unit of gain target |
| Ramp.RunInterval | script.js:158-168 | each issued tick carries the targets for its clock reading; every tick before the last was within the 20 s fade; when readings remain unused, the last issued tick was the final one |

## Left out

- Webcam capture, the `video` element and the `Camera` frame loop are left out. They are I/O. The frame arrives as a parameter: its width, its height and the RGBA bytes `getImageData` returns.
- MediaPipe `SelfieSegmentation` is left out. It is a foreign ML library, and its result is never read by the callback.
- `drawImage` of the video is not recorded as a drawing. It is only where `frame` comes from, and the full-canvas black `fillRect` covers it at once.
- The `hsl(..., 85%, 55%)` string formatting is left out. A colour is `Black` or `Hue(degrees)`; saturation and lightness are the same for every block.
- Thermal.Brightness and Thermal.HueOf are exact rationals. In the source, `(r+g+b)/3` and `240 - (brightness/255)*240` are IEEE-754 doubles, so for (1, 0, 0) the brightness is 0.3333333333333333 rather than 1/3. The classification is unaffected: for integers s and T the double `s/3 < T` agrees with `s < 3T`. Rounding is monotone, so the hue range and ordering still hold. Only the printed hue value may differ in its last digits.
- Ramp.Fraction and Ramp.Tick compute with exact reals. In the source, `elapsed / duration` and `1200 - t*800` are rounded doubles; `0.5*t` is exact. The ranges, the stop test `t >= 1` and monotonicity still hold for doubles, because 1, 400 and 1200 are representable and rounding is monotone. Only the exact identity `t * 20 == elapsed` below 20 s, and the exact coupling of cutoff and gain, are specific to reals.
- Slider input and `parseInt` are left out. They are UI. `pixelSize` and `blackThreshold` are integer parameters, so a `NaN` from `parseInt` is not modelled.
- Web Audio node creation, wiring, `disconnect` and `linearRampToValueAtTime` are left out. They belong to a foreign graph engine, so a voice is an opaque id. A released voice is returned; the disconnecting is not modelled.
- The random peaking frequency (`Math.random`) is left out, because it is random. The `Math.sin` modulation of two filter frequencies is left out, because it is transcendental floating point.
- `setTimeout`, `setInterval`, `audioContext.currentTime`, the 2-second fade-out before an evicted voice is disconnected and the waiting on `getUserMedia` are left out. They are callback scheduling and concurrency. Whether the microphone was granted is the `granted` parameter of `Voices.AudioState.Click`; a refusal leaves the state as it was.
  - Each voice creation is one atomic `CreateVoiceCycle` call.
  - The 5 s and 10 s creations are separate calls that may come at any time, even after sound was turned off.
  - So the model makes no claim that `activeVoices` is empty while sound is off. In the source it need not be.
- `Ramp.RunInterval` takes the clock readings as its input. It does not model their 50 ms spacing.
- Creating the `AudioContext` lazily and the button's label text are left out. They affect no state the model tracks.
