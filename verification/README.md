# Ice Cream scene: texture flip and input toggle

The program renders a textured 3D still life with OpenGL. Nearly all of it
is calls into the windowing, GPU, maths and image-decoding libraries. The
part with logic of its own is what happens to every texture between decoding
and upload, plus one key binding:

- `flipImageVertically` turns a decoded image upside down in place. The
  decoder stores the top row first, while the texture origin is at the
  bottom. Row `j` and row `height - 1 - j` are exchanged byte by byte for
  every `j < height / 2`, through two cursors that advance together.
- `CreateTexture` chooses how to upload the flipped image. A failed decode
  fails. Three channels upload as RGB8/RGB, four as RGBA8/RGBA, and any other
  channel count fails.
- `ProcessInput` inverts `perspectiveMode` on every frame during which P is
  down.

The project has five modules:

- `ImageRows` (`image_rows.dfy`) views a byte buffer as `rows` rows of `w`
  bytes. It defines the reference flip `FlipRows`: the rows in reverse order,
  then the bytes that belong to no row. It also proves the properties of that
  flip: rows move whole, the byte-level formula holds both ways, flipping
  twice restores the buffer, the middle row stays, and degenerate sizes change
  nothing.
- `Flip` (`flip.dfy`) holds `FlipImageVertically`. It repeats the C loops
  step for step: an outer `j` loop up to C's truncating `height / 2`, an inner
  loop counting `i` down from `width * channels`, and the `index1`/`index2`
  cursors. Its loop invariant `Progress` records which row pairs are done and,
  within the current pair, which bytes. The method is proved equal to
  `FlipRows`, a permutation of its input, and unchanged past the rows.
- `Texture` (`texture.dfy`) models the channel-count decision and the upload
  it leads to.
- `Input` (`input.dfy`) models the P toggle and its effect across frames.
- `Wrappers` (`wrappers.dfy`) provides `Option` for the decoder's null image
  and `Result` for the `false` returns.

Bytes are `byte` (0..255) and the C `int` dimensions are `int32`. The flip
accepts any dimensions the C function does, negative ones included.
`ActiveRows(height)` is the number of rows the loops permute: `height` when it
is at least 2, otherwise none. `RowBytes(width, channels)` is the number of
bytes the inner loop visits: `width * channels` when positive, otherwise none.
The only precondition is the one the C code needs: the buffer holds
`ActiveRows(height) * RowBytes(width, channels)` bytes.

## Model

| member | source | states |
|---|---|---|
| `Flip.FlipImageVertically` | Project1/Source.cpp:1169-1185 | the buffer after the two loops is the reference flip (rows in reverse order); it is a permutation of the input; bytes past the last row are untouched; with fewer than two rows or a non-positive `width * channels` the buffer is unchanged |
| `Flip.SwapStep` | Project1/Source.cpp:1173-1182 | each inner-loop exchange reads and writes only indices `0 <= index1 < index2 < height * width * channels`, and moves the loop invariant on by one byte of the current row pair |
| `Flip.ProgressEnd` | Project1/Source.cpp:1171 | once the outer loop has run `height / 2` times, every row holds its mirror row, including the middle row of an odd height |
| `Flip.CHalf` | Project1/Source.cpp:1171 | `height / 2` is C's quotient, truncated toward zero, also for negative heights |
| `ImageRows.Swap` | Project1/Source.cpp:1178-1180 | exchanging through `tmp` puts each of the two bytes in the other's place, leaves every other byte alone, and keeps the multiset of bytes |
| `ImageRows.FlipRowsAt` | Project1/Source.cpp:1171-1184 | byte `k` of row `r` after the flip is byte `k` of row `height - 1 - r` before it, for every `r < height` and `k < width * channels` |
| `ImageRows.FlipRowsFromPointwise` | Project1/Source.cpp:1171-1184 | the converse: a buffer that satisfies that byte formula on the rows and equals the input past them is the flip |
| `ImageRows.FlipRowsReversesRows` | Project1/Source.cpp:1173-1183 | rows move as units: cut into rows, the flipped buffer is the input's list of rows reversed, and the bytes after the rows are unchanged |
| `ImageRows.FlipRowsInvolution` | Project1/Source.cpp:1168-1185 | flipping twice restores the original buffer |
| `ImageRows.FlipRowsKeepsMiddleRow` | Project1/Source.cpp:1171 | with an odd number of rows, the middle row `height / 2` is left as it was |
| `ImageRows.FlipRowsTrivial` | Project1/Source.cpp:1171-1176 | with fewer than two rows, or no bytes per row, the flip changes nothing |
| `ImageRows.FlipRowsExample` | Project1/Source.cpp:1169-1185 | three rows of two bytes followed by one spare byte: the top and bottom rows trade places, the middle row and the spare byte stay |
| `Texture.FormatsFor` | Project1/Source.cpp:1206-1214 | a format is chosen exactly for 3 or 4 channels, its pixel format has that many channels and the matching 8-bit internal format; any other count is an unsupported-channels failure |
| `Texture.FormatsForChannelCount` | Project1/Source.cpp:1206-1209 | the inverse: RGB8/RGB is chosen for exactly 3 channels and RGBA8/RGBA for exactly 4 |
| `Texture.CreateTexture` | Project1/Source.cpp:1188-1225 | a null image fails with a load failure; otherwise the result succeeds exactly for 3 or 4 channels, and uploads the flipped pixels with the decoded width, height and matching formats; other channel counts fail as unsupported |
| `Input.TogglePerspective` | Project1/Source.cpp:368-375 | with P down, `perspectiveMode` is inverted; with P up it is kept |
| `Input.ModeFollowsParity` | Project1/Source.cpp:266-283 | calling `ProcessInput` once per frame leaves `perspectiveMode` at its start value exactly when P was down during an even number of frames |

## Left out

- Flip.FlipImageVertically: takes the buffer as a value and returns the flipped buffer. The C function modifies its `unsigned char*` in place. The exchanges and the order they happen in are the same.
- Flip.FlipImageVertically: index arithmetic uses unbounded integers. The C products `j * width * channels` and `(height - 1 - j) * width * channels` are `int` and overflow once they pass 2^31 - 1. The model does not reproduce that undefined behaviour.
- Texture.CreateTexture: returns an error value (`LoadFailed` or `UnsupportedChannels`) where the C function returns `false`. The generated texture name, the wrapping and filtering parameters, mipmap generation, unbinding and the console message are not modelled. They are GL calls and output.
- Texture.CreateTexture: the decoder is not modelled. Its result enters as a parameter: `None` for a null image, otherwise the pixels with the reported width, height and channel count.
- All OpenGL, GLFW, GLEW, GLM and image-decoder calls are left out: window and context setup, shader compilation and linking, uniform and matrix uploads, texture upload and buffer swaps. These are foreign libraries whose behaviour cannot be seen here.
- `Render` and the GLSL shader sources are left out. They are a fixed sequence of draw calls with hand-tuned floating-point transforms and lighting values, in part in another language.
- The other keys of `ProcessInput` are left out: Escape closing the window, and W/S/A/D/Q/E moving the camera. The mouse callbacks and `SwitchPerspective` are left out too. All of them drive floating-point camera or projection state in a library class.
- Resource lifetime is left out: the decoded image is not freed on the unsupported-channels path, and `DestroyTexture` calls `glGenTextures` instead of deleting. These are heap and GL side effects, not logic.
- The mesh generator (`meshes.h`, `CreateMeshes`) is not part of this model. Its source is not available.
