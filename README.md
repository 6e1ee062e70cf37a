# Looping slideshow timeline

A Dafny model of `create_looped_video` in `makelongvideo.py`. This script turns a folder of images and a background track into one long sleep video. The model covers the rules that decide what goes into the video:

- **Image selection.** A directory entry is kept when its lower-cased name ends in `.png`, `.jpg` or `.jpeg`. Kept entries stay in listing order and are joined to the directory path.
- **Early return.** When no entry is kept, the run stops before any clip is built and nothing is written.
- **Clip sequencing.** A `while` loop over the elapsed time holds a `for` loop over the images. Each step appends one clip of `dur` seconds and advances `current_time`. The `for` loop `break`s as soon as `current_time >= target`.
- **Resize rule.** A clip is scaled to height 1080 unless its image is exactly 1920×1080.
- **Soundtrack.** The background track is looped to the target length when its file exists. Otherwise the video is silent.
- **Output name.** The file is called `Lullaby_Loop_<target // 60>min.mp4`.

The module constants `TARGET_DURATION_SECONDS` and `IMAGE_DURATION_SECONDS` become the parameters `target` and `dur`, with `dur > 0`, because for a positive target the source loop never stops otherwise (see "Left out"). Some inputs come from the outside world: the directory listing, each image's pixel size (`sizeOf`) and whether the music file exists (`bgmExists`). These are all parameters.

Files:

- `longvideo.dfy`, module `LongVideo`: the selection, the timeline, the clip-building loop (`BuildClips`), the soundtrack and name rules, and the whole run (`CreateLoopedVideo`).
- `decimal.dfy`, module `Decimal`: how an f-string prints a Python `int`, and a parser that reads it back.
- `wrappers.dfy`, module `Wrappers`: the `Option` type the other two share.

The timeline has two independent definitions, proved equal:

- `Timeline` says clip *k* shows image *k mod n*, and there are `ClipCount(target, dur)` clips.
- `TimelineIsPasses` says the timeline is whole passes over the image list, with only the last pass cut short by the `break`.

`ClipCount` is pinned down by its bounds (`target <= count * dur < target + dur`), and `CeilDivUnique` shows that those bounds determine it. `BuildClips` is proved to return exactly `Timeline`.

Python's `//` floors. Dafny's `/` on `int` is Euclidean. The two agree here because the divisor, 60, is positive, and `WholeMinutes` states the floor property outright, negative lengths included.

## Model

| member | source | states |
|---|---|---|
| `LongVideo.Lower` | makelongvideo.py:30 | `f.lower()` keeps the length and leaves no upper-case ASCII letter. Each upper-case letter becomes its own lower-case letter, and every other character is unchanged. |
| `LongVideo.LowerIdempotent` | makelongvideo.py:30 | Lower-casing an already lower-cased name changes nothing. |
| `LongVideo.HasImageExtension` | makelongvideo.py:30 | The filter `f.lower().endswith(('.png', '.jpg', '.jpeg'))`. An entry is kept iff its name ends in `.png`, `.jpg` or `.jpeg` with each letter in either case. |
| `LongVideo.EndsWithLower` | makelongvideo.py:30 | For a pattern of lower-case letters and dots, the lower-cased name ends with the pattern iff the name ends with it letter by letter, ignoring case. |
| `LongVideo.HasImageExtensionIgnoresCase` | makelongvideo.py:30 | A name is an image iff its lower-cased form is. |
| `LongVideo.ImageExtensionAccepted` | makelongvideo.py:30 | `A.PNG` and `b.Jpeg` are kept. |
| `LongVideo.ImageExtensionRejected` | makelongvideo.py:30 | `x.gif` and `png`, which has no dot, are not kept. |
| `LongVideo.JoinPath` | makelongvideo.py:30 | `os.path.join(IMAGE_DIR, f)`. An absolute name replaces the directory. Otherwise the result starts with the directory and ends with the name. A `/` is inserted between them iff the directory is non-empty and does not already end in `/`. |
| `LongVideo.JoinPathInjective` | makelongvideo.py:30 | For relative names under one directory, the joined paths are equal iff the names are equal. So distinct entries give distinct image paths. |
| `LongVideo.SelectImages` | makelongvideo.py:30 | The comprehension over `os.listdir`. It never yields more paths than there are entries. Its order and membership are stated by the three lemmas below. |
| `LongVideo.SelectImagesAppend` | makelongvideo.py:30 | Selecting from `a + b` equals selecting from `a`, then from `b`. So kept entries keep their listing order. |
| `LongVideo.SelectImagesMember` | makelongvideo.py:30 | A path is selected iff some listing entry has an image extension and joins to that path. |
| `LongVideo.SelectImagesEmpty` | makelongvideo.py:30-34 | The selection is empty iff no entry has an image extension. This is the condition of the early return. |
| `LongVideo.CeilDiv` | makelongvideo.py:48-66 | The number of `b`-second steps needed to reach `a` seconds: `a <= c*b < a + b`. |
| `LongVideo.CeilDivUnique` | makelongvideo.py:48-66 | Any count that meets `a <= c*b < a + b` is `CeilDiv(a, b)`. So the loop's stopping condition fixes the number of clips. |
| `LongVideo.ClipCount` | makelongvideo.py:48-66 | There are no clips when `target <= 0`. Otherwise the clips' total time reaches the target and overshoots it by less than one clip: `target <= count*dur < target + dur`. |
| `LongVideo.NeedsResize` | makelongvideo.py:59-62 | Resize iff the size is not exactly 1920×1080, i.e. iff `width != 1920 or height != 1080`. |
| `LongVideo.ClipOf` | makelongvideo.py:54-62 | A clip shows its image for `dur` seconds. It is marked resized iff the image is not exactly 1920×1080. |
| `LongVideo.TimelineIsPasses` | makelongvideo.py:48-66 | The timeline is `passes` whole `for` passes over the images, truncated to `ClipCount`. Only the last pass is incomplete: `(passes-1)*n < count <= passes*n`. |
| `LongVideo.BuildClips` | makelongvideo.py:43-67 | The loop returns exactly `Timeline`: clip *k* is built from image *k mod n*, and there are `ceil(target/dur)` clips. `current_time == clips * dur`, and the progress bar advanced by `current_time`. When `target <= 0` no clip is built. Otherwise `target <= current_time < target + dur`. |
| `LongVideo.Soundtrack` | makelongvideo.py:78-88 | Music is attached iff the BGM file exists. It is looped to exactly the target length. |
| `LongVideo.WholeMinutes` | makelongvideo.py:94 | `seconds // 60` is the floor: `m*60 <= seconds < m*60 + 60`. |
| `LongVideo.OutputName` | makelongvideo.py:94 | The name starts with `Lullaby_Loop_`, ends with `min.mp4`, and has something between them. |
| `LongVideo.OutputNameRoundTrip` | makelongvideo.py:94 | Reading the number back out of the output name gives `target // 60`. |
| `LongVideo.OutputNameSameIffSameMinutes` | makelongvideo.py:94 | Two targets produce the same file name iff they have the same whole number of minutes. |
| `LongVideo.CreateLoopedVideo` | makelongvideo.py:26-105 | Nothing is produced iff no entry has an image extension. Otherwise the video's clips are the `Timeline` of the selected images. It is trimmed to `target` seconds, carries the `Soundtrack`, and is written under `OutputName(target)`. |
| `LongVideo.ConfiguredRun` | makelongvideo.py:18-22 | With the configured 3600 s target and 15 s slides there are 240 clips, written to `Lullaby_Loop_60min.mp4`. |
| `Decimal.NatToString` | makelongvideo.py:94 | A natural number prints as a non-empty string of digits. It starts with `0` only when it is `0`. |
| `Decimal.DigitsValueOfNatToString` | makelongvideo.py:94 | The digits printed for `n` spell `n`. |
| `Decimal.IntToString` | makelongvideo.py:94 | An int prints with a leading `-` iff it is negative. Then come digits without a leading zero: a non-negative int starts with `0` iff it is `0`, and `0` prints as exactly `"0"`. |
| `Decimal.ParseIntToString` | makelongvideo.py:94 | Parsing the printed form of any int gives that int back. |
| `Decimal.IntToStringInjective` | makelongvideo.py:94 | Two ints print the same iff they are equal. |

## Left out

- The moviepy calls are not modelled: `ImageClip`, `resize`, `concatenate_videoclips`, `set_duration`, `AudioFileClip`, `loop`, `set_audio` and `write_videofile`. They belong to a foreign media library with floating-point timing. A clip, the soundtrack and the video are tags that record what was asked of the library.
- The encoder settings (`libx264`, `aac`, the temporary audio file, 24 fps, 4 threads) are not modelled. Neither is what moviepy does when asked to join an empty clip list, which happens when `target <= 0`.
- `Image.open` and `img.size` become the input `sizeOf`. `os.listdir` becomes the input `listing`. `os.path.exists` becomes the input `bgmExists`. The model reads no files.
- The tqdm progress bar is modelled only as the total it is advanced by, the `progress` result of `BuildClips`. All console messages are left out.
- `LongVideo.BuildClips`: requires `dur > 0`. With `IMAGE_DURATION_SECONDS <= 0` and a positive target, the loop at lines 48-66 never ends. `current_time` then never grows, and clips are appended without limit. The model covers only the terminating case, which includes the configured 15 seconds.
- `LongVideo.Lower`: lower-cases only the ASCII letters A–Z. Python's `str.lower` also folds non-ASCII letters. This cannot change which names end in `.png`, `.jpg` or `.jpeg`, except through non-ASCII characters that lower-case to those ASCII letters.
- `LongVideo.JoinPath`: follows POSIX `os.path.join`, with `/` as the separator. On Windows, `ntpath.join` inserts `\` and treats drive letters specially. The configured paths are Windows paths.
- The clip lengths and the target are integers, as the configured constants are. Fractional seconds are not modelled.
- The MIDI upload, generate, poll and download client of the repository is not part of this model. Its source is not among the files modelled here.
