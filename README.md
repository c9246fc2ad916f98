# MCEnchantGlint core in Dafny

MCEnchantGlint turns a still picture into an animated "enchanted item"
picture, like a Minecraft item with the enchantment glint. It scales the
picture up and makes `frame_count` copies of it. Over each copy it pastes a
tiling glint texture, scrolled by (-2, +2) pixels per frame. The result is
written as one GIF, APNG or WEBP file, or as a directory of numbered PNG or
JPG frames (JPG frames fail as written; see Findings). A viewer reads such output back, and a ready list holds the
pictures waiting to be processed.

This project models that core of `main.py`:

- **Raster** (`raster.dfy`): RGBA pixels and images as values.
  - PIL's transparent padding of a crop box that leaves the image.
  - The BOX up-scaling by a whole factor, with the library's premultiplied-alpha round trip.
  - `convert("RGB")`.
  - The per-channel blend of `Image.paste`. It is a parameter `mix` that keeps the destination when the mask is 0.
- **Glint** (`glint.dfy`): `load_glint`, with its size arithmetic and the halving of the glint's alpha; the colour steps in between are a parameter.
- **Geometry** (`geometry.dfy`):
  - the crop origin of frame i;
  - the four glint segments A to D that `process_an_file` pastes;
  - the proof that they tile the canvas with wrap-around.
- **Compositor** (`compositor.dfy`):
  - `crop_and_paste` on a canvas held in an `array2`;
  - the pastes of one frame;
  - `process_an_file`'s frame loop, tied to a value-level specification of each frame.
- **Output** (`output.dfy`):
  - `OutputWay` and `end_fix_trans_map`;
  - a file system held in a class (directories and files), with the errors of `mkdir` and `save`;
  - the format names the image library can write;
  - the choice of a fresh frame directory;
  - `output_frames` for container files and for frame sequences.
- **Viewer** (`viewer.dfy`):
  - the prefix and suffix recovered from a frame name;
  - the classification of a listed entry by `on_item_selected`;
  - the probing read of `load_ani_photo`;
  - the classes `AniPhotoShower` and `AniPhotosViewer`, with the errors of `listdir`;
  - the round trip from what the writer saved to what the reader loads.
- **Assets** (`assets.dfy`): the `ready_assets` and `ready_assets_icons` lists and their list-control labels, as kept by `add_files_to_list` and `remove_item` and cleared at the end of `process_frames`.
- **Text**, **Paths**, **Arith**: helpers.
  - `str()` of a natural number, `rindex`, `split(".")[0]` and `endswith`;
  - `os.path` in its POSIX form: `join`, `basename`, and the parent of a path as the text before its last separator;
  - two facts about Euclidean division.

Two facts about the code shape the model:

- **Paste mask.** `crop_and_paste` pastes the glint alpha onto a black `L` image *through* the canvas alpha (main.py:71-73). The mask is therefore `mix(glintAlpha, 0, canvasAlpha)`, a scaled product of the two alphas.
- **Directory name.** A frame-sequence directory is named after the whole `filename`, extension included (main.py:118-125). That is why the viewer can classify it by its `.png` / `.jpg` ending (main.py:346-350).

## Model

| member | source | states |
|---|---|---|
| Raster.Blend | main.py:74 | for a mix that keeps the destination at mask 0 (`KeepsAtZero`), a zero mask leaves the destination pixel unchanged |
| Raster.DropAlpha | main.py:129 | `convert("RGB")`, which the JPEG writer needs for the frames saved here, keeps the size and the colour of every pixel and makes it opaque |
| Raster.MulDiv255Opaque | main.py:80 | the library's rounded `c·255/255` gives every channel value back unchanged |
| Raster.Premultiplied | main.py:80 | the resize's RGBA → RGBa → RGBA round trip keeps the alpha, blanks a fully transparent pixel and keeps an opaque one |
| Raster.Upscale | main.py:80 | the BOX-resized picture is well formed and exactly `scale` times wider and higher |
| Raster.UpscaleBlock | main.py:80 | every pixel of the s-by-s block at (x·s+i, y·s+j) is source pixel (x, y) after the premultiplied round trip (unchanged when s = 1): the same alpha, and the same colour where opaque |
| Glint.GlintSize | main.py:61 | a non-empty texture scaled by at least 2 gives a glint at least 2 pixels wide and high |
| Glint.GlintSizeWholeTiles | main.py:61 | each side of the glint is a whole multiple of the scale, with the texture's size as quotient |
| Glint.HalveAlpha | main.py:64 | colour channels are kept and each alpha becomes its floor half (2·a' ≤ a ≤ 2·a'+1) |
| Glint.HalvedAlphaAtMostHalf | main.py:64 | an alpha in 0..255 becomes one in 0..127 |
| Glint.LoadGlint | main.py:51-65 | the glint is well formed, `scale` times the texture's size (at least 2×2 for a non-empty texture and scale ≥ 2), and its alphas lie in 0..127 when the colour steps leave them in 0..255 |
| Geometry.CropOrigin | main.py:82-88 | the crop origin lies in [0,gw)×[0,gh) and is congruent to the scroll offset (-2i, 2i) modulo the glint size |
| Geometry.CropOriginStep | main.py:105-106 | the next frame's origin is (x-2 mod gw, y+2 mod gh) of this frame's |
| Geometry.CropOriginFirstFrames | main.py:88 | frame 0 starts at (0,0) and frame 1 at (gw-2, 2 mod gh) |
| Geometry.Segments | main.py:93-103 | A comes first; B is pasted iff both edges overflow, C iff the right edge does, D iff the bottom edge does; the count is exactly that |
| Geometry.SegmentDest | main.py:93-103 | each segment is a valid box, and a canvas position is in its destination iff it is on that segment's side of both cuts |
| Geometry.SegmentsDisjoint | main.py:93-103 | no canvas position lies in two of the pasted destination rectangles |
| Geometry.SegmentsCover | main.py:93-103 | every canvas position lies in some pasted destination rectangle |
| Geometry.SegmentsInsideCanvas | main.py:93-103 | every pasted destination position lies on the canvas |
| Geometry.SegmentSource | main.py:93-103 | a position is sourced from glint column cx+x or cx+x-gw (and likewise for rows), with the wrap taken only past the glint's edge |
| Geometry.SegmentSourceWraps | main.py:88-103 | when the canvas is no larger than the glint, pixel (x,y) is sourced from glint pixel ((cx+x) mod gw, (cy+y) mod gh) |
| Compositor.PasteAllKeepsTransparent | main.py:71-74 | a fully transparent canvas pixel is left unchanged by any sequence of pastes |
| Compositor.PasteAllOnce | main.py:93-103 | a pixel covered by exactly one segment gets that segment's paste alone |
| Compositor.PasteAllNone | main.py:70-74 | a pixel covered by no segment is unchanged |
| Compositor.FramePixel | main.py:85-103 | each canvas pixel receives one paste, from the wrapped glint position |
| Compositor.WrapIsMod | main.py:88 | the wrapped source coordinate equals (offset + v) mod period |
| Compositor.Enchanted | main.py:87-104 | a frame is well formed and has the size of the scaled source |
| Compositor.EnchantedSamplesDiagonal | main.py:85-106 | pixel (x,y) of frame i mixes glint pixel ((x-2i) mod gw, (y+2i) mod gh) over the source pixel through the pasted mask |
| Compositor.EnchantedKeepsTransparent | main.py:71-74 | the glint never appears where the source is fully transparent |
| Compositor.CropAndPaste | main.py:68-74 | every canvas pixel inside the pasted rectangle is blended with its glint pixel through the mask, and every other pixel is unchanged |
| Compositor.PasteNext | main.py:68-74 | pasting one more segment extends the value-level paste history by that segment |
| Compositor.EnchantFrame | main.py:87-103 | after the pastes of one frame, every pixel equals the ordered pastes of the frame's segments over its old value |
| Compositor.Snapshot | main.py:104 | the kept frame has the canvas's size and pixels |
| Compositor.ProcessAnFile | main.py:77-107 | exactly `frame_count` frames, frame i being the i-th enchanted copy of the scaled source; progress reports 1..frame_count in order |
| Output.WayOf | main.py:23-28 | a code names an output kind iff it is 0..4, and that kind has this code; any other code is refused (the `ValueError` that `OutputWay(...)` raises at line 244) |
| Output.EndFixTransMapTotal | main.py:31-37 | every kind has an extension, one of gif/png/webp/jpg, with no dot, separator or underscore |
| Output.Upper | main.py:129 | the format name is the extension with each character upper-cased (also line 114) |
| Output.Stem | main.py:114 | the stem is the basename up to its first dot: a prefix of it, with no dot and no separator (also line 129) |
| Output.FramePathIndexed | main.py:129 | frame i is saved as `<dir>/<stem>_<i>.<ext>` |
| Output.FramePathInjective | main.py:129 | different frame indices give different file names |
| Output.MissingParent | main.py:126 | a path whose parent is not a directory fails with `NotADirectoryError` when the parent is a file and with `FileNotFoundError` when the parent is missing from an existing directory |
| Output.FileSystem.Mkdir | main.py:126 | `FileExistsError` if the path exists; `NotADirectoryError` or `FileNotFoundError` if its parent is not a directory; otherwise exactly that directory is added |
| Output.FileSystem.Save | main.py:129 | `KeyError` for a format name with no writer, before any file is touched; then `IsADirectoryError` on a directory, `NotADirectoryError` or `FileNotFoundError` without a parent directory; otherwise exactly that file is created or replaced (also the container save at line 114) |
| Output.EncodedImages | main.py:127-129 | one stored image per frame, in order: the frame itself, or its RGB version when the encoding converts |
| Output.ContainerFormatsRegistered | main.py:114 | the format name of every container kind (GIF, PNG, WEBP) has a writer |
| Output.JpgFormatAsWrittenUnregistered | main.py:129 | as written, JPG frames are saved under the format name "JPG", which has no writer |
| Output.FrameEncoding | main.py:129 | as intended, PNG frames are saved as written and JPG frames are converted to RGB and saved as "JPEG"; both kinds then have a writer |
| Output.FrameFormatsRegistered | main.py:129 | the intended encoding of each frame-sequence kind has a writer |
| Output.JpgFramesAsWritten | main.py:124-129 | one frame of `a.jpg` written as JPG frames into `out`: `out/a.jpg` is created, progress 1 is reported, then `KeyError("JPG")` and no file |
| Output.JpgFramesCorrected | main.py:116-129 | with the intended encoding, JPG frames written under a free name whose parent exists always succeed: the directory is created and every frame is stored there as its RGB version under "JPEG", after its progress event |
| Output.CandidatesBound | main.py:118-123 | n existing numbered candidates need at least n directories |
| Output.FirstFreeIsFree | main.py:118-125 | the chosen directory never already exists |
| Output.FirstFreeUnique | main.py:118-125 | at most one name is the first free choice |
| Output.ProbeAsWrittenAgrees | main.py:118-125 | the probe as written ends iff the plain name or ` (1)` is free, and then picks the first free name |
| Output.ProbeAsWrittenHangsOnThirdRun | main.py:118-123 | with `out/a.png` and `out/a.png (1)` present, the probe as written does not end, though `out/a.png (2)` is the first free name |
| Output.ChooseDirName | main.py:118-125 | the loop returns the plain name if free, else the first free ` (k)` name |
| Output.WrittenFramesHolds | main.py:127-129 | after saving frames 0..n-1, each frame k is in its own file with its own picture |
| Output.WrittenFramesElsewhere | main.py:127-129 | saving the frames touches no other path |
| Output.SequenceTraceAt | main.py:127-129 | progress i+1 is reported immediately before frame i is saved, for every i |
| Output.DirNameShape | main.py:118-125 | a chosen directory name is non-empty and does not end in a separator |
| Output.FrameNameHasNoSep | main.py:129 | a frame name has no separator |
| Output.FramePathFits | main.py:126-129 | in a fresh directory, a frame path is never a directory and its parent exists |
| Output.SaveFrames | main.py:127-129 | on success, exactly the frame files are written as the encoding stores them, with the progress and save events interleaved; no frames writes nothing; a format with no writer fails with `KeyError` after progress 1 and writes nothing; with a writer, into a fresh directory, it always succeeds |
| Output.OutputFrameSequence | main.py:116-129 | the first free directory is chosen, by the probe as evidently intended (as written, the loop never ends when both X and `X (1)` exist; see Findings), and created; then the frames are written. This succeeds iff that name is not a file, its parent exists, and the format has a writer or there are no frames; a format with no writer leaves the new directory, progress 1 and `KeyError` |
| Output.OutputContainer | main.py:112-115 | `IndexError` on no frames; otherwise one file `<stem>.<ext>` holding the first frame followed by all frames, 50 ms per frame, looping |
| Output.OutputFrames | main.py:110-131 | dispatches on the kind, with each branch's full outcome and new file-system state; frame sequences use the intended probe and the intended JPEG encoding (see Findings), and then succeed iff the directory can be created |
| Text.DigitsValueOfNatToString | main.py:129 | `str(n)` reads back as n |
| Text.NatToStringInjective | main.py:121 | different numbers give different strings |
| Text.RIndex | main.py:391 | `rindex` returns the last occurrence, or is absent exactly when the character is |
| Text.FirstField | main.py:114 | `split(".")[0]` is a dot-free prefix that ends where the first dot is |
| Paths.Join | main.py:129 | an absolute second part replaces the first; otherwise the result extends the first part and ends with the second |
| Paths.Basename | main.py:114 | the basename has no separator, ends the path, and is preceded by a separator when shorter |
| Paths.BasenameIdempotent | main.py:263 | the writer's `basename` of the basename it is handed is that basename, so the stem is the same as for the full path (as used at lines 114 and 129) |
| Paths.ParentOfJoin | main.py:126 | joining a name to a directory gives `dir/name`, whose parent is that directory |
| Paths.JoinCancel | main.py:393 | joins to the same directory are equal only for equal names |
| Viewer.PrefixSuffix | main.py:391 | present iff the name has `_` and `.`; the prefix runs up to and including the last `_`, and the suffix is the name's final `.` part |
| Viewer.PrefixSuffixOfFrameName | main.py:391 | from a written frame name the reader recovers exactly `<stem>_` and `.<ext>` (names as written at line 129) |
| Viewer.Classify | main.py:345-357 | a frame kind is given only for directories and a container kind only for files, and only when the path ends in that kind's extension |
| Viewer.ClassifyContainerPath | main.py:351-357 | a container file the writer saved is classified as its own kind (names as written at line 114) |
| Viewer.ClassifyFrameDirectory | main.py:346-350 | a directory named after a `.png` / `.jpg` file is classified as PNG / JPG frames (directories as created at line 125) |
| Viewer.ClassifyNumberedDirectory | main.py:346-357 | a numbered ` (k)` directory is never classified, so it cannot be opened (directories as created at line 122) |
| Viewer.AllFrames | main.py:381-385 | a still picture has one frame; an animation has its own frames |
| Viewer.LoadContainer | main.py:381-385 | an existing file yields its frames; otherwise the error `open` raises, with no frames: `IsADirectoryError` on a directory, `NotADirectoryError` when the path runs through a file, `FileNotFoundError` when a name is missing |
| Viewer.ContainerReadBack | main.py:381-385 | reading a written container gives back the images handed to the encoder: the first frame followed by all the frames (files as saved at lines 114-115) |
| Viewer.ProbePathsBound | main.py:392-399 | a run of n present probe paths needs n files, so probing ends |
| Viewer.RunNotBefore | main.py:392-399 | a missing index is no earlier than the end of a present run |
| Viewer.ContiguousRunUnique | main.py:392-399 | the run probed from index 0 has exactly one length |
| Viewer.ProbeFrames | main.py:390-399 | indices 0..n-1 are present and n is missing; frame k is the picture at probe path k |
| Viewer.ReadFrameSequence | main.py:386-399 | missing or non-directory: the listing error; no `_` or `.` in the first entry: `ValueError`; otherwise the contiguous run |
| Viewer.WrittenFramesOrigin | main.py:127-129 | every new file after saving is one of the frame paths |
| Viewer.ListedEntryIsFrameName | main.py:388 | every entry of a freshly written frame directory is some frame's name (directories as written at lines 127-129) |
| Viewer.ProbeIsFramePath | main.py:393 | the reader's probe path k is the writer's path of frame k (paths as written at line 129) |
| Viewer.ReadBackFirstName | main.py:387-391 | with frames written, the first entry yields `<stem>_` and `.<ext>`; with none, the listing is empty and the split fails (directories as written at lines 127-129) |
| Viewer.ReadBackRun | main.py:392-399 | the written frames form the contiguous run the reader probes, and probe k opens the image handed to the encoder for frame k (frames as written at lines 127-129) |
| Viewer.ReadBackWritten | main.py:386-399 | reading a freshly written directory gives back the images handed to the encoder, in frame order; with no frames, `ValueError` (directories as written at lines 116-129) |
| Viewer.AniPhotoShower.constructor | main.py:364-371 | no frames, index 0, count 0 |
| Viewer.AniPhotoShower.LoadAniPhoto | main.py:377-403 | the frames loaded for the kind; on success the index is reset and the count is the number of frames; on an error nothing is loaded and the counters stay |
| Viewer.AniPhotosViewer.constructor | main.py:323-334 | the viewer starts on its start directory, listing its entries when it is a directory, with an empty shower |
| Viewer.AniPhotosViewer.LoadDir | main.py:336-340 | the directory becomes the active one and the list is emptied; a directory's listing then fills it; otherwise `listdir`'s `NotADirectoryError` or `FileNotFoundError`, with the list left empty |
| Viewer.AniPhotosViewer.OnItemSelected | main.py:342-360 | the item is classified by kind; an unclassified item changes nothing; otherwise the shower loads it, resetting the index and setting the count on success, and keeping the counters with no frames on an error |
| Assets.FilesOnly | main.py:291-292 | the kept paths are all files, and there are no more of them than were given |
| Assets.FilesOnlyMember | main.py:291-292 | a path is kept iff it was given and is a file |
| Assets.FilesOnlyConcat | main.py:291-300 | filtering two batches in turn is filtering their concatenation, so given order is kept |
| Assets.IconsFor | main.py:293-296 | one icon per kept path, made from that path's picture, in the same order |
| Assets.Labels | main.py:297-298 | each label is its path's basename (and when refilled at lines 315-316) |
| Assets.PopIndex | main.py:312-313 | `pop(index)` succeeds iff -n ≤ index < n, at a position below n |
| Assets.PopIndexMod | main.py:312-313 | the popped position is the index taken modulo the length |
| Assets.Without | main.py:312-313 | entries before k are kept in place; entries after k move down by one |
| Assets.WithoutMultiset | main.py:312-313 | removing entry k keeps the other entries, with their multiplicities |
| Assets.ReadyAssets.constructor | main.py:147 | both lists and the labels start empty |
| Assets.ReadyAssets.AddFilesToList | main.py:290-300 | only files are appended, in given order, with their icons; the lists keep equal lengths and labels stay the basenames |
| Assets.ReadyAssets.Clear | main.py:268-270 | the list control, the paths and the icons are all emptied |
| Assets.ReadyAssets.RemoveItem | main.py:308-317 | the same position is removed from both lists, or `IndexError` with nothing changed; labels are rebuilt from the paths |

## Left out

- The wxPython interface (layout, painting, menus, drag and drop, message boxes, progress bars and their `perf_counter` throttling): presentation only, not logic.
- `widget.py`: widgets and font handling only.
- The worker thread and `wx.CallAfter`: these only keep the interface responsive. The model runs the work in sequence.
- Image-library operations are opaque, and only their sizes and pixel bookkeeping are modelled. This covers opening and converting files, the resampling filter of the glint resize, `GaussianBlur`, the brightness boost, and the GIF/APNG/WEBP/PNG/JPEG encoders beyond the format names they are registered under.
- Raster.Blend: the rounding of `Image.paste`'s per-channel mix is not pinned down. The blend is a parameter, and the model relies only on a zero mask keeping the destination.
- Glint.LoadGlint: the steps between opening the texture and halving the alpha (the `convert_as_alpha` pass, the resize, the blur and the brightness boost) are one parameter, required only to scale the texture's size by `scale`; their pixel values are not modelled.
- `convert_as_alpha` (main.py:53-55): float arithmetic with `int()` truncation and no clamping to 0..255. How PIL stores an out-of-range alpha is library behaviour.
- Playback timing in `update_photo` and the time stamps of `load_ani_photo`: float wall-clock arithmetic.
- The debug `show()` when `frame_count` is 1, and the `test()` helper: neither changes any state.
- `process_frames`' loop over the ready list: it only calls `process_an_file`, `output_frames` and `load_dir`, all modelled, with progress messages. Its final clearing of the ready list is Assets.ReadyAssets.Clear.
- `remove_item`'s `ImageList.Remove(i)` loop over a shrinking image list: GUI resource bookkeeping. The model keeps the paths, icons and labels that the list control shows.
- Assets.ReadyAssets.AddFilesToList: the icon is the picture it was made from. The 64×64 BOX resize and the RGBA conversion are not modelled.
- Assets.ReadyAssets.AddFilesToList: every file is taken to be a readable picture. When `Image.open` raises on a file that is not one (main.py:292), the batch ends part-way with the earlier files already added; that is not modelled.
- Paths: `os.path` is modelled in its POSIX form with `/` as separator, not Windows' `ntpath`. The empty string stands both for `/` and for the current directory (`Parent("/a")` is ""), so `Mkdir("")` reports `FileExistsError` where `os.mkdir("")` raises `FileNotFoundError`. The writer never reaches this, since its directory name always joins a non-empty name.
- Viewer.LoadContainer: every file is taken to be a readable picture. `Image.open` on a file that is not one raises `UnidentifiedImageError` after the frames were cleared (main.py:380-382), and so does the open of a frame file at main.py:395; that is not modelled.
- Viewer: `listdir`'s order is whatever the file system returns. The listing is a parameter. `Lists` only requires each listed name to be an entry of the directory, and the listing to be empty only for an empty directory; it does not require every entry to be listed.
- Viewer.AniPhotosViewer.constructor: when the start directory cannot be listed, `listdir` raises out of `__init__` (main.py:334) and no viewer is made. The model makes one with an empty list instead.
- Viewer.ContainerReadBack: decoding is taken to return what the encoder was handed. The GIF and APNG writers merge identical consecutive frames, so the duplicated first frame is not read back twice; GIF also reduces colours to a palette, and WEBP is lossy.
- Viewer.ReadBackWritten: decoding is taken to return what the encoder was handed. JPEG is lossy, so the pixels read back are only close to the RGB frames.
- Output.OutputContainer: the encoder receives the first frame and then all frames again (`append_images=frames`). The model stores exactly that sequence. Whether an encoder merges the duplicated first frame is encoder behaviour.
- The `else: raise ValueError` at main.py:130-131 cannot be reached with an `OutputWay` value. Turning a raw code into a kind, with its `ValueError`, is modelled by Output.WayOf.
- Output.FileSystem: permissions, disk-full and other I/O failures are not modelled. `mkdir` and `save` fail only for an existing path, a missing parent, a file where a directory should be, a directory in the way, or (for `save`) a format name with no writer.

## Findings

| source | as written | input that shows it | evidently intended | confidence | as-written member | corrected member |
|---|---|---|---|---|---|---|
| main.py:118-123 | `counter` starts at 1 and is never incremented, so the loop only ever tests ` (1)` | output directory `out` holding `a.png` and `a.png (1)` as directories, then saving frames of `a.png` again | try ` (1)`, ` (2)`, … and use the first free name (`out/a.png (2)`) | high; not executed | Output.ProbeAsWrittenHangsOnThirdRun | Output.ChooseDirName |
| main.py:129 | JPG frames are saved with the format name `end_fix.upper()`, that is "JPG", which the image library has no writer for, so `save` raises `KeyError` | one frame of `a.jpg` written as JPG frames into `out`: `out/a.jpg` is created and progress 1 reported, then `KeyError("JPG")` and no frame file | save as "JPEG" after `convert("RGB")`, since JPEG has no alpha | high; not executed | Output.JpgFramesAsWritten | Output.JpgFramesCorrected |
