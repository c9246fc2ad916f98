/** The viewer side: how a selected list entry is classified as an output
    kind, and how `load_ani_photo` reads the frames back, in particular how a
    frame sequence is found from one of its file names. */
module Viewer {
  import opened Text
  import opened Paths
  import opened Raster
  import opened Output

  /** `name[0:name.rindex("_") + 1]` and `name[name.rindex("."):]`: the text up
      to and including the last underscore, and the text from the last dot.
      None where either `rindex` raises ValueError. */
  function PrefixSuffix(name: string): (r: Option<(string, string)>)
    ensures r.Some? <==> '_' in name && '.' in name
    ensures r.Some? ==> |r.value.0| > 0 && r.value.0 <= name && r.value.0[|r.value.0| - 1] == '_' &&
                        '_' !in name[|r.value.0|..]
    ensures r.Some? ==> |r.value.1| > 0 && EndsWith(name, r.value.1) && r.value.1[0] == '.' &&
                        '.' !in r.value.1[1..]
  {
    match RIndex(name, '_')
    case None => None
    case Some(u) =>
      match RIndex(name, '.')
      case None => None
      case Some(d) =>
        assert name[d..][1..] == name[d + 1..];
        Some((name[..u + 1], name[d..]))
  }

  /** The writer's name for frame i splits back into `<stem>_` and `.<ext>`,
      whatever the stem holds, as long as the extension has no underscore
      and no dot. */
  lemma PrefixSuffixOfFrameName(stem: string, i: nat, ext: string)
    requires '_' !in ext && '.' !in ext
    ensures PrefixSuffix(FrameName(stem, i, ext)) == Some((stem + "_", "." + ext))
  {
    var d := NatToString(i);
    var name := FrameName(stem, i, ext);
    assert '_' !in d + "." + ext by {
      assert forall k :: 0 <= k < |d| ==> d[k] != '_';
    }
    assert name == stem + ['_'] + (d + "." + ext);
    RIndexOfJoin(stem, '_', d + "." + ext);
    assert name == (stem + "_" + d) + ['.'] + ext;
    RIndexOfJoin(stem + "_" + d, '.', ext);
    assert name[..|stem| + 1] == stem + "_";
    assert name[|stem + "_" + d|..] == "." + ext;
  }

  lemma DotExtensions()
    ensures "." + EndFixTransMap[FramesPng] == ".png" && "." + EndFixTransMap[FramesJpg] == ".jpg"
    ensures "." + EndFixTransMap[OnefileGif] == ".gif" && "." + EndFixTransMap[OnefileWebp] == ".webp"
    ensures "." + EndFixTransMap[OnefileApng] == ".png"
  {
  }

  /** The kind `on_item_selected` infers for an entry of the output
      directory: directories named `.png`/`.jpg` are frame sequences, files
      named `.gif`/`.webp`/`.png` are containers, anything else is ignored. */
  function Classify(isDir: bool, isFile: bool, path: string): (way: Option<OutputWay>)
    ensures way.Some? && IsFrameSequence(way.value) ==> isDir
    ensures way.Some? && IsContainer(way.value) ==> !isDir && isFile
    ensures way.Some? ==> EndsWith(path, "." + EndFixTransMap[way.value])
  {
    DotExtensions();
    if isDir then
      if EndsWith(path, ".png") then Some(FramesPng)
      else if EndsWith(path, ".jpg") then Some(FramesJpg)
      else None
    else if isFile then
      if EndsWith(path, ".gif") then Some(OnefileGif)
      else if EndsWith(path, ".webp") then Some(OnefileWebp)
      else if EndsWith(path, ".png") then Some(OnefileApng)
      else None
    else None
  }

  /** The file the writer saves for a container kind ends in `.<ext>`. */
  lemma ContainerPathEnds(outputDir: string, filename: string, way: OutputWay)
    ensures EndsWith(ContainerPath(outputDir, filename, way), "." + EndFixTransMap[way])
  {
    EndFixTransMapTotal(way);
    var path := ContainerPath(outputDir, filename, way);
    var stem := Stem(filename);
    var dotExt := "." + EndFixTransMap[way];
    var name := stem + dotExt;
    assert stem + "." + EndFixTransMap[way] == name;
    assert name[0] != Sep by {
      if |stem| > 0 {
        assert name[0] == stem[0] && stem[0] in stem;
      }
    }
    EndsWithConcat(stem, dotExt);
    EndsWithTrans(path, name, dotExt);
  }

  /** A file the writer saved for a container kind is classified as that kind. */
  lemma ClassifyContainerPath(outputDir: string, filename: string, way: OutputWay)
    requires IsContainer(way)
    ensures Classify(false, true, ContainerPath(outputDir, filename, way)) == Some(way)
  {
    var path := ContainerPath(outputDir, filename, way);
    ContainerPathEnds(outputDir, filename, way);
    DotExtensions();
    EndsWithLast(path, "." + EndFixTransMap[way]);
    if way == OnefileApng {
      DifferentLast(path, ".gif");
      DifferentLast(path, ".webp");
    } else if way == OnefileWebp {
      DifferentLast(path, ".gif");
    }
  }

  /** A frame-sequence directory is classified by the extension of the file
      it was made from, not by the kind it was written as. */
  lemma ClassifyFrameDirectory(outputDir: string, filename: string)
    requires |filename| > 0 && filename[0] != Sep
    ensures EndsWith(filename, ".png") ==> Classify(true, false, Join(outputDir, filename)) == Some(FramesPng)
    ensures EndsWith(filename, ".jpg") ==> Classify(true, false, Join(outputDir, filename)) == Some(FramesJpg)
  {
    var path := Join(outputDir, filename);
    if EndsWith(filename, ".png") {
      EndsWithTrans(path, filename, ".png");
    }
    if EndsWith(filename, ".jpg") {
      EndsWithTrans(path, filename, ".jpg");
    }
  }

  /** A directory renamed to `filename (k)` ends in ')' and is never shown. */
  lemma ClassifyNumberedDirectory(outputDir: string, filename: string, k: nat, isDir: bool, isFile: bool)
    ensures Classify(isDir, isFile, Candidate(outputDir, filename, k)).None?
  {
    var name := filename + " (" + NatToString(k) + ")";
    var path := Candidate(outputDir, filename, k);
    if name[0] != Sep {
      EndsWithLast(path, name);
    }
    assert path[|path| - 1] == ')';
    DifferentLast(path, ".png");
    DifferentLast(path, ".jpg");
    DifferentLast(path, ".gif");
    DifferentLast(path, ".webp");
  }

  /** What a file shows when opened without seeking: its first frame. */
  function Opened(s: Stored): Bitmap
  {
    match s
    case Still(_, image) => image
    case Animation(_, images, _, _) => if |images| > 0 then images[0] else Bitmap(0, 0, [])
  }

  /** Every frame of an opened file, as `seek(i)` for i < `n_frames` visits them. */
  function AllFrames(s: Stored): (r: seq<Bitmap>)
    ensures s.Still? ==> r == [s.image]
    ensures s.Animation? ==> r == s.images
  {
    match s
    case Still(_, image) => [image]
    case Animation(_, images, _, _) => images
  }

  /** The container branch of `load_ani_photo`: every frame of the file at path. */
  function LoadContainer(files: map<string, Stored>, dirs: set<string>, path: string): (result: (Outcome, seq<Bitmap>))
    ensures result.0.Pass? <==> path in files
    ensures path in files ==> result.1 == AllFrames(files[path])
    ensures path !in files ==> result.1 == []
    ensures path !in files && path in dirs ==> result.0 == Fail(IsADirectoryError(path))
    ensures path !in files && path !in dirs ==>
      result.0 == Fail(if HitsFile(dirs, files, path) then NotADirectoryError(path) else FileNotFoundError(path))
  {
    if path in files then (Pass, AllFrames(files[path]))
    else if path in dirs then (Fail(IsADirectoryError(path)), [])
    else if HitsFile(dirs, files, path) then (Fail(NotADirectoryError(path)), [])
    else (Fail(FileNotFoundError(path)), [])
  }

  /** Reading back a container the writer saved yields the first frame twice
      and then every frame once, as the writer stored them. */
  lemma ContainerReadBack(files: map<string, Stored>, dirs: set<string>, outputDir: string, filename: string,
                          frames: seq<Bitmap>, way: OutputWay)
    requires IsContainer(way) && |frames| > 0
    ensures
      var path := ContainerPath(outputDir, filename, way);
      var written := files[path := Animation(Upper(EndFixTransMap[way]), [frames[0]] + frames, 50, 0)];
      && LoadContainer(written, dirs, path) == (Pass, [frames[0]] + frames)
      && |LoadContainer(written, dirs, path).1| == |frames| + 1
  {
  }

  /** `listing` is a possible result of `listdir(dir)`: names of entries of
      dir, in any order, and empty only when dir has no entry. */
  ghost predicate Lists(files: map<string, Stored>, dirs: set<string>, dir: string, listing: seq<string>)
  {
    && (forall k :: 0 <= k < |listing| ==>
          listing[k] != [] && Sep !in listing[k] &&
          (Join(dir, listing[k]) in files || Join(dir, listing[k]) in dirs))
    && (listing == [] ==>
          (forall f {:trigger Parent(f)} :: f in files ==> Parent(f) != dir) &&
          (forall d {:trigger Parent(d)} :: d in dirs && d != dir ==> Parent(d) != dir))
  }

  /** `for filename2 in listdir(...): break` with `filename2 = ""` before it. */
  function FirstEntry(listing: seq<string>): string
  {
    if |listing| > 0 then listing[0] else ""
  }

  /** The path probed for index k: `join(dir, start + str(k) + end)`. */
  function ProbePath(dir: string, start: string, end: string, k: nat): string
  {
    Join(dir, IndexedName(start, k, end))
  }

  /** Indices 0..n-1 name files and index n does not. */
  ghost predicate ContiguousRun(files: map<string, Stored>, dir: string, start: string, end: string, n: nat)
  {
    (forall k: nat :: k < n ==> ProbePath(dir, start, end, k) in files) && ProbePath(dir, start, end, n) !in files
  }

  /** Probed paths for different indices differ, so a run of n present
      paths needs n files. */
  lemma ProbePathsBound(files: map<string, Stored>, dir: string, start: string, end: string, n: nat)
    requires |start| > 0
    requires forall k: nat :: k < n ==> ProbePath(dir, start, end, k) in files
    ensures n <= |files.Keys|
  {
    var p := JoinPrefix(dir, start) + start;
    forall name | name in IndexedNames(p, end, 0, n)
      ensures name in files.Keys
    {
      IndexedNamesForm(p, end, 0, n, name);
      var k: nat :| k < n && name == IndexedName(p, k, end);
      JoinIndexed(dir, start, k, end);
      assert ProbePath(dir, start, end, k) in files;
    }
    IndexedNamesBound(p, end, 0, n, files.Keys);
  }

  /** A missing index comes no earlier than the end of a contiguous run. */
  lemma RunNotBefore(files: map<string, Stored>, dir: string, start: string, end: string, n: nat, m: nat)
    requires forall k: nat :: k < m ==> ProbePath(dir, start, end, k) in files
    requires ProbePath(dir, start, end, n) !in files
    ensures m <= n
  {
  }

  /** The run starting at index 0 has one length: the probe stops at the first missing index. */
  lemma ContiguousRunUnique(files: map<string, Stored>, dir: string, start: string, end: string, n1: nat, n2: nat)
    requires ContiguousRun(files, dir, start, end, n1) && ContiguousRun(files, dir, start, end, n2)
    ensures n1 == n2
  {
    RunNotBefore(files, dir, start, end, n1, n2);
    RunNotBefore(files, dir, start, end, n2, n1);
  }

  /** What the frame-sequence branch of `load_ani_photo` leaves: an error for
      a missing directory or an unparsable first name, otherwise the images of
      the contiguous run of frame files the first name leads to, in index order. */
  ghost predicate SequenceRead(files: map<string, Stored>, dirs: set<string>, dir: string, listing: seq<string>,
                               r: Outcome, frames: seq<Bitmap>)
  {
    && (r.Fail? ==> frames == [])
    && (dir !in dirs ==>
          r == Fail(if HitsFile(dirs, files, dir) then NotADirectoryError(dir) else FileNotFoundError(dir)))
    && (dir in dirs ==> (r.Pass? <==> PrefixSuffix(FirstEntry(listing)).Some?))
    && (dir in dirs && r.Fail? ==> r == Fail(ValueError))
    && (r.Pass? ==>
          var parts := PrefixSuffix(FirstEntry(listing)).value;
          && ContiguousRun(files, dir, parts.0, parts.1, |frames|)
          && forall k :: 0 <= k < |frames| ==> frames[k] == Opened(files[ProbePath(dir, parts.0, parts.1, k)]))
  }

  /** The probe loop of `load_ani_photo`: open `start + str(index) + end`
      for index = 0, 1, ... while that is a file. The loop ends because the
      probed names are all different and there are finitely many files. */
  method ProbeFrames(fs: FileSystem, dir: string, start: string, end: string) returns (frames: seq<Bitmap>)
    requires |start| > 0
    ensures ContiguousRun(fs.files, dir, start, end, |frames|)
    ensures forall k :: 0 <= k < |frames| ==> frames[k] == Opened(fs.files[ProbePath(dir, start, end, k)])
  {
    frames := [];
    var index: nat := 0;
    while fs.IsFile(ProbePath(dir, start, end, index))
      invariant |frames| == index <= |fs.files.Keys|
      invariant forall k: nat :: k < index ==> ProbePath(dir, start, end, k) in fs.files
      invariant forall k :: 0 <= k < index ==> frames[k] == Opened(fs.files[ProbePath(dir, start, end, k)])
      decreases |fs.files.Keys| - index
    {
      frames := frames + [Opened(fs.files[ProbePath(dir, start, end, index)])];
      index := index + 1;
      ProbePathsBound(fs.files, dir, start, end, index);
    }
  }

  /** The frame-sequence branch of `load_ani_photo`: `listdir` of the
      directory (its first entry, or "" when it is empty), the split of that
      name into prefix and suffix, then `ProbeFrames`. */
  method ReadFrameSequence(fs: FileSystem, dir: string, listing: seq<string>) returns (r: Outcome, frames: seq<Bitmap>)
    requires Lists(fs.files, fs.dirs, dir, listing)
    ensures SequenceRead(fs.files, fs.dirs, dir, listing, r, frames)
  {
    frames := [];
    if !fs.IsDir(dir) {
      r := Fail(if HitsFile(fs.dirs, fs.files, dir) then NotADirectoryError(dir) else FileNotFoundError(dir));
      return;
    }
    var filename2 := "";
    if |listing| > 0 {
      filename2 := listing[0];
    }
    var parts := PrefixSuffix(filename2);
    if parts.None? {
      return Fail(ValueError), [];
    }
    var start, end := parts.value.0, parts.value.1;
    frames := ProbeFrames(fs, dir, start, end);
    r := Pass;
  }

  /** Every file the writer leaves in a directory it has just created is one
      of the frame files. */
  lemma {:induction false} WrittenFramesOrigin(files0: map<string, Stored>, dirName: string, stem: string,
                                               ext: string, enc: Encoding,
                                               frames: seq<Bitmap>, n: nat, path: string)
    requires n <= |frames|
    requires path in WrittenFrames(files0, dirName, stem, ext, enc, frames, n) && path !in files0
    ensures exists k: nat :: k < n && path == FramePath(dirName, stem, ext, k)
  {
    if path != FramePath(dirName, stem, ext, n - 1) {
      WrittenFramesOrigin(files0, dirName, stem, ext, enc, frames, n - 1, path);
    }
  }

  /** The directory holds nothing but the frames, so a listed entry is a frame name. */
  lemma ListedEntryIsFrameName(files0: map<string, Stored>, dirs0: set<string>, dirName: string, stem: string,
                               ext: string, enc: Encoding, frames: seq<Bitmap>, e: string)
    requires forall f :: f in files0 ==> Parent(f) in dirs0
    requires forall d :: d in dirs0 && d != [] ==> Parent(d) in dirs0
    requires dirName !in dirs0 && [] in dirs0
    requires |dirName| > 0 && dirName[|dirName| - 1] != Sep
    requires Sep !in stem && Sep !in ext
    requires e != [] && Sep !in e
    requires Join(dirName, e) in WrittenFrames(files0, dirName, stem, ext, enc, frames, |frames|) ||
             Join(dirName, e) in dirs0 + {dirName}
    ensures exists k: nat :: k < |frames| && e == FrameName(stem, k, ext)
  {
    var path := Join(dirName, e);
    ParentOfJoin(dirName, e);
    assert Parent(path) !in dirs0;
    assert path !in dirs0 + {dirName};
    assert path !in files0;
    WrittenFramesOrigin(files0, dirName, stem, ext, enc, frames, |frames|, path);
    var k: nat :| k < |frames| && path == FramePath(dirName, stem, ext, k);
    FrameNameHasNoSep(stem, k, ext);
    JoinCancel(dirName, e, FrameName(stem, k, ext));
  }

  /** The paths the reader probes after splitting a frame name are the
      paths the writer used. */
  lemma ProbeIsFramePath(dirName: string, stem: string, ext: string, k: nat)
    ensures ProbePath(dirName, stem + "_", "." + ext, k) == FramePath(dirName, stem, ext, k)
  {
  }

  /** The first name the reader lists in a directory the writer just filled
      splits into `<stem>_` and `.<ext>`; with no frames the directory is
      empty and the reader's `rindex` on "" raises ValueError. */
  lemma ReadBackFirstName(files0: map<string, Stored>, dirs0: set<string>, dirName: string, stem: string,
                          ext: string, enc: Encoding,
                          frames: seq<Bitmap>, listing: seq<string>)
    requires forall f :: f in files0 ==> Parent(f) in dirs0
    requires forall d :: d in dirs0 && d != [] ==> Parent(d) in dirs0
    requires dirName !in dirs0 && [] in dirs0
    requires |dirName| > 0 && dirName[|dirName| - 1] != Sep
    requires Sep !in stem && PlainExtension(ext)
    requires Lists(WrittenFrames(files0, dirName, stem, ext, enc, frames, |frames|), dirs0 + {dirName}, dirName, listing)
    ensures |frames| == 0 ==> listing == [] && PrefixSuffix(FirstEntry(listing)).None?
    ensures |frames| > 0 ==> PrefixSuffix(FirstEntry(listing)) == Some((stem + "_", "." + ext))
  {
    if |listing| > 0 {
      assert listing[0] in listing;
      ListedEntryIsFrameName(files0, dirs0, dirName, stem, ext, enc, frames, listing[0]);
      var k: nat :| k < |frames| && listing[0] == FrameName(stem, k, ext);
      PrefixSuffixOfFrameName(stem, k, ext);
    }
    if |frames| > 0 {
      WrittenFramesHolds(files0, dirName, stem, ext, enc, frames, |frames|, 0);
      FrameNameHasNoSep(stem, 0, ext);
      ParentOfJoin(dirName, FrameName(stem, 0, ext));
      assert listing != [];
    }
  }

  /** The reader, handed the writer's prefix and suffix, probes exactly the
      writer's frame paths, finds all of them, stops right after the last
      one and opens the frames in order. */
  lemma ReadBackRun(files0: map<string, Stored>, dirs0: set<string>, dirName: string, stem: string,
                    ext: string, enc: Encoding,
                    frames: seq<Bitmap>)
    requires forall f :: f in files0 ==> Parent(f) in dirs0
    requires dirName !in dirs0
    requires |dirName| > 0 && dirName[|dirName| - 1] != Sep
    requires Sep !in stem && Sep !in ext
    ensures ContiguousRun(WrittenFrames(files0, dirName, stem, ext, enc, frames, |frames|),
                          dirName, stem + "_", "." + ext, |frames|)
    ensures forall k :: 0 <= k < |frames| ==>
      Opened(WrittenFrames(files0, dirName, stem, ext, enc, frames, |frames|)[ProbePath(dirName, stem + "_", "." + ext, k)])
        == EncodedImage(enc, frames[k])
  {
    var n := |frames|;
    var written := WrittenFrames(files0, dirName, stem, ext, enc, frames, n);
    forall k: nat | k < n
      ensures ProbePath(dirName, stem + "_", "." + ext, k) in written
      ensures Opened(written[ProbePath(dirName, stem + "_", "." + ext, k)]) == EncodedImage(enc, frames[k])
    {
      ProbeIsFramePath(dirName, stem, ext, k);
      WrittenFramesHolds(files0, dirName, stem, ext, enc, frames, n, k);
    }
    var last := FramePath(dirName, stem, ext, n);
    forall k: nat | k < n
      ensures last != FramePath(dirName, stem, ext, k)
    {
      if last == FramePath(dirName, stem, ext, k) {
        FramePathInjective(dirName, stem, ext, n, k);
      }
    }
    WrittenFramesElsewhere(files0, dirName, stem, ext, enc, frames, n, last);
    FrameNameHasNoSep(stem, n, ext);
    ParentOfJoin(dirName, FrameName(stem, n, ext));
    assert last !in files0;
    ProbeIsFramePath(dirName, stem, ext, n);
  }

  /** The round trip: what the reader leaves after the writer put frames
      into a fresh directory is exactly the images the writer handed the
      encoder, in order (the frames themselves, or their RGB versions for
      JPEG). Any result
      the frame-sequence branch of `load_ani_photo` can produce there is
      a success holding the written frames, or ValueError when there were
      none. */
  lemma ReadBackWritten(files0: map<string, Stored>, dirs0: set<string>, dirName: string, stem: string,
                        ext: string, enc: Encoding,
                        frames: seq<Bitmap>, listing: seq<string>, r: Outcome, read: seq<Bitmap>)
    requires forall f :: f in files0 ==> Parent(f) in dirs0
    requires forall d :: d in dirs0 && d != [] ==> Parent(d) in dirs0
    requires dirName !in dirs0 && [] in dirs0
    requires |dirName| > 0 && dirName[|dirName| - 1] != Sep
    requires Sep !in stem && PlainExtension(ext)
    requires Lists(WrittenFrames(files0, dirName, stem, ext, enc, frames, |frames|), dirs0 + {dirName}, dirName, listing)
    requires SequenceRead(WrittenFrames(files0, dirName, stem, ext, enc, frames, |frames|), dirs0 + {dirName}, dirName,
                          listing, r, read)
    ensures |frames| > 0 ==> r == Pass && read == EncodedImages(enc, frames)
    ensures |frames| == 0 ==> r == Fail(ValueError) && read == []
  {
    var written := WrittenFrames(files0, dirName, stem, ext, enc, frames, |frames|);
    ReadBackFirstName(files0, dirs0, dirName, stem, ext, enc, frames, listing);
    ReadBackRun(files0, dirs0, dirName, stem, ext, enc, frames);
    if r.Pass? {
      assert PrefixSuffix(FirstEntry(listing)).value == (stem + "_", "." + ext);
      SameRunEncodedFrames(written, dirName, stem + "_", "." + ext, read, enc, frames);
    }
  }

  /** A read of the run the writer left holds the images it handed the encoder. */
  lemma SameRunEncodedFrames(files: map<string, Stored>, dir: string, start: string, end: string, read: seq<Bitmap>,
                             enc: Encoding, frames: seq<Bitmap>)
    requires ContiguousRun(files, dir, start, end, |read|) && ContiguousRun(files, dir, start, end, |frames|)
    requires forall k :: 0 <= k < |read| ==> read[k] == Opened(files[ProbePath(dir, start, end, k)])
    requires forall k :: 0 <= k < |frames| ==> Opened(files[ProbePath(dir, start, end, k)]) == EncodedImage(enc, frames[k])
    ensures read == EncodedImages(enc, frames)
  {
    SameRunSameFrames(files, dir, start, end, read, EncodedImages(enc, frames));
  }

  /** Two reads of the contiguous run of the same files are the same frames. */
  lemma SameRunSameFrames(files: map<string, Stored>, dir: string, start: string, end: string, a: seq<Bitmap>, b: seq<Bitmap>)
    requires ContiguousRun(files, dir, start, end, |a|) && ContiguousRun(files, dir, start, end, |b|)
    requires forall k :: 0 <= k < |a| ==> a[k] == Opened(files[ProbePath(dir, start, end, k)])
    requires forall k :: 0 <= k < |b| ==> Opened(files[ProbePath(dir, start, end, k)]) == b[k]
    ensures a == b
  {
    ContiguousRunUnique(files, dir, start, end, |a|, |b|);
  }

  /** `load_ani_photo`'s effect on a shower, by kind: the frames of the one
      file for a container, `SequenceRead` for a frame sequence. */
  ghost predicate Loaded(fs: FileSystem, dirPath: string, filename: string, way: OutputWay, listing: seq<string>,
                         r: Outcome, frames: seq<Bitmap>)
    reads fs
  {
    && (IsContainer(way) ==> (r, frames) == LoadContainer(fs.files, fs.dirs, Join(dirPath, filename)))
    && (IsFrameSequence(way) ==> SequenceRead(fs.files, fs.dirs, Join(dirPath, filename), listing, r, frames))
  }

  /** The animation panel: the frames on show, the frame being drawn and the frame count. */
  class AniPhotoShower {
    var frames: seq<Bitmap>
    var correctFrameIndex: int
    var framesCount: int

    constructor ()
      ensures frames == [] && correctFrameIndex == 0 && framesCount == 0
    {
      frames := [];
      correctFrameIndex := 0;
      framesCount := 0;
    }

    /** `load_ani_photo`. The frames are cleared first; an error leaves them
        empty and the index and count as they were. */
    method LoadAniPhoto(fs: FileSystem, dirPath: string, filename: string, way: OutputWay, listing: seq<string>)
      returns (r: Outcome)
      requires IsFrameSequence(way) ==> Lists(fs.files, fs.dirs, Join(dirPath, filename), listing)
      modifies this
      ensures Loaded(fs, dirPath, filename, way, listing, r, frames)
      ensures r.Fail? ==> frames == [] && correctFrameIndex == old(correctFrameIndex) && framesCount == old(framesCount)
      ensures r.Pass? ==> correctFrameIndex == 0 && framesCount == |frames|
    {
      frames := [];
      var path := Join(dirPath, filename);
      if IsContainer(way) {
        var loaded := LoadContainer(fs.files, fs.dirs, path);
        if loaded.0.Fail? {
          return loaded.0;
        }
        frames := loaded.1;
      } else {
        var read;
        r, read := ReadFrameSequence(fs, path, listing);
        if r.Fail? {
          return;
        }
        frames := read;
      }
      r := Pass;
      correctFrameIndex := 0;
      framesCount := |frames|;
    }
  }

  /** The browser of the output directory: the directory shown, its entries
      and the animation panel. */
  class AniPhotosViewer {
    var activeDir: string
    var items: seq<string>
    var viewer: AniPhotoShower

    /** Opens on a start directory, listing it as `LoadDir` does; a start
        directory that cannot be listed leaves the list empty. */
    constructor (fs: FileSystem, dirPath: string, listing: seq<string>)
      requires dirPath in fs.dirs ==> Lists(fs.files, fs.dirs, dirPath, listing)
      ensures activeDir == dirPath
      ensures items == if dirPath in fs.dirs then listing else []
      ensures fresh(viewer) && viewer.frames == [] && viewer.framesCount == 0
    {
      activeDir := dirPath;
      items := if fs.IsDir(dirPath) then listing else [];
      viewer := new AniPhotoShower();
    }

    /** `load_dir`: the directory becomes the active one and the list is
        emptied; then, if dirPath is a directory, the list shows its entries
        in listing order, and otherwise `listdir` raises and the list stays
        empty. */
    method LoadDir(fs: FileSystem, dirPath: string, listing: seq<string>) returns (r: Outcome)
      requires fs.Valid()
      requires dirPath in fs.dirs ==> Lists(fs.files, fs.dirs, dirPath, listing)
      modifies this
      ensures activeDir == dirPath && viewer == old(viewer)
      ensures r.Pass? <==> dirPath in fs.dirs
      ensures r.Pass? ==> items == listing
      ensures r.Fail? ==> items == []
      ensures dirPath !in fs.dirs ==>
        r == Fail(if HitsFile(fs.dirs, fs.files, dirPath) then NotADirectoryError(dirPath) else FileNotFoundError(dirPath))
      ensures dirPath !in fs.dirs && dirPath in fs.files ==> r == Fail(NotADirectoryError(dirPath))
      ensures dirPath !in fs.files && Parent(dirPath) in fs.dirs ==> r.Pass? || r == Fail(FileNotFoundError(dirPath))
    {
      activeDir := dirPath;
      items := [];
      if !fs.IsDir(dirPath) {
        if HitsFile(fs.dirs, fs.files, dirPath) {
          return Fail(NotADirectoryError(dirPath));
        }
        return Fail(FileNotFoundError(dirPath));
      }
      items := listing;
      r := Pass;
    }

    /** `on_item_selected`: classify the selected entry and, if it is an
        output of some kind, load it into the panel. */
    method OnItemSelected(fs: FileSystem, index: int, listing: seq<string>) returns (way: Option<OutputWay>, r: Outcome)
      requires 0 <= index < |items|
      requires Lists(fs.files, fs.dirs, Join(activeDir, items[index]), listing)
      modifies viewer
      ensures
        var path := Join(activeDir, items[index]);
        way == Classify(path in fs.dirs, path in fs.files, path)
      ensures way.None? ==> r == Pass && unchanged(viewer)
      ensures way.Some? ==> Loaded(fs, activeDir, items[index], way.value, listing, r, viewer.frames)
      ensures way.Some? && r.Pass? ==> viewer.correctFrameIndex == 0 && viewer.framesCount == |viewer.frames|
      ensures way.Some? && r.Fail? ==>
        && viewer.frames == []
        && viewer.correctFrameIndex == old(viewer.correctFrameIndex)
        && viewer.framesCount == old(viewer.framesCount)
    {
      var path := Join(activeDir, items[index]);
      way := Classify(fs.IsDir(path), fs.IsFile(path), path);
      if way.None? {
        return way, Pass;
      }
      r := viewer.LoadAniPhoto(fs, activeDir, items[index], way.value, listing);
    }
  }
}
