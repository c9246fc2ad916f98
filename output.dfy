/** The output side: the `OutputWay` kinds and their file extensions, a
    model of the file system, the choice of a fresh directory for a frame
    sequence, and `output_frames`. */
module Output {
  import opened Text
  import opened Paths
  import opened Raster

  /** The five output kinds, in the order of their enumeration values 0..4. */
  datatype OutputWay = OnefileGif | OnefileApng | OnefileWebp | FramesPng | FramesJpg

  function Code(way: OutputWay): int
  {
    match way
    case OnefileGif => 0
    case OnefileApng => 1
    case OnefileWebp => 2
    case FramesPng => 3
    case FramesJpg => 4
  }

  /** `OutputWay(n)`: the kind whose value is n; None where Python raises
      ValueError because no kind has that value. */
  function WayOf(code: int): (r: Option<OutputWay>)
    ensures r.Some? <==> 0 <= code <= 4
    ensures r.Some? ==> Code(r.value) == code
  {
    if code == 0 then Some(OnefileGif)
    else if code == 1 then Some(OnefileApng)
    else if code == 2 then Some(OnefileWebp)
    else if code == 3 then Some(FramesPng)
    else if code == 4 then Some(FramesJpg)
    else None
  }

  /** `end_fix_trans_map`: the file extension of each kind. */
  const EndFixTransMap: map<OutputWay, string> :=
    map[OnefileGif := "gif", OnefileApng := "png", OnefileWebp := "webp", FramesPng := "png", FramesJpg := "jpg"]

  /** An extension that a name can end in and still be split back apart. */
  predicate PlainExtension(ext: string)
  {
    |ext| > 0 && '.' !in ext && '_' !in ext && Sep !in ext
  }

  /** Every kind has an extension, and the extensions are plain: no dot, no
      underscore, no separator. */
  lemma EndFixTransMapTotal(way: OutputWay)
    ensures way in EndFixTransMap
    ensures PlainExtension(EndFixTransMap[way])
    ensures EndFixTransMap[way] in {"gif", "png", "webp", "jpg"}
  {
  }

  predicate IsContainer(way: OutputWay)
  {
    way == OnefileGif || way == OnefileApng || way == OnefileWebp
  }

  predicate IsFrameSequence(way: OutputWay)
  {
    way == FramesPng || way == FramesJpg
  }

  /** How a frame is handed to `save`: the format name, and whether it is
      converted to RGB first. */
  datatype Encoding = Encoding(format: string, toRgb: bool)

  /** The image a frame is stored as under an encoding. */
  function EncodedImage(enc: Encoding, frame: Bitmap): Bitmap
  {
    if enc.toRgb then DropAlpha(frame) else frame
  }

  /** The images of frames stored under an encoding, in order. */
  function EncodedImages(enc: Encoding, frames: seq<Bitmap>): (r: seq<Bitmap>)
    ensures |r| == |frames|
    ensures forall k :: 0 <= k < |frames| ==> r[k] == EncodedImage(enc, frames[k])
    ensures !enc.toRgb ==> r == frames
  {
    seq(|frames|, k requires 0 <= k < |frames| => EncodedImage(enc, frames[k]))
  }

  function UpperChar(c: char): char
  {
    if 'a' <= c <= 'z' then (c as int - 'a' as int + 'A' as int) as char else c
  }

  /** `str.upper()` on ASCII text: the format name handed to the encoder. */
  function Upper(s: string): (r: string)
    ensures |r| == |s| && forall k :: 0 <= k < |s| ==> r[k] == UpperChar(s[k])
  {
    if s == [] then [] else [UpperChar(s[0])] + Upper(s[1..])
  }

  /** `basename(filename).split('.')[0]`: the base name up to its first dot. */
  function Stem(filename: string): (stem: string)
    ensures '.' !in stem && Sep !in stem
    ensures stem <= Basename(filename)
    ensures |stem| < |Basename(filename)| ==> Basename(filename)[|stem|] == '.'
  {
    var b := Basename(filename);
    var r := FirstField(b, '.');
    assert forall k :: 0 <= k < |r| ==> r[k] == b[k];
    r
  }

  lemma UpperExtensions()
    ensures Upper("gif") == "GIF" && Upper("png") == "PNG" && Upper("webp") == "WEBP" && Upper("jpg") == "JPG"
  {
    assert Upper("f") == "F";
    assert Upper("if") == "IF";
    assert Upper("g") == "G";
    assert Upper("ng") == "NG";
    assert Upper("p") == "P";
    assert Upper("bp") == "BP";
    assert Upper("ebp") == "EBP";
    assert Upper("pg") == "PG";
  }

  /** Each container kind's format name `end_fix.upper()` has a writer. */
  lemma ContainerFormatsRegistered(way: OutputWay)
    requires IsContainer(way)
    ensures Upper(EndFixTransMap[way]) in SaveFormats
  {
    UpperExtensions();
  }

  /** A frame of a sequence as written: `frame.save(path, end_fix.upper())`,
      the RGBA frame under the extension upper-cased. */
  function FrameEncodingAsWritten(ext: string): Encoding
  {
    Encoding(Upper(ext), false)
  }

  /** As written, the JPG frames are handed over under the format name
      "JPG", which has no writer. */
  lemma JpgFormatAsWrittenUnregistered()
    ensures FrameEncodingAsWritten(EndFixTransMap[FramesJpg]) == Encoding("JPG", false)
    ensures FrameEncodingAsWritten(EndFixTransMap[FramesJpg]).format !in SaveFormats
  {
    UpperExtensions();
  }

  /** A frame of a sequence as evidently intended: `jpg` frames are converted
      to RGB and saved as "JPEG"; other frames are saved as written. Every
      frame-sequence kind then has a writer, and only JPEG frames lose their
      alpha. */
  function FrameEncoding(ext: string): (enc: Encoding)
    ensures ext == "png" || ext == "jpg" ==> enc.format in SaveFormats
    ensures enc.toRgb <==> ext == "jpg"
    ensures ext != "jpg" ==> enc == FrameEncodingAsWritten(ext)
  {
    UpperExtensions();
    if ext == "jpg" then Encoding("JPEG", true) else Encoding(Upper(ext), false)
  }

  /** Each frame-sequence kind's intended encoding has a writer. */
  lemma FrameFormatsRegistered(way: OutputWay)
    requires IsFrameSequence(way)
    ensures FrameEncoding(EndFixTransMap[way]).format in SaveFormats
  {
  }

  /** The one file a container kind writes: `<stem>.<ext>` in the output directory. */
  function ContainerPath(outputDir: string, filename: string, way: OutputWay): string
  {
    EndFixTransMapTotal(way);
    Join(outputDir, Stem(filename) + "." + EndFixTransMap[way])
  }

  /** The name of frame i of a frame sequence: `<stem>_<i>.<ext>`. */
  function FrameName(stem: string, i: nat, ext: string): string
  {
    IndexedName(stem + "_", i, "." + ext)
  }

  function FramePath(dirName: string, stem: string, ext: string, i: nat): string
  {
    Join(dirName, FrameName(stem, i, ext))
  }

  /** Frame paths in one directory are `p + str(i) + q` for one p and q. */
  lemma FramePathIndexed(dirName: string, stem: string, ext: string, i: nat)
    ensures FramePath(dirName, stem, ext, i) == IndexedName(JoinPrefix(dirName, stem + "_") + stem + "_", i, "." + ext)
  {
    JoinIndexed(dirName, stem + "_", i, "." + ext);
  }

  /** Different frames of one sequence go to different files. */
  lemma FramePathInjective(dirName: string, stem: string, ext: string, i: nat, j: nat)
    requires FramePath(dirName, stem, ext, i) == FramePath(dirName, stem, ext, j)
    ensures i == j
  {
    FramePathIndexed(dirName, stem, ext, i);
    FramePathIndexed(dirName, stem, ext, j);
    IndexedNameInjective(JoinPrefix(dirName, stem + "_") + stem + "_", i, j, "." + ext);
  }

  /** What a saved file holds: one still image, or the images handed to an
      animation encoder with the frame duration in milliseconds and the loop
      count. */
  datatype Stored =
    | Still(format: string, image: Bitmap)
    | Animation(format: string, images: seq<Bitmap>, durationMs: int, loop: int)

  /** The Python exceptions the writer and the reader can raise. */
  datatype Error =
    | ValueError
    | IndexError
    | FileExistsError(path: string)
    | FileNotFoundError(path: string)
    | IsADirectoryError(path: string)
    | NotADirectoryError(path: string)
    | KeyError(key: string)

  datatype Outcome = Pass | Fail(error: Error)

  /** The format names the image library has a writer for, among the names
      this program can hand it. "JPG" is not one: the library knows ".jpg"
      only as a file extension of the format "JPEG". */
  const SaveFormats: set<string> := {"GIF", "PNG", "WEBP", "JPEG"}

  /** On the way down to `p`, which is not a directory, the first name that
      is not a directory is a file: the system then reports
      NotADirectoryError; a name that does not exist gives FileNotFoundError. */
  function HitsFile(dirs: set<string>, files: map<string, Stored>, p: string): bool
    decreases |p|
  {
    if p == [] || p in dirs then false
    else if p in files then true
    else HitsFile(dirs, files, Parent(p))
  }

  /** The error for a path whose directory is not there. */
  function MissingParent(dirs: set<string>, files: map<string, Stored>, path: string): (e: Error)
    ensures e == NotADirectoryError(path) || e == FileNotFoundError(path)
    ensures [] in dirs && Parent(path) !in dirs && Parent(path) in files ==> e == NotADirectoryError(path)
    ensures Parent(path) !in files && Parent(Parent(path)) in dirs ==> e == FileNotFoundError(path)
  {
    var q := Parent(path);
    assert q != [] && q !in dirs && q !in files ==> HitsFile(dirs, files, q) == HitsFile(dirs, files, Parent(q));
    if HitsFile(dirs, files, q) then NotADirectoryError(path) else FileNotFoundError(path)
  }

  /** What the writer does that a caller can observe, in order. */
  datatype Event = Progress(value: int) | Saved(path: string)

  /** The directories and files that exist. "" stands for the directory that
      relative paths start from; every other directory lives in one that
      exists, and so does every file. */
  class FileSystem {
    var dirs: set<string>
    var files: map<string, Stored>

    ghost predicate Valid()
      reads this
    {
      [] in dirs &&
      (forall d {:trigger Parent(d)} :: d in dirs && d != [] ==> Parent(d) in dirs) &&
      (forall f :: f in files ==> Parent(f) in dirs && f !in dirs)
    }

    constructor ()
      ensures Valid() && dirs == {[]} && files == map[]
    {
      dirs := {[]};
      files := map[];
    }

    predicate IsDir(path: string)
      reads this
    {
      path in dirs
    }

    predicate IsFile(path: string)
      reads this
    {
      path in files
    }

    /** `os.mkdir(path)`. */
    method Mkdir(path: string) returns (r: Outcome)
      requires Valid()
      modifies this
      ensures Valid()
      ensures r == if path in old(dirs) || path in old(files) then Fail(FileExistsError(path))
                   else if Parent(path) !in old(dirs) then Fail(MissingParent(old(dirs), old(files), path))
                   else Pass
      ensures files == old(files)
      ensures dirs == if r.Pass? then old(dirs) + {path} else old(dirs)
    {
      if path in dirs || path in files {
        r := Fail(FileExistsError(path));
      } else if Parent(path) !in dirs {
        r := Fail(MissingParent(dirs, files, path));
      } else {
        dirs := dirs + {path};
        r := Pass;
      }
    }

    /** `image.save(path, format, ...)`: the writer is looked up by format
      name before the file is opened; then the file is created or silently
      replaced. */
    method Save(path: string, content: Stored) returns (r: Outcome)
      requires Valid()
      modifies this
      ensures Valid()
      ensures r == if content.format !in SaveFormats then Fail(KeyError(content.format))
                   else if path in old(dirs) then Fail(IsADirectoryError(path))
                   else if Parent(path) !in old(dirs) then Fail(MissingParent(old(dirs), old(files), path))
                   else Pass
      ensures dirs == old(dirs)
      ensures files == if r.Pass? then old(files)[path := content] else old(files)
    {
      if content.format !in SaveFormats {
        r := Fail(KeyError(content.format));
      } else if path in dirs {
        r := Fail(IsADirectoryError(path));
      } else if Parent(path) !in dirs {
        r := Fail(MissingParent(dirs, files, path));
      } else {
        files := files[path := content];
        r := Pass;
      }
    }
  }

  /** The directory tried after `output_dir/filename` is taken, for collision
      number k: `join(output_dir, filename + f" ({k})")`. */
  function Candidate(outputDir: string, filename: string, k: nat): string
  {
    Join(outputDir, filename + " (" + NatToString(k) + ")")
  }

  function CandidatePrefix(outputDir: string, filename: string): string
  {
    JoinPrefix(outputDir, filename + " (") + filename + " ("
  }

  lemma CandidateIndexed(outputDir: string, filename: string, k: nat)
    ensures Candidate(outputDir, filename, k) == IndexedName(CandidatePrefix(outputDir, filename), k, ")")
  {
    JoinIndexed(outputDir, filename + " (", k, ")");
  }

  /** Numbered candidates differ, so n existing candidates need n directories. */
  lemma CandidatesBound(dirs: set<string>, outputDir: string, filename: string, n: nat)
    requires forall j: nat :: 1 <= j < n + 1 ==> Candidate(outputDir, filename, j) in dirs
    ensures n <= |dirs|
  {
    var p := CandidatePrefix(outputDir, filename);
    forall name | name in IndexedNames(p, ")", 1, n + 1)
      ensures name in dirs
    {
      IndexedNamesForm(p, ")", 1, n + 1, name);
      var k: nat :| 1 <= k < n + 1 && name == IndexedName(p, k, ")");
      CandidateIndexed(outputDir, filename, k);
    }
    IndexedNamesBound(p, ")", 1, n + 1, dirs);
  }

  /** dirName is the directory a frame sequence should go to: the plain name
      when it is free, otherwise the first free numbered name. */
  ghost predicate FirstFree(dirs: set<string>, outputDir: string, filename: string, dirName: string)
  {
    if Join(outputDir, filename) !in dirs then dirName == Join(outputDir, filename)
    else exists k: nat :: 1 <= k && dirName == Candidate(outputDir, filename, k) && dirName !in dirs &&
                          forall j: nat :: 1 <= j < k ==> Candidate(outputDir, filename, j) in dirs
  }

  /** The chosen directory never exists yet. */
  lemma FirstFreeIsFree(dirs: set<string>, outputDir: string, filename: string, dirName: string)
    requires FirstFree(dirs, outputDir, filename, dirName)
    ensures dirName !in dirs
  {
  }

  /** There is only one first free name. */
  lemma FirstFreeUnique(dirs: set<string>, outputDir: string, filename: string, d1: string, d2: string)
    requires FirstFree(dirs, outputDir, filename, d1) && FirstFree(dirs, outputDir, filename, d2)
    ensures d1 == d2
  {
    if Join(outputDir, filename) in dirs {
      var k1: nat :| 1 <= k1 && d1 == Candidate(outputDir, filename, k1) && d1 !in dirs &&
                     forall j: nat :: 1 <= j < k1 ==> Candidate(outputDir, filename, j) in dirs;
      var k2: nat :| 1 <= k2 && d2 == Candidate(outputDir, filename, k2) && d2 !in dirs &&
                     forall j: nat :: 1 <= j < k2 ==> Candidate(outputDir, filename, j) in dirs;
      NoFreeNameBefore(dirs, outputDir, filename, k1, k2);
      NoFreeNameBefore(dirs, outputDir, filename, k2, k1);
    }
  }

  /** A free numbered name comes no earlier than the first free one. */
  lemma NoFreeNameBefore(dirs: set<string>, outputDir: string, filename: string, k: nat, first: nat)
    requires 1 <= k && Candidate(outputDir, filename, k) !in dirs
    requires forall j: nat :: 1 <= j < first ==> Candidate(outputDir, filename, j) in dirs
    ensures first <= k
  {
  }

  /** The probe of `output_frames` as written: `counter` starts at 1 and is
      never incremented, so when both `filename` and `filename (1)` are taken
      the loop never ends (None). */
  function ProbeAsWritten(dirs: set<string>, outputDir: string, filename: string): Option<string>
  {
    if Join(outputDir, filename) !in dirs then Some(Join(outputDir, filename))
    else if Candidate(outputDir, filename, 1) !in dirs then Some(Candidate(outputDir, filename, 1))
    else None
  }

  /** Where the probe as written ends, it picks the first free name; it hangs
      exactly when the plain name and the " (1)" name both exist. */
  lemma ProbeAsWrittenAgrees(dirs: set<string>, outputDir: string, filename: string)
    ensures ProbeAsWritten(dirs, outputDir, filename).None? <==>
            Join(outputDir, filename) in dirs && Candidate(outputDir, filename, 1) in dirs
    ensures ProbeAsWritten(dirs, outputDir, filename).Some? ==>
            FirstFree(dirs, outputDir, filename, ProbeAsWritten(dirs, outputDir, filename).value)
  {
    if ProbeAsWritten(dirs, outputDir, filename).Some? && Join(outputDir, filename) in dirs {
      assert 1 <= 1 && ProbeAsWritten(dirs, outputDir, filename).value == Candidate(outputDir, filename, 1);
    }
  }

  /** The names the probe tries when "a.png" is written into "out". */
  lemma PlainName()
    ensures Join("out", "a.png") == "out/a.png"
  {
    ParentOfJoin("out", "a.png");
  }

  lemma FirstNumberedName()
    ensures Candidate("out", "a.png", 1) == "out/a.png (1)"
  {
    assert NatToString(1) == "1";
    var name := "a.png" + " (" + "1" + ")";
    assert name == "a.png (1)";
    assert Join("out", name) == "out" + [Sep] + name;
  }

  lemma SecondNumberedName()
    ensures Candidate("out", "a.png", 2) == "out/a.png (2)"
  {
    assert NatToString(2) == "2";
    var name := "a.png" + " (" + "2" + ")";
    assert name == "a.png (2)";
    assert Join("out", name) == "out" + [Sep] + name;
  }

  /** Writing a frame sequence of "a.png" into "out" a third time: "out/a.png"
      and "out/a.png (1)" exist, the probe as written never ends, while the
      first free name is "out/a.png (2)". */
  lemma ProbeAsWrittenHangsOnThirdRun()
    ensures ProbeAsWritten({"", "out", "out/a.png", "out/a.png (1)"}, "out", "a.png").None?
    ensures FirstFree({"", "out", "out/a.png", "out/a.png (1)"}, "out", "a.png", "out/a.png (2)")
  {
    var dirs := {"", "out", "out/a.png", "out/a.png (1)"};
    var two := "out/a.png (2)";
    PlainName();
    FirstNumberedName();
    SecondNumberedName();
    assert two !in dirs by {
      assert two[11] == '2';
    }
    assert forall j: nat :: 1 <= j < 2 ==> Candidate("out", "a.png", j) in dirs;
  }

  /** The probe with `counter` incremented after each taken name: the plain
      name if free, otherwise `filename (1)`, `filename (2)`, ... up to the
      first free one. It ends because the names differ for different counters
      and only finitely many directories exist. */
  method ChooseDirName(fs: FileSystem, outputDir: string, filename: string) returns (dirName: string)
    ensures FirstFree(fs.dirs, outputDir, filename, dirName)
  {
    if fs.IsDir(Join(outputDir, filename)) {
      var counter: nat := 1;
      while fs.IsDir(Candidate(outputDir, filename, counter))
        invariant 1 <= counter && counter - 1 <= |fs.dirs|
        invariant forall j: nat :: 1 <= j < counter ==> Candidate(outputDir, filename, j) in fs.dirs
        decreases |fs.dirs| - (counter - 1)
      {
        counter := counter + 1;
        CandidatesBound(fs.dirs, outputDir, filename, counter - 1);
      }
      dirName := Candidate(outputDir, filename, counter);
    } else {
      dirName := Join(outputDir, filename);
    }
  }

  /** What `save` receives for one frame under an encoding. */
  function Encoded(enc: Encoding, frame: Bitmap): Stored
  {
    Still(enc.format, EncodedImage(enc, frame))
  }

  /** The files after frames 0..n-1 of a sequence are saved into dirName. */
  function WrittenFrames(files: map<string, Stored>, dirName: string, stem: string, ext: string,
                         enc: Encoding, frames: seq<Bitmap>, n: nat): map<string, Stored>
    requires n <= |frames|
  {
    if n == 0 then files
    else WrittenFrames(files, dirName, stem, ext, enc, frames, n - 1)[FramePath(dirName, stem, ext, n - 1) := Encoded(enc, frames[n - 1])]
  }

  /** Every saved frame is in its own file, holding that frame. */
  lemma {:induction false} WrittenFramesHolds(files: map<string, Stored>, dirName: string, stem: string, ext: string,
                                              enc: Encoding, frames: seq<Bitmap>, n: nat, k: nat)
    requires k < n <= |frames|
    ensures FramePath(dirName, stem, ext, k) in WrittenFrames(files, dirName, stem, ext, enc, frames, n)
    ensures WrittenFrames(files, dirName, stem, ext, enc, frames, n)[FramePath(dirName, stem, ext, k)] == Encoded(enc, frames[k])
  {
    if k < n - 1 {
      WrittenFramesHolds(files, dirName, stem, ext, enc, frames, n - 1, k);
      if FramePath(dirName, stem, ext, k) == FramePath(dirName, stem, ext, n - 1) {
        FramePathInjective(dirName, stem, ext, k, n - 1);
      }
    }
  }

  /** Saving frames touches no path other than the frame paths. */
  lemma {:induction false} WrittenFramesElsewhere(files: map<string, Stored>, dirName: string, stem: string, ext: string,
                                                  enc: Encoding, frames: seq<Bitmap>, n: nat, path: string)
    requires n <= |frames|
    requires forall k: nat :: k < n ==> path != FramePath(dirName, stem, ext, k)
    ensures path in WrittenFrames(files, dirName, stem, ext, enc, frames, n) <==> path in files
    ensures path in files ==> WrittenFrames(files, dirName, stem, ext, enc, frames, n)[path] == files[path]
  {
    if n > 0 {
      WrittenFramesElsewhere(files, dirName, stem, ext, enc, frames, n - 1, path);
    }
  }

  /** The events of saving frames 0..n-1: progress i + 1, then the save of frame i. */
  function SequenceTrace(dirName: string, stem: string, ext: string, n: nat): seq<Event>
  {
    if n == 0 then [] else SequenceTrace(dirName, stem, ext, n - 1) + [Progress(n), Saved(FramePath(dirName, stem, ext, n - 1))]
  }

  /** Progress i + 1 is reported right before frame i is saved, for every i in order. */
  lemma {:induction false} SequenceTraceAt(dirName: string, stem: string, ext: string, n: nat, i: nat)
    requires i < n
    ensures |SequenceTrace(dirName, stem, ext, n)| == 2 * n
    ensures SequenceTrace(dirName, stem, ext, n)[2 * i] == Progress(i + 1)
    ensures SequenceTrace(dirName, stem, ext, n)[2 * i + 1] == Saved(FramePath(dirName, stem, ext, i))
  {
    if i < n - 1 {
      SequenceTraceAt(dirName, stem, ext, n - 1, i);
    } else if n > 1 {
      SequenceTraceAt(dirName, stem, ext, n - 1, 0);
    }
  }

  /** A directory named after a base name with no separator: not empty and
      not ending in a separator, so names joined onto it live in it. */
  lemma DirNameShape(outputDir: string, filename: string, dirName: string, dirs: set<string>)
    requires |filename| > 0 && Sep !in filename
    requires FirstFree(dirs, outputDir, filename, dirName)
    ensures |dirName| > 0 && dirName[|dirName| - 1] != Sep
  {
    assert filename[0] in filename;
    assert filename[|filename| - 1] in filename;
    if Join(outputDir, filename) in dirs {
      var k: nat :| 1 <= k && dirName == Candidate(outputDir, filename, k) && dirName !in dirs &&
                    forall j: nat :: 1 <= j < k ==> Candidate(outputDir, filename, j) in dirs;
      var b := filename + " (" + NatToString(k) + ")";
      assert b[0] == filename[0];
      assert EndsWith(dirName, b);
    } else {
      assert EndsWith(dirName, filename);
    }
  }

  lemma FrameNameHasNoSep(stem: string, i: nat, ext: string)
    requires Sep !in stem && Sep !in ext
    ensures Sep !in FrameName(stem, i, ext)
  {
    var d := NatToString(i);
    assert forall k :: 0 <= k < |d| ==> d[k] != Sep;
  }

  /** No directory lives directly in dirName. */
  ghost predicate NoSubdirectories(dirs: set<string>, dirName: string)
  {
    forall d {:trigger Parent(d)} :: d in dirs ==> Parent(d) != dirName
  }

  /** In a directory with no subdirectories, a frame path is free to be a
      file and lives in that directory. */
  lemma FramePathFits(dirs: set<string>, dirName: string, stem: string, ext: string, i: nat)
    requires dirName in dirs && |dirName| > 0 && dirName[|dirName| - 1] != Sep
    requires Sep !in stem && Sep !in ext && NoSubdirectories(dirs, dirName)
    ensures FramePath(dirName, stem, ext, i) !in dirs
    ensures Parent(FramePath(dirName, stem, ext, i)) in dirs
  {
    FrameNameHasNoSep(stem, i, ext);
    ParentOfJoin(dirName, FrameName(stem, i, ext));
  }

  /** The loop of `output_frames` over the frames of a sequence: progress
      i + 1, then frame i saved as `<stem>_<i>.<ext>` in dirName under the
      encoding. A failed save ends the loop; a format name with no writer
      fails at the first frame, before any file is written. */
  method SaveFrames(fs: FileSystem, dirName: string, stem: string, frames: seq<Bitmap>, endFix: string, enc: Encoding)
    returns (r: Outcome, trace: seq<Event>)
    requires fs.Valid()
    modifies fs
    ensures fs.Valid() && fs.dirs == old(fs.dirs)
    ensures r.Pass? ==>
      && fs.files == WrittenFrames(old(fs.files), dirName, stem, endFix, enc, frames, |frames|)
      && trace == SequenceTrace(dirName, stem, endFix, |frames|)
    ensures |frames| == 0 ==> r == Pass && trace == [] && fs.files == old(fs.files)
    ensures enc.format !in SaveFormats && |frames| > 0 ==>
      r == Fail(KeyError(enc.format)) && trace == [Progress(1)] && fs.files == old(fs.files)
    ensures (enc.format in SaveFormats && dirName in fs.dirs && |dirName| > 0 && dirName[|dirName| - 1] != Sep &&
             Sep !in stem && Sep !in endFix && NoSubdirectories(fs.dirs, dirName)) ==> r.Pass?
  {
    r := Pass;
    trace := [];
    for i := 0 to |frames|
      invariant fs.Valid() && r == Pass
      invariant fs.dirs == old(fs.dirs)
      invariant enc.format in SaveFormats || i == 0
      invariant fs.files == WrittenFrames(old(fs.files), dirName, stem, endFix, enc, frames, i)
      invariant trace == SequenceTrace(dirName, stem, endFix, i)
    {
      var path := FramePath(dirName, stem, endFix, i);
      if dirName in fs.dirs && |dirName| > 0 && dirName[|dirName| - 1] != Sep &&
         Sep !in stem && Sep !in endFix && NoSubdirectories(fs.dirs, dirName) {
        FramePathFits(fs.dirs, dirName, stem, endFix, i);
      }
      // progress i + 1 is reported before frame i is saved
      r := fs.Save(path, Encoded(enc, frames[i]));
      if r.Fail? {
        trace := trace + [Progress(i + 1)];
        return;
      }
      trace := trace + [Progress(i + 1), Saved(path)];
    }
  }

  /** The frame-sequence branch of `output_frames`: a fresh directory named
      after the whole base name of `filename`, then `SaveFrames` into it.
      `dirName` is the directory chosen. */
  method OutputFrameSequence(fs: FileSystem, filename: string, outputDir: string, frames: seq<Bitmap>, endFix: string,
                             enc: Encoding)
    returns (r: Outcome, trace: seq<Event>, dirName: string)
    requires fs.Valid() && Sep !in endFix
    modifies fs
    ensures fs.Valid()
    ensures FirstFree(old(fs.dirs), outputDir, filename, dirName)
    ensures dirName in old(fs.files) || Parent(dirName) !in old(fs.dirs) ==>
      && r == Fail(if dirName in old(fs.files) then FileExistsError(dirName)
                   else MissingParent(old(fs.dirs), old(fs.files), dirName))
      && trace == [] && fs.dirs == old(fs.dirs) && fs.files == old(fs.files)
    ensures r.Pass? ==>
      && fs.dirs == old(fs.dirs) + {dirName}
      && fs.files == WrittenFrames(old(fs.files), dirName, Stem(filename), endFix, enc, frames, |frames|)
      && trace == SequenceTrace(dirName, Stem(filename), endFix, |frames|)
    ensures dirName !in old(fs.files) && Parent(dirName) in old(fs.dirs) && enc.format !in SaveFormats && |frames| > 0 ==>
      && r == Fail(KeyError(enc.format)) && trace == [Progress(1)]
      && fs.dirs == old(fs.dirs) + {dirName} && fs.files == old(fs.files)
    ensures |filename| > 0 && Sep !in filename ==>
      (r.Pass? <==> dirName !in old(fs.files) && Parent(dirName) in old(fs.dirs) &&
                    (enc.format in SaveFormats || |frames| == 0))
  {
    dirName := ChooseDirName(fs, outputDir, filename);
    FirstFreeIsFree(fs.dirs, outputDir, filename, dirName);
    if |filename| > 0 && Sep !in filename {
      DirNameShape(outputDir, filename, dirName, fs.dirs);
    }
    r := fs.Mkdir(dirName);
    trace := [];
    if r.Fail? {
      return;
    }
    assert NoSubdirectories(fs.dirs, dirName) by {
      forall d | d in fs.dirs
        ensures Parent(d) != dirName
      {
        if d != dirName {
          assert Parent(d) in old(fs.dirs);
        }
      }
    }
    r, trace := SaveFrames(fs, dirName, Stem(filename), frames, endFix, enc);
  }

  /** The container branch of `output_frames`: `frames[0]` followed by all of
      `frames` (that is what `save_all=True, append_images=frames` hands the
      encoder) saved as `<stem>.<ext>`, at 1000 / 20 = 50 ms per frame,
      looping forever. No frames is an IndexError. */
  method OutputContainer(fs: FileSystem, filename: string, outputDir: string, frames: seq<Bitmap>, way: OutputWay)
    returns (r: Outcome, trace: seq<Event>)
    requires fs.Valid() && IsContainer(way)
    modifies fs
    ensures fs.Valid() && fs.dirs == old(fs.dirs)
    ensures |frames| == 0 ==> r == Fail(IndexError) && trace == [] && fs.files == old(fs.files)
    ensures |frames| > 0 ==>
      var path := ContainerPath(outputDir, filename, way);
      && r == (if path in old(fs.dirs) then Fail(IsADirectoryError(path))
               else if Parent(path) !in old(fs.dirs) then Fail(MissingParent(old(fs.dirs), old(fs.files), path))
               else Pass)
      && fs.files == (if r.Pass? then old(fs.files)[path := Animation(Upper(EndFixTransMap[way]), [frames[0]] + frames, 50, 0)]
                      else old(fs.files))
      && trace == (if r.Pass? then [Saved(path)] else [])
  {
    if |frames| == 0 {
      return Fail(IndexError), [];
    }
    EndFixTransMapTotal(way);
    ContainerFormatsRegistered(way);
    var endFix := EndFixTransMap[way];
    var path := Join(outputDir, Stem(filename) + "." + endFix);
    r := fs.Save(path, Animation(Upper(endFix), [frames[0]] + frames, 50, 0));
    trace := if r.Pass? then [Saved(path)] else [];
  }

  /** `output_frames`: the container branch for the three single-file kinds,
      the frame-sequence branch for the other two, with the intended frame
      encoding. */
  method OutputFrames(fs: FileSystem, filename: string, outputDir: string, frames: seq<Bitmap>, way: OutputWay)
    returns (r: Outcome, trace: seq<Event>, dirName: string)
    requires fs.Valid()
    modifies fs
    ensures fs.Valid()
    ensures IsContainer(way) && |frames| == 0 ==>
      r == Fail(IndexError) && trace == [] && fs.dirs == old(fs.dirs) && fs.files == old(fs.files)
    ensures IsContainer(way) && |frames| > 0 ==>
      var path := ContainerPath(outputDir, filename, way);
      && fs.dirs == old(fs.dirs)
      && r == (if path in old(fs.dirs) then Fail(IsADirectoryError(path))
               else if Parent(path) !in old(fs.dirs) then Fail(MissingParent(old(fs.dirs), old(fs.files), path))
               else Pass)
      && fs.files == (if r.Pass? then old(fs.files)[path := Animation(Upper(EndFixTransMap[way]), [frames[0]] + frames, 50, 0)]
                      else old(fs.files))
      && trace == (if r.Pass? then [Saved(path)] else [])
    ensures IsFrameSequence(way) ==> FirstFree(old(fs.dirs), outputDir, filename, dirName)
    ensures IsFrameSequence(way) && (dirName in old(fs.files) || Parent(dirName) !in old(fs.dirs)) ==>
      && r == Fail(if dirName in old(fs.files) then FileExistsError(dirName)
                   else MissingParent(old(fs.dirs), old(fs.files), dirName))
      && trace == [] && fs.dirs == old(fs.dirs) && fs.files == old(fs.files)
    ensures IsFrameSequence(way) && r.Pass? ==>
      var ext := EndFixTransMap[way];
      && fs.dirs == old(fs.dirs) + {dirName}
      && fs.files == WrittenFrames(old(fs.files), dirName, Stem(filename), ext, FrameEncoding(ext), frames, |frames|)
      && trace == SequenceTrace(dirName, Stem(filename), ext, |frames|)
    ensures IsFrameSequence(way) && |filename| > 0 && Sep !in filename ==>
      (r.Pass? <==> dirName !in old(fs.files) && Parent(dirName) in old(fs.dirs))
  {
    if IsContainer(way) {
      assert !IsFrameSequence(way);
      r, trace := OutputContainer(fs, filename, outputDir, frames, way);
      dirName := [];
    } else {
      assert IsFrameSequence(way);
      EndFixTransMapTotal(way);
      FrameFormatsRegistered(way);
      var ext := EndFixTransMap[way];
      r, trace, dirName := OutputFrameSequence(fs, filename, outputDir, frames, ext, FrameEncoding(ext));
    }
  }

  /** The paths of the runs below: "out" lives in the start directory and
      "out/a.jpg" in "out". */
  lemma OutPaths()
    ensures Parent("out") == [] && Sep !in "a.jpg"
    ensures Join("out", "a.jpg") == "out/a.jpg" && Parent("out/a.jpg") == "out"
  {
    assert RIndex("out", Sep).None?;
    ParentOfJoin("out", "a.jpg");
    assert "out" + [Sep] + "a.jpg" == "out/a.jpg";
  }

  /** Writing one frame of "a.jpg" as FRAMES_JPG into "out" the way the code
      does: the directory "out/a.jpg" is made and progress 1 is reported,
      then the save raises KeyError("JPG") and no file is written. */
  method JpgFramesAsWritten(frame: Bitmap)
    returns (r: Outcome, trace: seq<Event>, dirs: set<string>, files: map<string, Stored>)
    ensures r == Fail(KeyError("JPG")) && trace == [Progress(1)]
    ensures dirs == {[], "out", "out/a.jpg"} && files == map[]
  {
    var fs := new FileSystem();
    OutPaths();
    var made := fs.Mkdir("out");
    JpgFormatAsWrittenUnregistered();
    var dirName;
    r, trace, dirName := OutputFrameSequence(fs, "a.jpg", "out", [frame], "jpg", FrameEncodingAsWritten("jpg"));
    dirs, files := fs.dirs, fs.files;
  }

  /** JPG frames with the intended encoding, through `OutputFrames`: when
      the plain directory name is free and its parent exists, every frame is
      written there as an RGB JPEG, and the run succeeds, with or without
      frames. */
  method JpgFramesCorrected(fs: FileSystem, filename: string, outputDir: string, frames: seq<Bitmap>)
    returns (r: Outcome, trace: seq<Event>, dirName: string)
    requires fs.Valid() && |filename| > 0 && Sep !in filename
    requires Join(outputDir, filename) !in fs.dirs && Join(outputDir, filename) !in fs.files
    requires Parent(Join(outputDir, filename)) in fs.dirs
    modifies fs
    ensures r == Pass && dirName == Join(outputDir, filename)
    ensures fs.dirs == old(fs.dirs) + {dirName}
    ensures fs.files == WrittenFrames(old(fs.files), dirName, Stem(filename), "jpg", Encoding("JPEG", true), frames, |frames|)
    ensures trace == SequenceTrace(dirName, Stem(filename), "jpg", |frames|)
  {
    assert EndFixTransMap[FramesJpg] == "jpg";
    r, trace, dirName := OutputFrames(fs, filename, outputDir, frames, FramesJpg);
  }
}
