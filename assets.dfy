/** The list of pictures waiting to be enchanted: the paths in
    `ready_assets`, their 64x64 icons in `ready_assets_icons`, and the
    labels the list control shows, kept index by index in step by
    `add_files_to_list` and `remove_item`. */
module Assets {
  import opened Text
  import opened Paths
  import opened Output
  import opened Arith

  /** An icon made from a picture file. The BOX resize to 64x64 and the
      RGBA conversion are image-library operations; the icon keeps the
      picture it was made from. */
  datatype Icon = Thumbnail(source: Stored)

  const IconSize: nat := 64

  /** The paths among `filenames` that name files, in their given order. */
  function FilesOnly(files: map<string, Stored>, filenames: seq<string>): (r: seq<string>)
    ensures |r| <= |filenames|
    ensures forall p :: p in r ==> p in files
  {
    if filenames == [] then []
    else
      var last := filenames[|filenames| - 1];
      FilesOnly(files, filenames[..|filenames| - 1]) + (if last in files then [last] else [])
  }

  /** A path is kept exactly when it is one of the given paths and a file. */
  lemma {:induction false} FilesOnlyMember(files: map<string, Stored>, filenames: seq<string>, p: string)
    ensures p in FilesOnly(files, filenames) <==> p in filenames && p in files
  {
    if filenames != [] {
      var init := filenames[..|filenames| - 1];
      FilesOnlyMember(files, init, p);
      assert filenames == init + [filenames[|filenames| - 1]];
    }
  }

  /** Filtering two batches one after the other gives the filter of the
      joined batch: the relative order of the kept paths is the given order. */
  lemma {:induction false} FilesOnlyConcat(files: map<string, Stored>, a: seq<string>, b: seq<string>)
    ensures FilesOnly(files, a + b) == FilesOnly(files, a) + FilesOnly(files, b)
    decreases |b|
  {
    if b != [] {
      var init := b[..|b| - 1];
      assert (a + b)[..|a + b| - 1] == a + init;
      FilesOnlyConcat(files, a, init);
    } else {
      assert a + b == a;
    }
  }

  /** The icons made for `paths`, one for each, in the same order. */
  function IconsFor(files: map<string, Stored>, paths: seq<string>): (r: seq<Icon>)
    requires forall p :: p in paths ==> p in files
    ensures |r| == |paths|
    ensures forall i :: 0 <= i < |paths| ==> r[i] == Thumbnail(files[paths[i]])
  {
    seq(|paths|, i requires 0 <= i < |paths| => Thumbnail(files[paths[i]]))
  }

  /** The labels the list control shows for `paths`: their basenames. */
  function Labels(paths: seq<string>): (r: seq<string>)
    ensures |r| == |paths|
    ensures forall i :: 0 <= i < |paths| ==> r[i] == Basename(paths[i]) && Sep !in r[i]
  {
    seq(|paths|, i requires 0 <= i < |paths| => Basename(paths[i]))
  }

  /** `list.pop(index)`: a negative index counts from the end; an index
      outside -n..n-1 is an `IndexError`. */
  function PopIndex(n: nat, index: int): (r: Option<nat>)
    ensures r.Some? <==> -(n as int) <= index < n
    ensures r.Some? ==> r.value < n
  {
    if 0 <= index < n then Some(index)
    else if -(n as int) <= index < 0 then Some(n + index)
    else None
  }

  /** Within range, the popped position is the index reduced modulo the
      length: the position that is `index` places on from the start,
      going round the list. */
  lemma PopIndexMod(n: nat, index: int)
    requires PopIndex(n, index).Some?
    ensures PopIndex(n, index).value == index % n
  {
    if index < 0 {
      DivModUnique(index, n, -1, n + index);
    } else {
      DivModUnique(index, n, 0, index);
    }
  }

  /** `s` with its k-th entry taken out. */
  function Without<T>(s: seq<T>, k: nat): (r: seq<T>)
    requires k < |s|
    ensures |r| == |s| - 1
    ensures forall i :: 0 <= i < k ==> r[i] == s[i]
    ensures forall i :: k <= i < |r| ==> r[i] == s[i + 1]
  {
    s[..k] + s[k + 1..]
  }

  /** Taking an entry out keeps the others, with their multiplicities. */
  lemma WithoutMultiset<T>(s: seq<T>, k: nat)
    requires k < |s|
    ensures multiset(Without(s, k)) + multiset{s[k]} == multiset(s)
  {
    assert s == s[..k] + [s[k]] + s[k + 1..];
  }

  /** One more path: it is kept exactly when it names a file. */
  lemma FilesOnlyStep(files: map<string, Stored>, filenames: seq<string>, i: nat)
    requires i < |filenames|
    ensures FilesOnly(files, filenames[..i + 1]) ==
      FilesOnly(files, filenames[..i]) + (if filenames[i] in files then [filenames[i]] else [])
  {
    assert filenames[..i + 1][..i] == filenames[..i];
  }

  lemma IconsForAppend(files: map<string, Stored>, paths: seq<string>, p: string)
    requires forall q :: q in paths ==> q in files
    requires p in files
    ensures IconsFor(files, paths + [p]) == IconsFor(files, paths) + [Thumbnail(files[p])]
  {
  }

  lemma LabelsAppend(paths: seq<string>, p: string)
    ensures Labels(paths + [p]) == Labels(paths) + [Basename(p)]
  {
  }

  /** The ready list of the main window. */
  class ReadyAssets {
    var paths: seq<string>
    var icons: seq<Icon>
    var labels: seq<string>

    /** The two lists and the list control have one entry per picture, and
        each label is the basename of its path. */
    ghost predicate Valid()
      reads this
    {
      |icons| == |paths| && labels == Labels(paths)
    }

    constructor ()
      ensures Valid() && paths == [] && icons == [] && labels == []
    {
      paths, icons, labels := [], [], [];
    }

    /** `add_files_to_list`: each path that names a file is appended, with
        its icon and its label; other paths are skipped. */
    method AddFilesToList(fs: FileSystem, filenames: seq<string>)
      requires Valid()
      modifies this
      ensures Valid()
      ensures paths == old(paths) + FilesOnly(fs.files, filenames)
      ensures icons == old(icons) + IconsFor(fs.files, FilesOnly(fs.files, filenames))
    {
      var i := 0;
      while i < |filenames|
        invariant 0 <= i <= |filenames|
        invariant Valid()
        invariant paths == old(paths) + FilesOnly(fs.files, filenames[..i])
        invariant icons == old(icons) + IconsFor(fs.files, FilesOnly(fs.files, filenames[..i]))
      {
        var filename := filenames[i];
        FilesOnlyStep(fs.files, filenames, i);
        if fs.IsFile(filename) {
          ghost var added := FilesOnly(fs.files, filenames[..i]);
          IconsForAppend(fs.files, added, filename);
          LabelsAppend(paths, filename);
          assert old(paths) + added + [filename] == old(paths) + (added + [filename]);
          assert old(icons) + IconsFor(fs.files, added) + [Thumbnail(fs.files[filename])]
              == old(icons) + (IconsFor(fs.files, added) + [Thumbnail(fs.files[filename])]);
          labels := labels + [Basename(filename)];
          paths := paths + [filename];
          icons := icons + [Thumbnail(fs.files[filename])];
        } else {
          assert filenames[..i] + [] == filenames[..i];
        }
        i := i + 1;
      }
      assert filenames[..i] == filenames;
    }

    /** The end of `process_frames`: the list control, the paths and the
        icons are all cleared. */
    method Clear()
      modifies this
      ensures Valid() && paths == [] && icons == [] && labels == []
    {
      paths, icons, labels := [], [], [];
    }

    /** `remove_item`: `pop(index)` on both lists, then the list control
        is refilled from the paths. An index out of range raises before
        anything changes. */
    method RemoveItem(index: int) returns (r: Outcome)
      requires Valid()
      modifies this
      ensures Valid()
      ensures PopIndex(|old(paths)|, index).None? ==> r == Fail(IndexError) && paths == old(paths) && icons == old(icons)
      ensures PopIndex(|old(paths)|, index).Some? ==>
        var k := PopIndex(|old(paths)|, index).value;
        r == Pass && paths == Without(old(paths), k) && icons == Without(old(icons), k)
    {
      var n := |paths|;
      var k := 0;
      if 0 <= index < n {
        k := index;
      } else if -n <= index < 0 {
        k := n + index;
      } else {
        return Fail(IndexError);
      }
      paths := Without(paths, k);
      icons := Without(icons, k);
      labels := Labels(paths);
      r := Pass;
    }
  }
}
