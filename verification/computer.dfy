/**
 * The archive builder of `imgaug/computer.py`: the extension filter over a
 * folder listing, the names given to augmented images and to archives, the
 * batching of the augmented stream into archives of at most `x_zip` images
 * (`Zipper`), and the single-image pipeline that hands every variant to an
 * action (`Persister`).  Randomness (the 13-character basenames), the clock
 * (the archive timestamp), the image codecs and the file system enter as
 * parameters.
 */
module Computer {
  import opened Wrappers
  import opened Text
  import Labeller
  import Chunking

  /** `Zipper.MAXLEN`: the length of the random per-file basename. */
  const MaxLen: nat := 13
  /** `Zipper.EXTS`: the accepted extensions, compared after lower-casing. */
  const Exts: set<string> := {"png", "jpg", "jpeg"}
  const Png: string := "png"
  const Jpg: string := "jpg"

  /**
   * `filepath.rsplit('.', 1)[-1].lower()`: the lower-cased text after the
   * last dot, or the whole lower-cased path when there is no dot.
   */
  function Ext(filepath: string): (r: string)
    ensures '.' !in r
    ensures |r| <= |filepath| && r == Lower(filepath[|filepath| - |r|..])
    ensures '.' in filepath <==> |r| < |filepath|
    ensures '.' in filepath ==> filepath[|filepath| - |r| - 1] == '.'
  {
    var tail := filepath[RFind(filepath, '.') + 1..];
    assert forall i :: 0 <= i < |tail| ==> Lower(tail)[i] == '.' ==> tail[i] == '.';
    Lower(tail)
  }

  /** Lower-casing changes no dot, so it leaves the last dot where it was. */
  lemma RFindDotLower(s: string)
    ensures RFind(Lower(s), '.') == RFind(s, '.')
  {
    var r1 := RFind(s, '.');
    var r2 := RFind(Lower(s), '.');
    assert forall i :: 0 <= i < |s| ==> (Lower(s)[i] == '.' <==> s[i] == '.');
    if r1 >= 0 {
      assert Lower(s)[r1] == '.';
    }
  }

  /** The extension test is case-insensitive: lower-casing the path first changes nothing. */
  lemma ExtIgnoresCase(filepath: string)
    ensures Ext(Lower(filepath)) == Ext(filepath)
    ensures Valid(Lower(filepath)) == Valid(filepath)
  {
    RFindDotLower(filepath);
    var k := RFind(filepath, '.') + 1;
    assert Lower(filepath)[k..] == Lower(filepath[k..]);
    LowerTwice(filepath[k..]);
  }

  /** `path` ends, up to case, in a dot followed by `e`, or is `e` itself up to case. */
  predicate HasExt(path: string, e: string)
  {
    || Lower(path) == e
    || (|e| < |path| && path[|path| - |e| - 1] == '.' && Lower(path[|path| - |e|..]) == e)
  }

  /** A path ending in a dot and, up to case, a dot-free `e` has extension `e`. */
  lemma SuffixGivesExt(path: string, e: string)
    requires '.' !in e
    requires |e| < |path| && path[|path| - |e| - 1] == '.' && Lower(path[|path| - |e|..]) == e
    ensures Ext(path) == e
  {
    var tail := path[|path| - |e|..];
    assert '.' !in tail by {
      forall k | 0 <= k < |tail|
        ensures tail[k] != '.'
      {
        assert Lower(tail)[k] == e[k];
      }
    }
    var front := path[..|path| - |e| - 1];
    assert path == front + "." + tail;
    ExtAfterDot(front, tail);
  }

  /** For a dot-free lower-case extension, having it as a suffix is having it as `Ext`. */
  lemma ExtBySuffix(path: string, e: string)
    requires '.' !in e
    ensures HasExt(path, e) <==> Ext(path) == e
  {
    if '.' in path {
      var k :| 0 <= k < |path| && path[k] == '.';
      assert Lower(path)[k] == '.';
      if |e| < |path| && path[|path| - |e| - 1] == '.' && Lower(path[|path| - |e|..]) == e {
        SuffixGivesExt(path, e);
      }
    } else {
      UndottedExt(path);
    }
  }

  /** `Zipper._valid`: the path ends, up to case, in `.png`, `.jpg` or `.jpeg` (or is one of those words). */
  predicate Valid(filepath: string)
    ensures Valid(filepath) <==> HasExt(filepath, "png") || HasExt(filepath, "jpg") || HasExt(filepath, "jpeg")
  {
    AcceptedBySuffix(filepath);
    Ext(filepath) in Exts
  }

  lemma AcceptedBySuffix(filepath: string)
    ensures Ext(filepath) in Exts <==> HasExt(filepath, "png") || HasExt(filepath, "jpg") || HasExt(filepath, "jpeg")
  {
    var e := Ext(filepath);
    assert e in Exts <==> e == "png" || e == "jpg" || e == "jpeg";
    ExtBySuffix(filepath, "png");
    ExtBySuffix(filepath, "jpg");
    ExtBySuffix(filepath, "jpeg");
  }

  /** The extension of a name with a dot is the lower-cased text after its last dot. */
  lemma ExtAfterDot(front: string, ext: string)
    requires '.' !in ext
    ensures Ext(front + "." + ext) == Lower(ext)
  {
    var s := front + "." + ext;
    var r := RFind(s, '.');
    assert s[|front|] == '.';
    assert forall i :: |front| < i < |s| ==> s[i] == ext[i - |front| - 1];
    assert forall i :: r < i < |s| ==> s[i] == s[r + 1..][i - r - 1];
    assert r == |front|;
    assert s[r + 1..] == ext;
  }

  /** An extension is accepted exactly when its lower-cased form is one of the accepted ones. */
  lemma ValidByExtension(front: string, ext: string)
    requires '.' !in ext
    ensures Valid(front + "." + ext) <==> Lower(ext) in Exts
  {
    ExtAfterDot(front, ext);
  }

  /** An upper-case extension is accepted. */
  lemma ValidExamples()
    ensures Valid("resources/bag" + "." + "PNG")
  {
    ValidByExtension("resources/bag", "PNG");
    assert Lower("PNG") == "png";
  }

  /** Any other extension is rejected. */
  lemma RejectedExample()
    ensures !Valid("resources/notes" + "." + "txt")
  {
    ValidByExtension("resources/notes", "txt");
    assert Lower("txt") == "txt";
  }

  /**
   * A path without any dot is its own extension: a bare `png` passes the
   * filter, `resources/png` does not.
   */
  lemma UndottedExamples()
    ensures Valid("png")
    ensures !Valid("resources/png")
  {
    UndottedExt("png");
    assert Lower("png") == "png";
    UndottedExt("resources/png");
    assert |Lower("resources/png")| == 13;
  }

  /** Without a dot the extension is the whole lower-cased path. */
  lemma UndottedExt(path: string)
    requires '.' !in path
    ensures Ext(path) == Lower(path)
  {
    assert path[0..] == path;
  }

  /** `Zipper._files`: the listed paths with an accepted extension, in listing order. */
  function Files(paths: seq<string>): (r: seq<string>)
    ensures |r| <= |paths|
    ensures forall p :: p in r <==> p in paths && Valid(p)
  {
    if |paths| == 0 then []
    else
      var rest := Files(paths[1..]);
      assert forall p :: p in paths <==> p == paths[0] || p in paths[1..];
      if Valid(paths[0]) then [paths[0]] + rest else rest
  }

  /** A single path is kept exactly when it is accepted. */
  lemma FilesOne(p: string)
    ensures Files([p]) == if Valid(p) then [p] else []
  {
    assert [p][1..] == [];
  }

  /**
   * The filter works path by path: filtering two listings one after the other
   * is filtering their concatenation, so the kept paths keep their listing
   * order and multiplicity.
   */
  lemma {:induction false} FilesAppend(a: seq<string>, b: seq<string>)
    ensures Files(a + b) == Files(a) + Files(b)
    decreases |a|
  {
    if |a| == 0 {
      assert a + b == b;
    } else {
      assert (a + b)[0] == a[0];
      assert (a + b)[1..] == a[1..] + b;
      FilesAppend(a[1..], b);
    }
  }

  /** Filtering a filtered listing changes nothing. */
  lemma {:induction false} FilesIdempotent(paths: seq<string>)
    ensures Files(Files(paths)) == Files(paths)
  {
    if |paths| > 0 {
      FilesIdempotent(paths[1..]);
      if Valid(paths[0]) {
        assert ([paths[0]] + Files(paths[1..]))[1..] == Files(paths[1..]);
      }
    }
  }

  /** `string.ascii_letters + string.digits`. */
  predicate IsAlphanumeric(c: char)
  {
    'a' <= c <= 'z' || 'A' <= c <= 'Z' || '0' <= c <= '9'
  }

  /** What `Zipper._basename` draws: `MAXLEN` ASCII letters and digits. */
  predicate IsBasename(b: string)
  {
    |b| == MaxLen && forall i :: 0 <= i < |b| ==> IsAlphanumeric(b[i])
  }

  /** POSIX `os.path.join` of two components. */
  function PathJoin(dir: string, name: string): (r: string)
    ensures |name| > 0 && name[0] == '/' ==> r == name
    ensures |r| >= |name| && r[|r| - |name|..] == name
  {
    if |name| > 0 && name[0] == '/' then name
    else if |dir| == 0 || dir[|dir| - 1] == '/' then dir + name
    else dir + "/" + name
  }

  /** Joining a slash-free name onto a folder and taking the basename gives the name back. */
  lemma BasenameOfJoin(dir: string, name: string)
    requires '/' !in name
    ensures Labeller.Basename(PathJoin(dir, name)) == name
  {
    if |dir| == 0 {
      assert PathJoin(dir, name) == name;
      assert RFind(name, '/') == -1;
      assert name[0..] == name;
    } else if dir[|dir| - 1] == '/' {
      var front := dir[..|dir| - 1];
      assert PathJoin(dir, name) == front + ['/'] + name;
      Labeller.BasenameAfterSlash(front, name);
    } else {
      Labeller.BasenameAfterSlash(dir, name);
    }
  }

  /** A zero-padded index between a fixed prefix and suffix can be read back. */
  lemma PaddedIndexInjective(prefix: string, i: nat, j: nat, width: nat, suffix: string)
    requires prefix + ZeroPad(i, width) + suffix == prefix + ZeroPad(j, width) + suffix
    ensures i == j
  {
    var a := prefix + ZeroPad(i, width) + suffix;
    var b := prefix + ZeroPad(j, width) + suffix;
    assert |ZeroPad(i, width)| == |ZeroPad(j, width)|;
    assert a[|prefix|..|prefix| + |ZeroPad(i, width)|] == ZeroPad(i, width);
    assert b[|prefix|..|prefix| + |ZeroPad(j, width)|] == ZeroPad(j, width);
    ZeroPadInjective(i, j, width);
  }

  /**
   * `name` reads as `prefix`, then a numeral of at least `width` decimal
   * digits denoting `i`, then `suffix`.
   */
  predicate Framed(name: string, prefix: string, i: nat, width: nat, suffix: string)
  {
    && |prefix| + width + |suffix| <= |name|
    && name[..|prefix|] == prefix
    && name[|name| - |suffix|..] == suffix
    && AllDigits(name[|prefix|..|name| - |suffix|])
    && ParseDecimal(name[|prefix|..|name| - |suffix|]) == i
  }

  lemma FramedPad(prefix: string, i: nat, width: nat, suffix: string)
    ensures Framed(prefix + ZeroPad(i, width) + suffix, prefix, i, width, suffix)
  {
    var z := ZeroPad(i, width);
    var name := prefix + z + suffix;
    assert name[..|prefix|] == prefix;
    assert name[|name| - |suffix|..] == suffix;
    assert name[|prefix|..|name| - |suffix|] == z;
  }

  /** `f'{basename}{i:03}.{ext}'`: the name of the `i`-th variant of one file. */
  function EntryName(basename: string, i: nat, ext: string): (r: string)
    ensures Framed(r, basename, i, 3, "." + ext)
  {
    FramedPad(basename, i, 3, "." + ext);
    assert basename + ZeroPad(i, 3) + "." + ext == basename + ZeroPad(i, 3) + ("." + ext);
    basename + ZeroPad(i, 3) + "." + ext
  }

  /** The variants of one file get distinct names. */
  lemma EntryNamesDistinct(basename: string, i: nat, j: nat, ext: string)
    ensures EntryName(basename, i, ext) == EntryName(basename, j, ext) <==> i == j
  {
    if EntryName(basename, i, ext) == EntryName(basename, j, ext) {
      assert EntryName(basename, i, ext) == basename + ZeroPad(i, 3) + ("." + ext);
      assert EntryName(basename, j, ext) == basename + ZeroPad(j, 3) + ("." + ext);
      PaddedIndexInjective(basename, i, j, 3, "." + ext);
    }
  }

  /** A variant's name keeps the source file's extension and contains no folder separator. */
  lemma EntryNameShape(basename: string, i: nat, ext: string)
    requires IsBasename(basename)
    requires '/' !in ext && '.' !in ext
    ensures '/' !in EntryName(basename, i, ext)
    ensures Ext(EntryName(basename, i, ext)) == Lower(ext)
  {
    var z := ZeroPad(i, 3);
    assert forall k :: 0 <= k < |z| ==> z[k] != '/' && z[k] != '.' by {
      assert AllDigits(z);
    }
    assert '/' !in basename + z;
    ExtAfterDot(basename + z, ext);
  }

  /** `f'{zipname}{i:02}.zip'`: the name of the `i`-th archive. */
  function ZipName(zipname: string, i: nat): (r: string)
    ensures Framed(r, zipname, i, 2, ".zip")
  {
    FramedPad(zipname, i, 2, ".zip");
    zipname + ZeroPad(i, 2) + ".zip"
  }

  /** Every archive of one run gets its own file name. */
  lemma ZipNamesDistinct(zipname: string, i: nat, j: nat)
    ensures ZipName(zipname, i) == ZipName(zipname, j) <==> i == j
  {
    if ZipName(zipname, i) == ZipName(zipname, j) {
      PaddedIndexInjective(zipname, i, j, 2, ".zip");
    }
  }

  /** One archive member: where the variant was saved, and its path inside the archive. */
  datatype Entry = Entry(tmpname: string, archive: string)

  /** What stops a run: a file the labeller rejects, or `count % x_zip` with `x_zip == 0`. */
  datatype Error = Unlabelled(path: string, cause: Labeller.Error) | ZeroBatchSize

  /** `(path.join(tmpdir, name), path.join(label, name))` for the `i`-th variant of one file. */
  function VariantEntry(tmpdir: string, basename: string, folder: string, ext: string, i: nat): Entry
  {
    var name := EntryName(basename, i, ext);
    Entry(PathJoin(tmpdir, name), PathJoin(folder, name))
  }

  /** The entries `Zipper.__iter__` appends for the `n` variants of one labelled file. */
  function FileEntries(tmpdir: string, basename: string, folder: string, ext: string, n: nat): (r: seq<Entry>)
    ensures |r| == n
    ensures forall i :: 0 <= i < n ==> r[i] == VariantEntry(tmpdir, basename, folder, ext, i)
  {
    seq(n, i requires 0 <= i < n => VariantEntry(tmpdir, basename, folder, ext, i))
  }

  /**
   * Within the label folder of an archive the variants of one file never
   * collide, and each is stored under its own variant name.
   */
  lemma FileEntriesDistinct(tmpdir: string, basename: string, folder: string, ext: string, n: nat, i: nat, j: nat)
    requires IsBasename(basename) && '/' !in ext && '.' !in ext
    requires i < n && j < n
    ensures Labeller.Basename(FileEntries(tmpdir, basename, folder, ext, n)[i].archive) == EntryName(basename, i, ext)
    ensures FileEntries(tmpdir, basename, folder, ext, n)[i].archive == FileEntries(tmpdir, basename, folder, ext, n)[j].archive <==> i == j
  {
    EntryNameShape(basename, i, ext);
    EntryNameShape(basename, j, ext);
    BasenameOfJoin(folder, EntryName(basename, i, ext));
    BasenameOfJoin(folder, EntryName(basename, j, ext));
    EntryNamesDistinct(basename, i, j, ext);
  }

  /** The entries produced before the run stopped, and why it stopped. */
  datatype Collected = Collected(entries: seq<Entry>, failure: Option<Error>)

  /**
   * The stream of entries of a run over `files` (each with its random
   * basename and `perImage` augmented variants), up to the first file the
   * labeller rejects.  The labeller is the injected callable, by default
   * `Labeller.Label(Labeller.Default, _)`.
   */
  function Collect(labeller: string -> Result<string, Labeller.Error>, files: seq<string>, basenames: seq<string>, perImage: nat, tmpdir: string): (c: Collected)
    requires |basenames| == |files|
    ensures c.failure.Some? ==>
              c.failure.value.Unlabelled? && labeller(c.failure.value.path) == Failure(c.failure.value.cause)
    decreases |files|
  {
    if |files| == 0 then Collected([], None)
    else
      var n := |files| - 1;
      var prior := Collect(labeller, files[..n], basenames[..n], perImage, tmpdir);
      if prior.failure.Some? then prior
      else
        match labeller(files[n])
        case Failure(e) => Collected(prior.entries, Some(Unlabelled(files[n], e)))
        case Success(name) =>
          Collected(prior.entries + FileEntries(tmpdir, basenames[n], name, Ext(files[n]), perImage), None)
  }

  /** A run fails exactly when the labeller rejects one of the files. */
  lemma {:induction false} CollectSucceeds(labeller: string -> Result<string, Labeller.Error>, files: seq<string>,
                                           basenames: seq<string>, perImage: nat, tmpdir: string)
    requires |basenames| == |files|
    ensures Collect(labeller, files, basenames, perImage, tmpdir).failure.None?
            <==> forall k :: 0 <= k < |files| ==> labeller(files[k]).Success?
    decreases |files|
  {
    if |files| > 0 {
      var n := |files| - 1;
      var prior := Collect(labeller, files[..n], basenames[..n], perImage, tmpdir);
      var c := Collect(labeller, files, basenames, perImage, tmpdir);
      CollectSucceeds(labeller, files[..n], basenames[..n], perImage, tmpdir);
      assert forall k :: 0 <= k < n ==> files[..n][k] == files[k];
      if prior.failure.Some? {
        assert c == prior;
        var k :| 0 <= k < n && !labeller(files[..n][k]).Success?;
        assert !labeller(files[k]).Success?;
      } else if labeller(files[n]).Failure? {
        assert c.failure.Some?;
      } else {
        assert c.failure.None?;
      }
    }
  }

  /** A run over labelled files collects `perImage` entries per file. */
  lemma {:induction false} CollectLength(labeller: string -> Result<string, Labeller.Error>, files: seq<string>,
                                         basenames: seq<string>, perImage: nat, tmpdir: string)
    requires |basenames| == |files|
    ensures var c := Collect(labeller, files, basenames, perImage, tmpdir);
            c.failure.None? ==> |c.entries| == |files| * perImage
    decreases |files|
  {
    if |files| > 0 {
      var n := |files| - 1;
      CollectLength(labeller, files[..n], basenames[..n], perImage, tmpdir);
      MulSucc(n, perImage);
    }
  }

  lemma MulSucc(n: nat, m: nat)
    ensures (n + 1) * m == n * m + m
  {
  }

  /**
   * A run stops at the first file the labeller rejects, reporting that file
   * and keeping the entries of every file before it.
   */
  lemma {:induction false} CollectStopsAtFirstFailure(labeller: string -> Result<string, Labeller.Error>, files: seq<string>,
                                                      basenames: seq<string>, perImage: nat, tmpdir: string)
    requires |basenames| == |files|
    ensures var c := Collect(labeller, files, basenames, perImage, tmpdir);
            c.failure.Some? ==>
              exists k :: 0 <= k < |files| && labeller(files[k]).Failure?
                          && c.failure == Some(Unlabelled(files[k], labeller(files[k]).error))
                          && (forall j :: 0 <= j < k ==> labeller(files[j]).Success?)
                          && |c.entries| == k * perImage
    decreases |files|
  {
    if |files| > 0 {
      var n := |files| - 1;
      var prior := Collect(labeller, files[..n], basenames[..n], perImage, tmpdir);
      assert forall k :: 0 <= k < n ==> files[..n][k] == files[k];
      if prior.failure.Some? {
        CollectStopsAtFirstFailure(labeller, files[..n], basenames[..n], perImage, tmpdir);
        var k :| 0 <= k < n && labeller(files[..n][k]).Failure?
                 && prior.failure == Some(Unlabelled(files[..n][k], labeller(files[..n][k]).error))
                 && (forall j :: 0 <= j < k ==> labeller(files[..n][j]).Success?)
                 && |prior.entries| == k * perImage;
        assert files[..n][k] == files[k];
      } else if labeller(files[n]).Failure? {
        CollectSucceeds(labeller, files[..n], basenames[..n], perImage, tmpdir);
        CollectLength(labeller, files[..n], basenames[..n], perImage, tmpdir);
      }
    }
  }

  /** One more file only appends entries, and changes nothing once the run has failed. */
  lemma CollectGrows(labeller: string -> Result<string, Labeller.Error>, files: seq<string>, basenames: seq<string>, perImage: nat, tmpdir: string)
    requires |basenames| == |files| && |files| > 0
    ensures var n := |files| - 1;
            Collect(labeller, files[..n], basenames[..n], perImage, tmpdir).entries
            <= Collect(labeller, files, basenames, perImage, tmpdir).entries
    ensures var n := |files| - 1;
            Collect(labeller, files[..n], basenames[..n], perImage, tmpdir).failure.Some? ==>
              Collect(labeller, files, basenames, perImage, tmpdir) == Collect(labeller, files[..n], basenames[..n], perImage, tmpdir)
  {
  }

  /** Entries collected from a prefix of the listing start the entries of the whole listing. */
  lemma {:induction false} CollectExtends(labeller: string -> Result<string, Labeller.Error>, files: seq<string>, basenames: seq<string>, perImage: nat, tmpdir: string, m: nat)
    requires |basenames| == |files| && m <= |files|
    ensures Collect(labeller, files[..m], basenames[..m], perImage, tmpdir).entries
            <= Collect(labeller, files, basenames, perImage, tmpdir).entries
    ensures Collect(labeller, files[..m], basenames[..m], perImage, tmpdir).failure.Some? ==>
              Collect(labeller, files, basenames, perImage, tmpdir) == Collect(labeller, files[..m], basenames[..m], perImage, tmpdir)
    decreases |files|
  {
    if m < |files| {
      var n := |files| - 1;
      assert files[..n][..m] == files[..m] && basenames[..n][..m] == basenames[..m];
      CollectExtends(labeller, files[..n], basenames[..n], perImage, tmpdir, m);
      CollectGrows(labeller, files, basenames, perImage, tmpdir);
    } else {
      assert files[..m] == files && basenames[..m] == basenames;
    }
  }

  /** The outcome of a run: the archives' contents, and the error that ended it early, if any. */
  datatype Run = Run(batches: seq<seq<Entry>>, failure: Option<Error>)

  /**
   * The batches a run yields from its entry stream.  With a batch size of
   * zero the first entry raises.  Otherwise the stream is cut into batches of
   * `|x_zip|` entries; an error loses the open batch, a finished run flushes it.
   */
  function Batches(c: Collected, xZip: int): (r: Run)
    ensures xZip == 0 ==> r.batches == [] && r.failure == (if |c.entries| > 0 then Some(ZeroBatchSize) else c.failure)
    ensures Seqs.Concat(r.batches) <= c.entries
    ensures r.failure.None? ==> Seqs.Concat(r.batches) == c.entries
    ensures xZip != 0 ==> |c.entries| - |Seqs.Concat(r.batches)| < Chunking.Abs(xZip)
    ensures xZip != 0 ==> forall i :: 0 <= i < |r.batches| ==> 0 < |r.batches[i]| <= Chunking.Abs(xZip)
    ensures xZip != 0 && r.failure.Some? ==> forall i :: 0 <= i < |r.batches| ==> |r.batches[i]| == Chunking.Abs(xZip)
  {
    if xZip == 0 then
      if |c.entries| > 0 then Run([], Some(ZeroBatchSize)) else Run([], c.failure)
    else
      var k := Chunking.Abs(xZip);
      if c.failure.Some? then
        Chunking.SealedAreFull(c.entries, k);
        Run(Chunking.Sealed(c.entries, k), c.failure)
      else Run(Chunking.Chunks(c.entries, k), None)
  }

  /** The entries of one more labelled file follow those of the files before it. */
  lemma CollectStep(labeller: string -> Result<string, Labeller.Error>, files: seq<string>, basenames: seq<string>, perImage: nat, tmpdir: string, f: nat)
    requires |basenames| == |files| && f < |files|
    requires Collect(labeller, files[..f], basenames[..f], perImage, tmpdir).failure.None?
    ensures labeller(files[f]).Failure? ==>
              Collect(labeller, files[..f + 1], basenames[..f + 1], perImage, tmpdir)
              == Collected(Collect(labeller, files[..f], basenames[..f], perImage, tmpdir).entries, Some(Unlabelled(files[f], labeller(files[f]).error)))
    ensures labeller(files[f]).Success? ==>
              Collect(labeller, files[..f + 1], basenames[..f + 1], perImage, tmpdir)
              == Collected(Collect(labeller, files[..f], basenames[..f], perImage, tmpdir).entries
                             + FileEntries(tmpdir, basenames[f], labeller(files[f]).value, Ext(files[f]), perImage), None)
  {
    assert files[..f + 1][..f] == files[..f] && basenames[..f + 1][..f] == basenames[..f];
  }

  /**
   * The inner loop of `Zipper.__iter__` over the variants of one file:
   * append each entry to the open batch and seal it whenever the running
   * count reaches a multiple of `x_zip`.
   */
  method FeedVariants(count: nat, accumulator: seq<Entry>, yielded: seq<seq<Entry>>,
                      tmpdir: string, basename: string, folder: string, ext: string, perImage: nat, xZip: int)
    returns (count': nat, accumulator': seq<Entry>, yielded': seq<seq<Entry>>)
    requires xZip != 0
    ensures Chunking.Batcher(count', accumulator', yielded')
            == Chunking.Feed(Chunking.Batcher(count, accumulator, yielded), FileEntries(tmpdir, basename, folder, ext, perImage), xZip)
  {
    var make := (i: nat) => VariantEntry(tmpdir, basename, folder, ext, i);
    assert Chunking.Made(make, perImage) == FileEntries(tmpdir, basename, folder, ext, perImage);
    count', accumulator', yielded' := Chunking.FeedEach(count, accumulator, yielded, make, perImage, xZip);
  }

  /**
   * What `Zipper.__iter__` keeps true after the first `f` files: all of them
   * labelled, and the batching state is that of feeding their entries (with
   * a batch size of zero, no entry has been produced yet).
   */
  ghost predicate Consumed(labeller: string -> Result<string, Labeller.Error>, files: seq<string>, basenames: seq<string>,
                           perImage: nat, tmpdir: string, xZip: int, f: nat, b: Chunking.Batcher<Entry>)
    requires |basenames| == |files| && f <= |files|
  {
    var c := Collect(labeller, files[..f], basenames[..f], perImage, tmpdir);
    && c.failure.None?
    && (xZip == 0 ==> c.entries == [] && b == Chunking.Start())
    && (xZip != 0 ==> b == Chunking.Feed(Chunking.Start(), c.entries, xZip))
  }

  /**
   * One pass of the outer loop of `Zipper.__iter__`: label the `f`-th file
   * and feed its variants, or stop the run when the labeller rejects the
   * file or the batch size is zero.
   */
  method VisitFile(labeller: string -> Result<string, Labeller.Error>, files: seq<string>, basenames: seq<string>,
                   perImage: nat, tmpdir: string, xZip: int, f: nat, count: nat, accumulator: seq<Entry>, yielded: seq<seq<Entry>>)
    returns (stop: Option<Run>, count': nat, accumulator': seq<Entry>, yielded': seq<seq<Entry>>)
    requires |basenames| == |files| && f < |files|
    requires Consumed(labeller, files, basenames, perImage, tmpdir, xZip, f, Chunking.Batcher(count, accumulator, yielded))
    ensures stop.Some? ==> stop.value == Batches(Collect(labeller, files, basenames, perImage, tmpdir), xZip)
    ensures stop.None? ==> Consumed(labeller, files, basenames, perImage, tmpdir, xZip, f + 1, Chunking.Batcher(count', accumulator', yielded'))
  {
    count', accumulator', yielded' := count, accumulator, yielded;
    var found := labeller(files[f]);
    if found.Failure? {
      StopsAtFailure(labeller, files, basenames, perImage, tmpdir, f, xZip, count, accumulator, yielded);
      return Some(Run(yielded, Some(Unlabelled(files[f], found.error)))), count', accumulator', yielded';
    }
    if xZip == 0 {
      if perImage > 0 {
        StopsAtZeroBatchSize(labeller, files, basenames, perImage, tmpdir, f);
        return Some(Run([], Some(ZeroBatchSize))), count', accumulator', yielded';
      }
      CollectStep(labeller, files, basenames, perImage, tmpdir, f);
    } else {
      var ext := Ext(files[f]);
      count', accumulator', yielded' := FeedVariants(count, accumulator, yielded, tmpdir, basenames[f], found.value, ext, perImage, xZip);
      FeedsNextFile(labeller, files, basenames, perImage, tmpdir, f, xZip,
                    Chunking.Batcher(count, accumulator, yielded), Chunking.Batcher(count', accumulator', yielded'));
    }
    stop := None;
  }

  /**
   * `Zipper.__iter__`: walks the files and, for each, its augmented
   * variants, keeping one running count over the whole run; an archive is
   * sealed each time the count reaches a multiple of `x_zip`, and a
   * non-empty remainder is flushed at the end.  It yields exactly the
   * reference batches of the entry stream.
   */
  method Iterate(labeller: string -> Result<string, Labeller.Error>, files: seq<string>, basenames: seq<string>,
                 perImage: nat, tmpdir: string, xZip: int) returns (run: Run)
    requires |basenames| == |files|
    ensures run == Batches(Collect(labeller, files, basenames, perImage, tmpdir), xZip)
  {
    var count: nat := 0;
    var accumulator: seq<Entry> := [];
    var yielded: seq<seq<Entry>> := [];
    var f := 0;
    while f < |files|
      invariant f <= |files|
      invariant Consumed(labeller, files, basenames, perImage, tmpdir, xZip, f, Chunking.Batcher(count, accumulator, yielded))
    {
      var stop;
      stop, count, accumulator, yielded := VisitFile(labeller, files, basenames, perImage, tmpdir, xZip, f, count, accumulator, yielded);
      if stop.Some? {
        return stop.value;
      }
      f := f + 1;
    }
    assert files[..f] == files && basenames[..f] == basenames;
    RunCompletes(Collect(labeller, files, basenames, perImage, tmpdir), xZip, count, accumulator, yielded);
    if |accumulator| > 0 {
      yielded := yielded + [accumulator];
    }
    run := Run(yielded, None);
  }

  /** The state after a rejected file: the archives sealed so far, and the rejection. */
  lemma StopsAtFailure(labeller: string -> Result<string, Labeller.Error>, files: seq<string>, basenames: seq<string>,
                       perImage: nat, tmpdir: string, f: nat, xZip: int,
                       count: nat, accumulator: seq<Entry>, yielded: seq<seq<Entry>>)
    requires |basenames| == |files| && f < |files|
    requires Collect(labeller, files[..f], basenames[..f], perImage, tmpdir).failure.None?
    requires labeller(files[f]).Failure?
    requires xZip == 0 ==> Collect(labeller, files[..f], basenames[..f], perImage, tmpdir).entries == [] && yielded == []
    requires xZip != 0 ==>
               Chunking.Batcher(count, accumulator, yielded)
               == Chunking.Feed(Chunking.Start(), Collect(labeller, files[..f], basenames[..f], perImage, tmpdir).entries, xZip)
    ensures Batches(Collect(labeller, files, basenames, perImage, tmpdir), xZip)
            == Run(yielded, Some(Unlabelled(files[f], labeller(files[f]).error)))
  {
    CollectStep(labeller, files, basenames, perImage, tmpdir, f);
    CollectExtends(labeller, files, basenames, perImage, tmpdir, f + 1);
    if xZip != 0 {
      Chunking.YieldedIsSealed(Collect(labeller, files[..f], basenames[..f], perImage, tmpdir).entries, xZip);
    }
  }

  /** With a batch size of zero, the first entry of a labelled file raises. */
  lemma StopsAtZeroBatchSize(labeller: string -> Result<string, Labeller.Error>, files: seq<string>, basenames: seq<string>,
                             perImage: nat, tmpdir: string, f: nat)
    requires |basenames| == |files| && f < |files| && perImage > 0
    requires Collect(labeller, files[..f], basenames[..f], perImage, tmpdir).failure.None?
    requires labeller(files[f]).Success?
    ensures Batches(Collect(labeller, files, basenames, perImage, tmpdir), 0) == Run([], Some(ZeroBatchSize))
  {
    CollectNextFile(labeller, files, basenames, perImage, tmpdir, f);
  }

  /** Feeding the variants of one more labelled file feeds the entries collected up to and including it. */
  lemma FeedsNextFile(labeller: string -> Result<string, Labeller.Error>, files: seq<string>, basenames: seq<string>,
                      perImage: nat, tmpdir: string, f: nat, xZip: int, before: Chunking.Batcher<Entry>, after: Chunking.Batcher<Entry>)
    requires |basenames| == |files| && f < |files| && xZip != 0
    requires Collect(labeller, files[..f], basenames[..f], perImage, tmpdir).failure.None?
    requires labeller(files[f]).Success?
    requires before == Chunking.Feed(Chunking.Start(), Collect(labeller, files[..f], basenames[..f], perImage, tmpdir).entries, xZip)
    requires after == Chunking.Feed(before, FileEntries(tmpdir, basenames[f], labeller(files[f]).value, Ext(files[f]), perImage), xZip)
    ensures Collect(labeller, files[..f + 1], basenames[..f + 1], perImage, tmpdir).failure.None?
    ensures after == Chunking.Feed(Chunking.Start(), Collect(labeller, files[..f + 1], basenames[..f + 1], perImage, tmpdir).entries, xZip)
  {
    CollectStep(labeller, files, basenames, perImage, tmpdir, f);
    Chunking.FeedAppend(Chunking.Start(), Collect(labeller, files[..f], basenames[..f], perImage, tmpdir).entries,
                        FileEntries(tmpdir, basenames[f], labeller(files[f]).value, Ext(files[f]), perImage), xZip);
  }

  /** A run that labels every file flushes the open batch and yields the reference batches. */
  lemma RunCompletes(c: Collected, xZip: int, count: nat, accumulator: seq<Entry>, yielded: seq<seq<Entry>>)
    requires c.failure.None?
    requires xZip == 0 ==> c.entries == [] && yielded == [] && accumulator == []
    requires xZip != 0 ==> Chunking.Batcher(count, accumulator, yielded) == Chunking.Feed(Chunking.Start(), c.entries, xZip)
    ensures Batches(c, xZip) == Run(Chunking.Flush(Chunking.Batcher(count, accumulator, yielded)), None)
  {
    if xZip != 0 {
      Chunking.BatchingIsChunking(c.entries, xZip);
    }
  }

  /**
   * The entry stream is ordered file by file and, within a file, variant by
   * variant: the `i`-th variant of a labelled file directly follows the
   * entries of all files before it (`f * perImage` of them, by
   * `CollectLabelledPrefix`).
   */
  lemma CollectEntryAt(labeller: string -> Result<string, Labeller.Error>, files: seq<string>, basenames: seq<string>,
                       perImage: nat, tmpdir: string, f: nat, i: nat)
    requires |basenames| == |files| && f < |files| && i < perImage
    requires forall k :: 0 <= k <= f ==> labeller(files[k]).Success?
    ensures var at := |Collect(labeller, files[..f], basenames[..f], perImage, tmpdir).entries| + i;
            && at < |Collect(labeller, files, basenames, perImage, tmpdir).entries|
            && Collect(labeller, files, basenames, perImage, tmpdir).entries[at]
               == VariantEntry(tmpdir, basenames[f], labeller(files[f]).value, Ext(files[f]), i)
  {
    CollectPrefixSucceeds(labeller, files, basenames, perImage, tmpdir, f);
    CollectNextFile(labeller, files, basenames, perImage, tmpdir, f);
    PrefixAt(Collect(labeller, files[..f], basenames[..f], perImage, tmpdir).entries,
             FileEntries(tmpdir, basenames[f], labeller(files[f]).value, Ext(files[f]), perImage),
             Collect(labeller, files, basenames, perImage, tmpdir).entries, i);
  }

  /** The entries of a labelled file follow those of the files before it in the whole stream. */
  lemma CollectNextFile(labeller: string -> Result<string, Labeller.Error>, files: seq<string>, basenames: seq<string>,
                        perImage: nat, tmpdir: string, f: nat)
    requires |basenames| == |files| && f < |files|
    requires Collect(labeller, files[..f], basenames[..f], perImage, tmpdir).failure.None?
    requires labeller(files[f]).Success?
    ensures Collect(labeller, files[..f], basenames[..f], perImage, tmpdir).entries
              + FileEntries(tmpdir, basenames[f], labeller(files[f]).value, Ext(files[f]), perImage)
            <= Collect(labeller, files, basenames, perImage, tmpdir).entries
  {
    CollectStep(labeller, files, basenames, perImage, tmpdir, f);
    CollectExtends(labeller, files, basenames, perImage, tmpdir, f + 1);
  }

  /** A prefix of labelled files collects without failure. */
  lemma CollectPrefixSucceeds(labeller: string -> Result<string, Labeller.Error>, files: seq<string>, basenames: seq<string>,
                              perImage: nat, tmpdir: string, f: nat)
    requires |basenames| == |files| && f <= |files|
    requires forall k :: 0 <= k < f ==> labeller(files[k]).Success?
    ensures Collect(labeller, files[..f], basenames[..f], perImage, tmpdir).failure.None?
  {
    CollectSucceeds(labeller, files[..f], basenames[..f], perImage, tmpdir);
    assert forall k :: 0 <= k < f ==> files[..f][k] == files[k];
  }

  /** A prefix of labelled files yields `perImage` entries per file and no failure. */
  lemma CollectLabelledPrefix(labeller: string -> Result<string, Labeller.Error>, files: seq<string>, basenames: seq<string>,
                              perImage: nat, tmpdir: string, f: nat)
    requires |basenames| == |files| && f <= |files|
    requires forall k :: 0 <= k < f ==> labeller(files[k]).Success?
    ensures Collect(labeller, files[..f], basenames[..f], perImage, tmpdir).failure.None?
    ensures |Collect(labeller, files[..f], basenames[..f], perImage, tmpdir).entries| == f * perImage
  {
    CollectPrefixSucceeds(labeller, files, basenames, perImage, tmpdir, f);
    CollectLength(labeller, files[..f], basenames[..f], perImage, tmpdir);
  }

  /** The `i`-th element of a piece that follows `front` in `whole`. */
  lemma PrefixAt<T>(front: seq<T>, piece: seq<T>, whole: seq<T>, i: nat)
    requires front + piece <= whole && i < |piece|
    ensures |front| + i < |whole| && whole[|front| + i] == piece[i]
  {
    assert (front + piece)[|front| + i] == piece[i];
  }

  /**
   * A run over labelled files yields `ceil(|files| * perImage / |x_zip|)`
   * archives, every one full except possibly the last.
   */
  lemma ArchiveCount(labeller: string -> Result<string, Labeller.Error>, files: seq<string>, basenames: seq<string>,
                     perImage: nat, tmpdir: string, xZip: int)
    requires |basenames| == |files| && xZip != 0
    requires forall k :: 0 <= k < |files| ==> labeller(files[k]).Success?
    ensures var r := Batches(Collect(labeller, files, basenames, perImage, tmpdir), xZip);
            && r.failure.None?
            && |r.batches| == (|files| * perImage + Chunking.Abs(xZip) - 1) / Chunking.Abs(xZip)
            && forall i :: 0 <= i < |r.batches| - 1 ==> |r.batches[i]| == Chunking.Abs(xZip)
  {
    var c := Collect(labeller, files, basenames, perImage, tmpdir);
    var k := Chunking.Abs(xZip);
    CollectSucceeds(labeller, files, basenames, perImage, tmpdir);
    CollectLength(labeller, files, basenames, perImage, tmpdir);
    assert Batches(c, xZip).batches == Chunking.Chunks(c.entries, k);
    Chunking.ChunkCount(c.entries, k);
  }

  /** `Zipper.__call__`: the `i`-th batch goes into the archive `f'{zipname}{i:02}.zip'`. */
  function Archives(zipname: string, batches: seq<seq<Entry>>): (r: seq<(string, seq<Entry>)>)
    ensures |r| == |batches|
    ensures forall i :: 0 <= i < |r| ==> r[i].1 == batches[i]
    ensures forall i, j :: 0 <= i < |r| && 0 <= j < |r| && i != j ==> r[i].0 != r[j].0
  {
    var r := seq(|batches|, i requires 0 <= i < |batches| => (ZipName(zipname, i), batches[i]));
    assert forall i, j :: 0 <= i < |r| && 0 <= j < |r| && r[i].0 == r[j].0 ==> i == j by {
      forall i, j | 0 <= i < |r| && 0 <= j < |r| && r[i].0 == r[j].0
        ensures i == j
      {
        ZipNamesDistinct(zipname, i, j);
      }
    }
    r
  }

  /** `label or labeller(filename)`: a given non-empty label wins, otherwise the labeller decides. */
  function PersisterLabel(given: Option<string>, labeller: string -> Result<string, Labeller.Error>, filename: string)
    : (r: Result<string, Labeller.Error>)
    ensures given.Some? && given.value != "" ==> r == Success(given.value)
    ensures given.None? || given.value == "" ==> r == labeller(filename)
  {
    if given.Some? && given.value != "" then Success(given.value) else labeller(filename)
  }

  /** `Persister._ext`: PNG for four channels, JPEG otherwise; either passes the folder filter. */
  function PersisterExt(channels: nat): (e: string)
    ensures e in Exts
    ensures e == Png <==> channels == 4
    ensures '.' !in e && '/' !in e
  {
    if channels == 4 then Png else Jpg
  }

  /** `f'{label}_{i:03}.{ext}'`: the name handed to the action for the `i`-th variant. */
  function PersistName(tag: string, i: nat, ext: string): (r: string)
    ensures Framed(r, tag + "_", i, 3, "." + ext)
  {
    FramedPad(tag + "_", i, 3, "." + ext);
    assert tag + "_" + ZeroPad(i, 3) + "." + ext == (tag + "_") + ZeroPad(i, 3) + ("." + ext);
    tag + "_" + ZeroPad(i, 3) + "." + ext
  }

  /** The variants of one image are handed to the action under distinct names. */
  lemma PersistNamesDistinct(tag: string, i: nat, j: nat, ext: string)
    ensures PersistName(tag, i, ext) == PersistName(tag, j, ext) <==> i == j
  {
    if PersistName(tag, i, ext) == PersistName(tag, j, ext) {
      assert PersistName(tag, i, ext) == (tag + "_") + ZeroPad(i, 3) + ("." + ext);
      assert PersistName(tag, j, ext) == (tag + "_") + ZeroPad(j, 3) + ("." + ext);
      PaddedIndexInjective(tag + "_", i, j, 3, "." + ext);
    }
  }

  /** Each name starts with the label and an underscore and carries the chosen extension. */
  lemma PersistNameShape(tag: string, i: nat, ext: string)
    requires '.' !in ext
    ensures PersistName(tag, i, ext)[..|tag| + 1] == tag + "_"
    ensures Ext(PersistName(tag, i, ext)) == Lower(ext)
  {
    ExtAfterDot(tag + "_" + ZeroPad(i, 3), ext);
  }

  /**
   * `Persister`: label the file (or take the given label), then hand every
   * augmented variant to the action under its own name, yielding the label
   * with what the action returns.  A rejected file fails before any variant.
   */
  function Persist<I, A>(given: Option<string>, labeller: string -> Result<string, Labeller.Error>, filename: string,
                         channels: nat, variants: seq<I>, action: (string, I) -> A): (r: Result<seq<(string, A)>, Labeller.Error>)
    ensures r.Failure? <==> (given.None? || given.value == "") && labeller(filename).Failure?
    ensures r.Success? ==> |r.value| == |variants|
    ensures r.Success? ==>
              forall i :: 0 <= i < |r.value| ==>
                && r.value[i].0 == PersisterLabel(given, labeller, filename).value
                && r.value[i].1 == action(PersistName(r.value[i].0, i, PersisterExt(channels)), variants[i])
  {
    match PersisterLabel(given, labeller, filename)
    case Failure(e) => Failure(e)
    case Success(tag) =>
      var ext := PersisterExt(channels);
      Success(seq(|variants|, i requires 0 <= i < |variants| => (tag, action(PersistName(tag, i, ext), variants[i]))))
  }

  /**
   * With the default action, which returns the name it is given, the
   * results of one image are pairwise distinct.
   */
  lemma PersistDefaultActionDistinct<I>(given: Option<string>, labeller: string -> Result<string, Labeller.Error>, filename: string,
                                        channels: nat, variants: seq<I>, i: nat, j: nat)
    requires Persist(given, labeller, filename, channels, variants, (name, data) => name).Success?
    requires i < |variants| && j < |variants| && i != j
    ensures Persist(given, labeller, filename, channels, variants, (name, data) => name).value[i]
            != Persist(given, labeller, filename, channels, variants, (name, data) => name).value[j]
  {
    var tag := PersisterLabel(given, labeller, filename).value;
    PersistNamesDistinct(tag, i, j, PersisterExt(channels));
  }
}
