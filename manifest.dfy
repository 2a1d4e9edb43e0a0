/**
 The manifest builder of the video page's image folder: every image file
 found under `img` becomes an entry {src, alt}, where alt is the file's path
 relative to `img` with backslashes turned into slashes and src is that path
 under BASE_URL; the entries are written newest-walked first.

 The directory walk is an input: one WalkDir per directory the walk visits,
 in walk order, holding the prefix that os.path.relpath(os.path.join(root,
 file), 'img') puts before a file name of that directory (empty for `img`
 itself, otherwise the directory's relative path and a separator) and the
 directory's file names in walk order.
 */
module Manifest {

  const BASE_URL: string := "https://redmonkey31.vercel.app/product/img"
  const VALID_EXTS: set<string> := {".jpg", ".jpeg", ".png", ".webp", ".gif"}

  datatype WalkDir = WalkDir(prefix: string, files: seq<string>)

  /** One record of images.json. */
  datatype Entry = Entry(src: string, alt: string)

  /** The position of the last `c` in s, or -1. */
  function LastIndexOf(s: string, c: char): (r: int)
    ensures -1 <= r < |s|
  {
    if s == [] then -1
    else if s[|s| - 1] == c then |s| - 1
    else LastIndexOf(s[..|s| - 1], c)
  }

  /** s holds a character other than a dot. */
  predicate HasNonDot(s: string)
  {
    exists i :: 0 <= i < |s| && s[i] != '.'
  }

  /** os.path.splitext(name)[1] for a name without separators: the suffix
      from the last dot, unless only dots precede that dot (".gif" and
      "..gif" have no extension). */
  function Extension(name: string): (ext: string)
    ensures |ext| <= |name|
  {
    var dot := LastIndexOf(name, '.');
    if dot > 0 && HasNonDot(name[..dot]) then name[dot..] else ""
  }

  /** Python's lower() on the ASCII letters; every other character is kept. */
  function LowerChar(c: char): char
  {
    if 'A' <= c <= 'Z' then (c as int + 32) as char else c
  }

  function Lower(s: string): (r: string)
    ensures |r| == |s|
  {
    if s == [] then [] else Lower(s[..|s| - 1]) + [LowerChar(s[|s| - 1])]
  }

  /** The filter of the walk loop: the lower-cased extension is a valid one. */
  predicate IsImageFile(name: string)
  {
    Lower(Extension(name)) in VALID_EXTS
  }

  /** rel_path.replace('\\', '/') */
  function Normalize(s: string): (r: string)
    ensures |r| == |s|
  {
    if s == [] then [] else Normalize(s[..|s| - 1]) + [if s[|s| - 1] == '\\' then '/' else s[|s| - 1]]
  }

  /** The entry appended for a matching file at relative path `relPath`. */
  function MakeEntry(relPath: string): Entry
  {
    var rel := Normalize(relPath);
    Entry(BASE_URL + "/" + rel, rel)
  }

  /** The image files among a directory's files, in walk order. */
  function ImageFiles(files: seq<string>): seq<string>
  {
    if files == [] then []
    else
      var file := files[|files| - 1];
      ImageFiles(files[..|files| - 1]) + if IsImageFile(file) then [file] else []
  }

  /** The entries for the files `names` of the directory with `prefix`, one
      per name, in order. */
  function EntriesFor(prefix: string, names: seq<string>): (r: seq<Entry>)
    ensures |r| == |names|
  {
    if names == [] then []
    else EntriesFor(prefix, names[..|names| - 1]) + [MakeEntry(prefix + names[|names| - 1])]
  }

  /** image_entries before the reversal: the entries of every directory's
      image files, in walk order. */
  function WalkEntries(walk: seq<WalkDir>): seq<Entry>
  {
    if walk == [] then []
    else
      var dir := walk[|walk| - 1];
      WalkEntries(walk[..|walk| - 1]) + EntriesFor(dir.prefix, ImageFiles(dir.files))
  }

  /** The relative paths of the names of the directory with `prefix`. */
  function DirPaths(prefix: string, names: seq<string>): (r: seq<string>)
    ensures |r| == |names|
  {
    if names == [] then [] else DirPaths(prefix, names[..|names| - 1]) + [prefix + names[|names| - 1]]
  }

  /** The relative paths of every image file of the walk, in walk order. */
  function ImagePaths(walk: seq<WalkDir>): seq<string>
  {
    if walk == [] then []
    else
      var dir := walk[|walk| - 1];
      ImagePaths(walk[..|walk| - 1]) + DirPaths(dir.prefix, ImageFiles(dir.files))
  }

  function Reversed<T>(s: seq<T>): (r: seq<T>)
    ensures |r| == |s|
  {
    if s == [] then [] else [s[|s| - 1]] + Reversed(s[..|s| - 1])
  }

  /** The script: walk every directory and file, append an entry per image
      file, then reverse the list. */
  method BuildManifest(walk: seq<WalkDir>) returns (imageEntries: seq<Entry>)
    ensures imageEntries == Reversed(WalkEntries(walk))
  {
    imageEntries := [];
    var d := 0;
    while d < |walk|
      invariant d <= |walk|
      invariant imageEntries == WalkEntries(walk[..d])
    {
      var dirEntries := DirectoryEntries(walk[d]);
      imageEntries := imageEntries + dirEntries;
      assert walk[..d + 1][..d] == walk[..d];
      d := d + 1;
    }
    assert walk[..d] == walk;
    imageEntries := Reversed(imageEntries);
  }

  /** The inner loop over one directory's files: the entries it appends,
      one per image file, in walk order. */
  method DirectoryEntries(dir: WalkDir) returns (dirEntries: seq<Entry>)
    ensures dirEntries == EntriesFor(dir.prefix, ImageFiles(dir.files))
  {
    dirEntries := [];
    var f := 0;
    while f < |dir.files|
      invariant f <= |dir.files|
      invariant dirEntries == EntriesFor(dir.prefix, ImageFiles(dir.files[..f]))
    {
      var file := dir.files[f];
      DirectoryStep(dir.prefix, dir.files, f);
      if IsImageFile(file) {
        dirEntries := dirEntries + [MakeEntry(dir.prefix + file)];
      }
      f := f + 1;
    }
    assert dir.files[..f] == dir.files;
  }

  /** One turn of the inner loop: walking file f appends its entry exactly
      when it is an image file. */
  lemma DirectoryStep(prefix: string, files: seq<string>, f: nat)
    requires f < |files|
    ensures EntriesFor(prefix, ImageFiles(files[..f + 1])) ==
      EntriesFor(prefix, ImageFiles(files[..f])) + if IsImageFile(files[f]) then [MakeEntry(prefix + files[f])] else []
  {
    assert files[..f + 1] == files[..f] + [files[f]];
    ImageFilesSnoc(files[..f], files[f]);
    if IsImageFile(files[f]) {
      EntriesForSnoc(prefix, ImageFiles(files[..f]), files[f]);
    } else {
      assert ImageFiles(files[..f + 1]) == ImageFiles(files[..f]);
    }
  }

  /** Walking one more file keeps it exactly when it is an image file. */
  lemma ImageFilesSnoc(files: seq<string>, file: string)
    ensures ImageFiles(files + [file]) == ImageFiles(files) + if IsImageFile(file) then [file] else []
  {
    assert (files + [file])[..|files|] == files;
  }

  lemma EntriesForSnoc(prefix: string, names: seq<string>, name: string)
    ensures EntriesFor(prefix, names + [name]) == EntriesFor(prefix, names) + [MakeEntry(prefix + name)]
  {
    assert (names + [name])[..|names|] == names;
  }

  /** r is the last position of c: s[r] is c, and no c follows it. */
  lemma {:induction false} LastIndexOfMeans(s: string, c: char)
    ensures var r := LastIndexOf(s, c);
      (r >= 0 ==> s[r] == c) && forall i :: r < i < |s| ==> s[i] != c
    decreases |s|
  {
    if s != [] && s[|s| - 1] != c {
      var t := s[..|s| - 1];
      LastIndexOfMeans(t, c);
      assert forall i :: 0 <= i < |t| ==> t[i] == s[i];
    }
  }

  /** What splitext promises: an extension exists exactly when a non-dot
      character precedes some dot; it is then a proper suffix of the name
      that starts with a dot and holds no other dot. */
  lemma ExtensionMeans(name: string)
    ensures var ext := Extension(name);
      (ext != "" <==> exists i, j :: 0 <= i < j < |name| && name[i] != '.' && name[j] == '.') &&
      (ext != "" ==> |ext| < |name| && name[|name| - |ext|..] == ext) &&
      (ext != "" ==> ext[0] == '.' && forall k :: 0 < k < |ext| ==> ext[k] != '.')
  {
    LastIndexOfMeans(name, '.');
    var dot := LastIndexOf(name, '.');
    if dot > 0 && HasNonDot(name[..dot]) {
      var i :| 0 <= i < dot && name[..dot][i] != '.';
      assert name[i] != '.' && name[dot] == '.';
      assert forall k :: 0 < k < |name[dot..]| ==> name[dot..][k] == name[dot + k];
    } else {
      forall i, j | 0 <= i < j < |name| && name[j] == '.'
        ensures name[i] == '.'
      {
        assert j <= dot && name[..dot][i] == name[i];
      }
    }
  }

  /** Lower-casing works character by character. */
  lemma {:induction false} LowerAt(s: string, i: nat)
    requires i < |s|
    ensures Lower(s)[i] == LowerChar(s[i])
    decreases |s|
  {
    if i < |s| - 1 {
      LowerAt(s[..|s| - 1], i);
    }
  }

  /** The replacement works character by character: a backslash becomes a
      slash and every other character is kept. */
  lemma {:induction false} NormalizeAt(s: string, i: nat)
    requires i < |s|
    ensures Normalize(s)[i] == if s[i] == '\\' then '/' else s[i]
    decreases |s|
  {
    if i < |s| - 1 {
      NormalizeAt(s[..|s| - 1], i);
    }
  }

  /** An entry points at its own path under BASE_URL, and that path is the
      relative path with every backslash turned into a slash. */
  lemma MakeEntryWellFormed(relPath: string)
    ensures var e := MakeEntry(relPath);
      e.src == BASE_URL + "/" + e.alt && |e.alt| == |relPath| &&
      (forall i :: 0 <= i < |relPath| ==> e.alt[i] == if relPath[i] == '\\' then '/' else relPath[i]) &&
      '\\' !in e.alt && '\\' !in e.src
  {
    var rel := Normalize(relPath);
    forall i | 0 <= i < |relPath|
      ensures rel[i] == if relPath[i] == '\\' then '/' else relPath[i]
    {
      NormalizeAt(relPath, i);
    }
    assert '\\' !in BASE_URL;
    assert '\\' !in rel;
  }

  /** Lower-casing moves no dot: a character is a dot exactly when its
      lower-cased form is. */
  lemma {:induction false} LastIndexOfLower(s: string)
    ensures LastIndexOf(Lower(s), '.') == LastIndexOf(s, '.')
    decreases |s|
  {
    if s != [] {
      assert Lower(s)[..|s| - 1] == Lower(s[..|s| - 1]);
      LastIndexOfLower(s[..|s| - 1]);
    }
  }

  /** The extension of the lower-cased name is the lower-cased extension. */
  lemma ExtensionOfLower(name: string)
    ensures Extension(Lower(name)) == Lower(Extension(name))
  {
    LastIndexOfLower(name);
    var dot := LastIndexOf(name, '.');
    var low := Lower(name);
    if dot > 0 {
      forall i | 0 <= i < dot
        ensures low[..dot][i] == LowerChar(name[..dot][i])
      {
        LowerAt(name, i);
      }
      assert HasNonDot(low[..dot]) <==> HasNonDot(name[..dot]);
      forall k | 0 <= k < |name| - dot
        ensures low[dot..][k] == Lower(name[dot..])[k]
      {
        LowerAt(name, dot + k);
        LowerAt(name[dot..], k);
      }
      assert low[dot..] == Lower(name[dot..]);
    }
  }

  /** The filter ignores case: two names that lower-case alike are either
      both image files or neither (so "A.JPG" and "a.Jpg" both qualify). */
  lemma CaseInsensitive(a: string, b: string)
    requires Lower(a) == Lower(b)
    ensures IsImageFile(a) <==> IsImageFile(b)
  {
    ExtensionOfLower(a);
    ExtensionOfLower(b);
  }

  /** A file name is kept exactly when it is one of the directory's files
      and an image file: non-image files contribute nothing. */
  lemma {:induction false} ImageFilesMembership(files: seq<string>, f: string)
    ensures f in ImageFiles(files) <==> f in files && IsImageFile(f)
    decreases |files|
  {
    if files != [] {
      var n := |files| - 1;
      assert files == files[..n] + [files[n]];
      ImageFilesMembership(files[..n], f);
    }
  }

  /** Record i of a directory's entries is the entry for its i-th kept file. */
  lemma {:induction false} EntriesForAt(prefix: string, names: seq<string>, i: nat)
    requires i < |names|
    ensures EntriesFor(prefix, names)[i] == MakeEntry(prefix + names[i])
    decreases |names|
  {
    if i < |names| - 1 {
      EntriesForAt(prefix, names[..|names| - 1], i);
    }
  }

  lemma {:induction false} DirPathsAt(prefix: string, names: seq<string>, i: nat)
    requires i < |names|
    ensures DirPaths(prefix, names)[i] == prefix + names[i]
    decreases |names|
  {
    if i < |names| - 1 {
      DirPathsAt(prefix, names[..|names| - 1], i);
    }
  }

  /** Record i of the walk's entries is the entry for the i-th image path:
      one record per image file, in walk order. */
  lemma {:induction false} WalkEntriesAt(walk: seq<WalkDir>, i: nat)
    ensures |WalkEntries(walk)| == |ImagePaths(walk)|
    ensures i < |ImagePaths(walk)| ==> WalkEntries(walk)[i] == MakeEntry(ImagePaths(walk)[i])
    decreases |walk|
  {
    if walk != [] {
      var init := walk[..|walk| - 1];
      var dir := walk[|walk| - 1];
      var kept := ImageFiles(dir.files);
      WalkEntriesAt(init, i);
      if |ImagePaths(init)| <= i < |ImagePaths(walk)| {
        var j := i - |ImagePaths(init)|;
        EntriesForAt(dir.prefix, kept, j);
        DirPathsAt(dir.prefix, kept, j);
      }
    }
  }

  /** The manifest is the reversed list of the entries for the image files'
      paths: as many records as image files, the last walked first. */
  lemma ManifestIsReversedPaths(walk: seq<WalkDir>)
    ensures |Reversed(WalkEntries(walk))| == |ImagePaths(walk)|
    ensures forall i :: 0 <= i < |ImagePaths(walk)| ==>
      Reversed(WalkEntries(walk))[i] == MakeEntry(ImagePaths(walk)[|ImagePaths(walk)| - 1 - i])
  {
    var entries, paths := WalkEntries(walk), ImagePaths(walk);
    WalkEntriesAt(walk, 0);
    forall i | 0 <= i < |paths|
      ensures entries[i] == MakeEntry(paths[i])
    {
      WalkEntriesAt(walk, i);
    }
    ReversedEntries(entries, paths);
  }

  /** Entries that follow a list of paths, reversed, follow the reversed paths. */
  lemma ReversedEntries(entries: seq<Entry>, paths: seq<string>)
    requires |entries| == |paths|
    requires forall i :: 0 <= i < |paths| ==> entries[i] == MakeEntry(paths[i])
    ensures |Reversed(entries)| == |paths|
    ensures forall i :: 0 <= i < |paths| ==> Reversed(entries)[i] == MakeEntry(paths[|paths| - 1 - i])
  {
    forall i | 0 <= i < |paths|
      ensures Reversed(entries)[i] == MakeEntry(paths[|paths| - 1 - i])
    {
      ReversedAt(entries, i);
    }
  }

  /** Every record of the manifest points at its own path under BASE_URL,
      and no path carries a backslash. */
  lemma {:induction false} WalkEntriesWellFormed(walk: seq<WalkDir>)
    ensures forall e :: e in WalkEntries(walk) ==> e.src == BASE_URL + "/" + e.alt && '\\' !in e.alt
    decreases |walk|
  {
    if walk != [] {
      WalkEntriesWellFormed(walk[..|walk| - 1]);
      var dir := walk[|walk| - 1];
      var entries := EntriesFor(dir.prefix, ImageFiles(dir.files));
      forall i | 0 <= i < |entries|
        ensures entries[i].src == BASE_URL + "/" + entries[i].alt && '\\' !in entries[i].alt
      {
        EntriesForAt(dir.prefix, ImageFiles(dir.files), i);
        MakeEntryWellFormed(dir.prefix + ImageFiles(dir.files)[i]);
      }
    }
  }

  /** Record i of the reversal is record |s| - 1 - i of s. */
  lemma {:induction false} ReversedAt<T>(s: seq<T>, i: nat)
    requires i < |s|
    ensures Reversed(s)[i] == s[|s| - 1 - i]
    decreases |s|
  {
    if i > 0 {
      ReversedAt(s[..|s| - 1], i - 1);
    }
  }

  /** Reversal keeps exactly the same records. */
  lemma ReversedMembership<T>(s: seq<T>, x: T)
    ensures x in Reversed(s) <==> x in s
  {
    if x in s {
      var i :| 0 <= i < |s| && s[i] == x;
      ReversedAt(s, |s| - 1 - i);
    }
    if x in Reversed(s) {
      var i :| 0 <= i < |s| && Reversed(s)[i] == x;
      ReversedAt(s, i);
    }
  }

  /** The manifest as written: the records are well formed, and they are
      those of the walk, last walked first. */
  lemma ManifestWellFormed(walk: seq<WalkDir>)
    ensures forall e :: e in Reversed(WalkEntries(walk)) ==> e.src == BASE_URL + "/" + e.alt && '\\' !in e.alt
  {
    WalkEntriesWellFormed(walk);
    forall e | e in Reversed(WalkEntries(walk))
      ensures e in WalkEntries(walk)
    {
      ReversedMembership(WalkEntries(walk), e);
    }
  }
}
