/**
 * The per-file statistics the page loads, and the split of a record's path
 * into its folder and file name.
 */
module Records {

  /**
   * Translated, fuzzy and untranslated message counts. The data source
   * delivers non-negative integers; the page never checks that, and neither
   * does the type.
   */
  datatype Counts = Counts(translated: int, fuzzy: int, untranslated: int)
  {
    /** The counts the data source promises: none is negative. */
    predicate NonNegative() {
      translated >= 0 && fuzzy >= 0 && untranslated >= 0
    }

    /** The number of messages, the `total` column. */
    function Total(): int {
      translated + fuzzy + untranslated
    }

    function Plus(other: Counts): Counts {
      Counts(translated + other.translated, fuzzy + other.fuzzy, untranslated + other.untranslated)
    }
  }

  function Zero(): Counts { Counts(0, 0, 0) }

  lemma PlusAssoc(a: Counts, b: Counts, c: Counts)
    ensures a.Plus(b.Plus(c)) == a.Plus(b).Plus(c)
  {
  }

  lemma PlusSwap(a: Counts, b: Counts, c: Counts)
    ensures a.Plus(b).Plus(c) == a.Plus(c).Plus(b)
  {
  }

  /** One element of the loaded JSON array: `{file, stats}`. */
  datatype Record = Record(file: string, stats: Counts)

  /** What the aggregation keeps of a record inside its folder: `{file, stats}` with the bare file name. */
  datatype FileEntry = FileEntry(file: string, stats: Counts)

  /**
   * The first segment of `path.split('/')`: the text before the first `/`,
   * or the whole path when it has none.
   */
  function FolderKey(path: string): string {
    if path == [] || path[0] == '/' then []
    else [path[0]] + FolderKey(path[1..])
  }

  /**
   * The folder key is a prefix without `/`, ended by the end of the path or
   * by its first `/`.
   */
  lemma {:induction false} FolderKeyShape(path: string)
    ensures FolderKey(path) <= path
    ensures '/' !in FolderKey(path)
    ensures |FolderKey(path)| < |path| ==> path[|FolderKey(path)|] == '/'
  {
    if path != [] && path[0] != '/' {
      FolderKeyShape(path[1..]);
    }
  }

  /**
   * The second segment of `path.split('/')`: the text between the first and
   * the second `/`. A path without `/` has no second segment (`undefined` on
   * the page, shown as an empty cell); it is the empty string here.
   */
  function FileName(path: string): string {
    var k := FolderKey(path);
    if |k| < |path| then FolderKey(path[|k| + 1..]) else []
  }

  /** A file name holds no `/`. */
  lemma FileNameShape(path: string)
    ensures '/' !in FileName(path)
  {
    var k := FolderKey(path);
    if |k| < |path| {
      FolderKeyShape(path[|k| + 1..]);
    }
  }

  /** The folder key of a record, the grouping key of the aggregation. */
  function Key(r: Record): string {
    FolderKey(r.file)
  }

  function Entry(r: Record): FileEntry {
    FileEntry(FileName(r.file), r.stats)
  }

  /** Splitting `folder/file` gives back both parts when neither holds a `/`. */
  lemma {:induction false} SplitJoin(folder: string, file: string)
    requires '/' !in folder && '/' !in file
    ensures FolderKey(folder + "/" + file) == folder
    ensures FileName(folder + "/" + file) == file
  {
    FolderKeyOfJoin(folder, file);
    var path := folder + "/" + file;
    assert path[|folder| + 1..] == file;
    FolderKeyWhole(file);
  }

  /** A segment without `/` is its own folder key. */
  lemma {:induction false} FolderKeyWhole(s: string)
    requires '/' !in s
    ensures FolderKey(s) == s
  {
    if s != [] {
      FolderKeyWhole(s[1..]);
      assert s == [s[0]] + s[1..];
    }
  }

  lemma {:induction false} FolderKeyOfJoin(folder: string, rest: string)
    requires '/' !in folder
    ensures FolderKey(folder + "/" + rest) == folder
  {
    var path := folder + "/" + rest;
    if folder == [] {
      assert path[0] == '/';
    } else {
      assert path[0] == folder[0];
      assert path[1..] == folder[1..] + "/" + rest;
      FolderKeyOfJoin(folder[1..], rest);
      assert folder == [folder[0]] + folder[1..];
    }
  }

  /** A path holding a `/` has a folder key shorter than itself. */
  lemma KeyShorter(path: string)
    requires '/' in path
    ensures |FolderKey(path)| < |path|
  {
    var k := FolderKey(path);
    FolderKeyShape(path);
    assert |k| == |path| ==> k == path;
  }

  /** The folder key, the `/` after it and the rest make up the path. */
  lemma KeyThenRest(path: string)
    requires |FolderKey(path)| < |path|
    ensures path == FolderKey(path) + "/" + path[|FolderKey(path)| + 1..]
  {
    var k := FolderKey(path);
    FolderKeyShape(path);
    assert k == path[..|k|];
    assert path == path[..|k|] + [path[|k|]] + path[|k| + 1..];
  }

  /** A path with exactly one `/` is its folder key, `/`, and its file name. */
  lemma JoinSplit(path: string)
    requires '/' in path
    requires forall i :: |FolderKey(path)| < i < |path| ==> path[i] != '/'
    ensures FolderKey(path) + "/" + FileName(path) == path
  {
    KeyShorter(path);
    KeyThenRest(path);
    var rest := path[|FolderKey(path)| + 1..];
    assert '/' !in rest by {
      forall j | 0 <= j < |rest| ensures rest[j] != '/' {
        assert rest[j] == path[|FolderKey(path)| + 1 + j];
      }
    }
    FolderKeyWhole(rest);
  }
}
