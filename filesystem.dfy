/** The directory tree that the walks list and stat, the path helpers they
    build names with, and the store of files that the checks read and write. */
module FileSystem {
  import opened Text
  import opened Findings

  /** One entry of a directory listing: a file, or a directory together with
      its own listing, in readdir order. */
  datatype Entry = File(name: string) | Dir(name: string, items: seq<Entry>)

  /** path.join(dir, item) for a directory and a plain entry name. */
  function JoinPath(dir: string, item: string): (r: string)
    ensures item == "" ==> r == dir
    ensures item != "" ==> EndsWith(r, item)
  {
    if item == "" then dir else if dir == "" then item else dir + "/" + item
  }

  /** p with the trailing "/" characters removed. */
  function StripSlashes(p: string): (r: string)
    ensures StartsWith(p, r)
    ensures |r| > 0 ==> r[|r| - 1] != '/'
  {
    if |p| > 0 && p[|p| - 1] == '/' then StripSlashes(p[..|p| - 1]) else p
  }

  /** The text after the last "/" of p. */
  function AfterLastSlash(p: string): (r: string)
    ensures '/' !in r
    ensures EndsWith(p, r)
    ensures |r| < |p| ==> p[|p| - |r| - 1] == '/'
  {
    if |p| == 0 || p[|p| - 1] == '/' then [] else AfterLastSlash(p[..|p| - 1]) + [p[|p| - 1]]
  }

  /** path.basename(p): the last name of p, trailing slashes ignored. */
  function Basename(p: string): string {
    AfterLastSlash(StripSlashes(p))
  }

  /** The base name of a joined path is the entry name it was joined from,
      whenever that name is a single path component. */
  lemma BasenameJoin(dir: string, item: string)
    requires item != "" && '/' !in item
    ensures Basename(JoinPath(dir, item)) == item
  {
    var p := JoinPath(dir, item);
    assert p[|p| - |item|..] == item;
    assert p[|p| - 1] == item[|item| - 1];
    assert StripSlashes(p) == p;
    AfterLastSlashOf(p, item);
  }

  /** The last component of a path that ends in a slash-free name. */
  lemma {:induction false} AfterLastSlashOf(p: string, item: string)
    requires '/' !in item && EndsWith(p, item)
    requires |p| > |item| ==> p[|p| - |item| - 1] == '/'
    ensures AfterLastSlash(p) == item
    decreases |item|
  {
    if |item| > 0 {
      var q := p[..|p| - 1];
      var it := item[..|item| - 1];
      assert p[|p| - 1] == item[|item| - 1];
      assert q[|q| - |it|..] == it;
      if |q| > |it| {
        assert q[|q| - |it| - 1] == p[|p| - |item| - 1];
      }
      AfterLastSlashOf(q, it);
      assert item == it + [item[|item| - 1]];
    } else if |p| > 0 {
      assert p[|p| - 1] == '/';
    }
  }

  /** The `folders` array the folder walk pushes onto. */
  class PathList {
    var paths: seq<string>

    constructor ()
      ensures paths == []
    {
      paths := [];
    }

    method Push(p: string)
      modifies this
      ensures paths == old(paths) + [p]
    {
      paths := paths + [p];
    }
  }

  /** The disk the checks read and write: the contents of every file by path,
      and the set of directory paths. */
  class Disk {
    var files: map<string, string>
    var dirs: set<string>

    constructor (files0: map<string, string>, dirs0: set<string>)
      ensures files == files0 && dirs == dirs0
    {
      files := files0;
      dirs := dirs0;
    }

    /** fs.pathExists(p) */
    predicate Exists(p: string)
      reads this
    {
      p in files || p in dirs
    }

    /** fs.readFile(p, "utf-8"): the contents, or None where the call throws
        (nothing at p, or a directory at p). */
    function ReadFile(p: string): (r: Option<string>)
      reads this
      ensures r.Some? <==> p in files
      ensures r.Some? ==> r.value == files[p]
    {
      if p in files then Some(files[p]) else None
    }

    /** fs.writeFile(p, content) on a path that is not a directory. */
    method WriteFile(p: string, content: string)
      requires p !in dirs
      modifies this
      ensures files == old(files)[p := content]
      ensures dirs == old(dirs)
    {
      files := files[p := content];
    }
  }
}
