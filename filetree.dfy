/**
 * The directory trees the packaging scripts read and the archives they
 * write.  A directory is a list of named nodes; an archive is the list of
 * (source path, entry name) pairs written into it, in order.  The walk
 * follows `os.walk` top-down: the files of a directory in listing order,
 * then each kept subdirectory in listing order, pruned before descent.
 */
module FileTree {
  import opened Wrappers
  import opened Text

  /** The shape of a parsed JSON document, as far as Python's `in` and
      subscript care: an object's keys, an array's items, a string, or a
      number / boolean / null. */
  datatype Json = JObject(keys: set<string>) | JArray(items: seq<Json>) | JString(text: string) | JScalar

  /** The `fragment.json` descriptor the fragment packager writes. */
  datatype Descriptor = Descriptor(
    fragmentEntryKey: string, name: string, fragmentType: string,
    htmlPath: string, cssPath: string, jsPath: string,
    configurationPath: string, thumbnailPath: string, icon: string)

  /** What a file holds: well-formed JSON, other text (HTML, CSS, scripts,
      YAML, malformed JSON), a fragment descriptor, or the placeholder
      thumbnail image. */
  datatype Content = JsonText(json: Json) | PlainText(tag: string) | DescriptorFile(descriptor: Descriptor)
                   | PlaceholderPng

  datatype Node = File(name: string, content: Content) | Dir(name: string, children: seq<Node>)

  /** The first child called `name`: `os.path.join(dir, name)` exists. */
  function Lookup(cs: seq<Node>, name: string): (r: Option<Node>)
    ensures r.Some? <==> exists i :: 0 <= i < |cs| && cs[i].name == name
    ensures r.Some? ==> r.value in cs && r.value.name == name
  {
    if cs == [] then None
    else if cs[0].name == name then Some(cs[0])
    else Lookup(cs[1..], name)
  }

  /** The listing of a node: a plain file has no children, so every
      `os.path.exists(join(file, name))` below it is false. */
  function Listing(n: Node): seq<Node>
  {
    if n.Dir? then n.children else []
  }

  /** The node at a relative path, if any. */
  function LookupPath(cs: seq<Node>, path: seq<string>): Option<Node>
    decreases |path|
  {
    if path == [] then None
    else match Lookup(cs, path[0])
      case None => None
      case Some(n) => if |path| == 1 then Some(n) else LookupPath(Listing(n), path[1..])
  }

  /** `cs` without its children called `name`. */
  function Remove(cs: seq<Node>, name: string): (r: seq<Node>)
    ensures |r| <= |cs|
    ensures forall n :: n in r <==> n in cs && n.name != name
  {
    if cs == [] then []
    else (if cs[0].name == name then [] else [cs[0]]) + Remove(cs[1..], name)
  }

  /** Removing one name leaves every other lookup as it was. */
  lemma {:induction false} LookupRemoveOther(cs: seq<Node>, gone: string, name: string)
    requires gone != name
    ensures Lookup(Remove(cs, gone), name) == Lookup(cs, name)
  {
    if cs != [] {
      LookupRemoveOther(cs[1..], gone, name);
      var head := if cs[0].name == gone then [] else [cs[0]];
      var r := head + Remove(cs[1..], gone);
      if head == [] {
        assert r == Remove(cs[1..], gone);
      } else {
        assert r[0] == cs[0] && r[1..] == Remove(cs[1..], gone);
      }
    }
  }

  /** After removal nothing called `name` is left. */
  lemma LookupRemoved(cs: seq<Node>, name: string)
    ensures Lookup(Remove(cs, name), name) == None
  {
  }

  /** Writing `n` into a directory: every child of that name is replaced
      in place, or `n` is added at the end when there is none. */
  function Put(cs: seq<Node>, n: Node): (r: seq<Node>)
    ensures Lookup(r, n.name) == Some(n)
    ensures forall name :: name != n.name ==> Lookup(r, name) == Lookup(cs, name)
    ensures forall i :: 0 <= i < |r| && r[i].name == n.name ==> r[i] == n
  {
    if Lookup(cs, n.name).Some? then
      LookupReplace(cs, n);
      Replace(cs, n)
    else
      LookupAppend(cs, n);
      cs + [n]
  }

  function Replace(cs: seq<Node>, n: Node): (r: seq<Node>)
    ensures |r| == |cs|
    ensures forall i :: 0 <= i < |cs| ==> r[i] == if cs[i].name == n.name then n else cs[i]
  {
    seq(|cs|, i requires 0 <= i < |cs| => if cs[i].name == n.name then n else cs[i])
  }

  lemma {:induction false} LookupReplace(cs: seq<Node>, n: Node)
    ensures forall name :: name != n.name ==> Lookup(Replace(cs, n), name) == Lookup(cs, name)
    ensures Lookup(cs, n.name).Some? ==> Lookup(Replace(cs, n), n.name) == Some(n)
  {
    if cs != [] {
      assert Replace(cs, n)[1..] == Replace(cs[1..], n);
      LookupReplace(cs[1..], n);
    }
  }

  lemma {:induction false} LookupAppend(cs: seq<Node>, n: Node)
    requires Lookup(cs, n.name).None?
    ensures Lookup(cs + [n], n.name) == Some(n)
    ensures forall name :: name != n.name ==> Lookup(cs + [n], name) == Lookup(cs, name)
  {
    if cs != [] {
      assert (cs + [n])[1..] == cs[1..] + [n];
      LookupAppend(cs[1..], n);
    } else {
      assert cs + [n] == [n];
    }
  }

  /** Two writes of the same name leave what the second one wrote. */
  lemma PutTwice(cs: seq<Node>, x: Node, y: Node)
    requires x.name == y.name
    ensures Put(Put(cs, x), y) == Put(cs, y)
  {
    if Lookup(cs, x.name).None? {
      assert Put(Put(cs, x), y) == Replace(cs + [x], y);
      assert Replace(cs + [x], y) == cs + [y];
    }
  }

  /** Replacing children by what they already are changes nothing. */
  lemma PutSettled(cs: seq<Node>, n: Node)
    requires Lookup(cs, n.name).Some?
    requires forall i :: 0 <= i < |cs| && cs[i].name == n.name ==> cs[i] == n
    ensures Put(cs, n) == cs
  {
  }

  /** `os.rename(dir/source, dir/target)` when `dir/source` exists: the
      node moves to the target name, replacing whatever was there. */
  function Rename(cs: seq<Node>, source: string, target: string): seq<Node>
  {
    match Lookup(cs, source)
    case None => cs
    case Some(n) => Put(Remove(cs, source), n.(name := target))
  }

  /** After a rename the source name is gone, the target name exists iff
      either name existed, and every other name is untouched. */
  lemma RenameEffect(cs: seq<Node>, source: string, target: string)
    requires source != target
    ensures Lookup(cs, source).None? ==> Rename(cs, source, target) == cs
    ensures Lookup(Rename(cs, source, target), source).None? || Lookup(cs, source).None?
    ensures Lookup(Rename(cs, source, target), target).Some? <==> Lookup(cs, source).Some? || Lookup(cs, target).Some?
    ensures forall name :: name != source && name != target ==> Lookup(Rename(cs, source, target), name) == Lookup(cs, name)
  {
    LookupRemoved(cs, source);
    LookupRemoveOther(cs, source, target);
    forall name | name != source && name != target
      ensures Lookup(Rename(cs, source, target), name) == Lookup(cs, name)
    {
      LookupRemoveOther(cs, source, name);
    }
  }

  /** Sibling names are distinct and never contain `/`, at every level. */
  ghost predicate WellFormed(cs: seq<Node>)
  {
    (forall i, j :: 0 <= i < j < |cs| ==> cs[i].name != cs[j].name)
    && (forall i :: 0 <= i < |cs| ==> '/' !in cs[i].name)
    && (forall i :: 0 <= i < |cs| ==> cs[i].Dir? ==> WellFormed(cs[i].children))
  }

  // ---------------------------------------------------------------- exclusion

  /** `any(pattern in name for pattern in patterns)`: plain substring
      containment, no globbing. */
  predicate Excluded(name: string, patterns: seq<string>)
  {
    exists k :: 0 <= k < |patterns| && Contains(name, patterns[k])
  }

  /** The list both builders use by default (build_sigma_zips.py). */
  const DefaultPatterns: seq<string> := [".DS_Store", "__pycache__", "*.pyc", ".git"]

  /** For names without a `*` the default list excludes exactly the names
      holding `.DS_Store`, `__pycache__` or `.git`: the `*.pyc` entry is
      inert because it is matched literally. */
  lemma DefaultExclusionWithoutStar(name: string)
    requires '*' !in name
    ensures Excluded(name, DefaultPatterns)
        <==> Contains(name, ".DS_Store") || Contains(name, "__pycache__") || Contains(name, ".git")
  {
    assert "*.pyc"[0] == '*';
    CharAbsentNotContained(name, "*.pyc", 0);
    if Contains(name, ".DS_Store") { assert Contains(name, DefaultPatterns[0]); }
    if Contains(name, "__pycache__") { assert Contains(name, DefaultPatterns[1]); }
    if Contains(name, ".git") { assert Contains(name, DefaultPatterns[3]); }
  }

  /** Every name that starts with `.git` is excluded by default, so
      `.gitignore` and `.github` are both left out. */
  lemma GitPrefixExcluded(name: string)
    requires StartsWith(name, ".git")
    ensures Excluded(name, DefaultPatterns)
  {
    assert Contains(name, DefaultPatterns[3]);
  }

  /** A compiled Python file such as `x.pyc` is kept. */
  lemma PycFileKept()
    ensures !Excluded("x.pyc", DefaultPatterns)
  {
    DefaultExclusionWithoutStar("x.pyc");
    NotContainedLonger("x.pyc", ".DS_Store");
    NotContainedLonger("x.pyc", "__pycache__");
    assert "x.pyc"[2] == 'p';
    CharAbsentNotContained("x.pyc", ".git", 1);
  }

  lemma NotContainedLonger(s: string, p: string)
    requires |s| < |p|
    ensures !Contains(s, p)
    decreases |s|
  {
    if s != [] {
      NotContainedLonger(s[1..], p);
    }
  }

  /** With no patterns nothing is excluded. */
  lemma NothingExcludedByEmptyList(name: string)
    ensures !Excluded(name, [])
  {
  }

  // ---------------------------------------------------------------- the walk

  /** Paths (relative to the walked root, one segment per level) of the kept
      files of `cs` under `prefix`, in listing order. */
  function FilesOf(prefix: seq<string>, cs: seq<Node>, patterns: seq<string>): seq<seq<string>>
  {
    if cs == [] then []
    else (if cs[0].File? && !Excluded(cs[0].name, patterns) then [prefix + [cs[0].name]] else [])
         + FilesOf(prefix, cs[1..], patterns)
  }

  /** The kept files of `cs` under `prefix`, in `os.walk` top-down order. */
  function Walk(prefix: seq<string>, cs: seq<Node>, patterns: seq<string>): seq<seq<string>>
    decreases cs, 1
  {
    FilesOf(prefix, cs, patterns) + DirsOf(prefix, cs, patterns)
  }

  /** The walks of the kept subdirectories of `cs`, one after the other. */
  function DirsOf(prefix: seq<string>, cs: seq<Node>, patterns: seq<string>): seq<seq<string>>
    decreases cs, 0
  {
    if cs == [] then []
    else (if cs[0].Dir? && !Excluded(cs[0].name, patterns)
          then Walk(prefix + [cs[0].name], cs[0].children, patterns) else [])
         + DirsOf(prefix, cs[1..], patterns)
  }

  /** The tree has a file at `path`, whatever the patterns say. */
  ghost predicate FileAt(cs: seq<Node>, path: seq<string>)
    decreases |path|, 1
  {
    |path| >= 1 && exists i :: 0 <= i < |cs| && NodeHas(cs[i], path)
  }

  ghost predicate NodeHas(n: Node, path: seq<string>)
    requires |path| >= 1
    decreases |path|, 0
  {
    n.name == path[0]
    && if |path| == 1 then n.File? else n.Dir? && FileAt(n.children, path[1..])
  }

  /** No segment of `path` is excluded. */
  predicate NoneExcluded(path: seq<string>, patterns: seq<string>)
  {
    forall k :: 0 <= k < |path| ==> !Excluded(path[k], patterns)
  }

  lemma FileAtFirst(cs: seq<Node>, path: seq<string>)
    requires cs != []
    ensures FileAt(cs, path) <==> (|path| >= 1 && NodeHas(cs[0], path)) || FileAt(cs[1..], path)
  {
    if FileAt(cs, path) && !NodeHas(cs[0], path) {
      var i :| 0 <= i < |cs| && NodeHas(cs[i], path);
      assert cs[1..][i - 1] == cs[i];
    }
    if FileAt(cs[1..], path) {
      var i :| 0 <= i < |cs[1..]| && NodeHas(cs[1..][i], path);
      assert cs[i + 1] == cs[1..][i];
    }
  }

  /** The part of a directory's walk contributed by one child. */
  function ChildWalk(prefix: seq<string>, c: Node, patterns: seq<string>): seq<seq<string>>
  {
    if Excluded(c.name, patterns) then []
    else if c.File? then [prefix + [c.name]]
    else Walk(prefix + [c.name], c.children, patterns)
  }

  lemma WalkFirstChild(prefix: seq<string>, cs: seq<Node>, patterns: seq<string>, path: seq<string>)
    requires cs != []
    ensures path in Walk(prefix, cs, patterns)
        <==> path in ChildWalk(prefix, cs[0], patterns) || path in Walk(prefix, cs[1..], patterns)
  {
    var c := cs[0];
    var f := if c.File? && !Excluded(c.name, patterns) then [prefix + [c.name]] else [];
    var d := if c.Dir? && !Excluded(c.name, patterns) then Walk(prefix + [c.name], c.children, patterns) else [];
    assert Walk(prefix, cs, patterns) == (f + FilesOf(prefix, cs[1..], patterns)) + (d + DirsOf(prefix, cs[1..], patterns));
    assert ChildWalk(prefix, c, patterns) == f + d;
  }

  lemma NoneExcludedFirst(q: seq<string>, patterns: seq<string>)
    requires |q| >= 1
    ensures NoneExcluded(q, patterns) <==> !Excluded(q[0], patterns) && NoneExcluded(q[1..], patterns)
  {
    if !Excluded(q[0], patterns) && NoneExcluded(q[1..], patterns) {
      forall k | 0 < k < |q| ensures !Excluded(q[k], patterns) {
        assert q[k] == q[1..][k - 1];
      }
    }
  }

  lemma PrefixExtend(path: seq<string>, prefix: seq<string>, n: string)
    requires |prefix| < |path|
    ensures path[..|prefix| + 1] == prefix + [n] <==> path[..|prefix|] == prefix && path[|prefix|] == n
  {
    assert path[..|prefix| + 1] == path[..|prefix|] + [path[|prefix|]];
  }

  /** One child contributes exactly the files at or below it whose path
      avoids the patterns. */
  lemma {:induction false} ChildMembers(prefix: seq<string>, cs: seq<Node>, patterns: seq<string>, path: seq<string>)
    requires cs != []
    ensures path in ChildWalk(prefix, cs[0], patterns)
        <==> |prefix| < |path| && path[..|prefix|] == prefix
             && NodeHas(cs[0], path[|prefix|..]) && NoneExcluded(path[|prefix|..], patterns)
    decreases cs, 0
  {
    var c := cs[0];
    if c.Dir? {
      WalkMembers(prefix + [c.name], c.children, patterns, path);
    }
    if |prefix| < |path| {
      var q := path[|prefix|..];
      NoneExcludedFirst(q, patterns);
      PrefixExtend(path, prefix, c.name);
      assert q[0] == path[|prefix|];
      if c.File? {
        if path == prefix + [c.name] {
          assert q == [c.name];
        }
        if path[..|prefix|] == prefix && |q| == 1 && q[0] == c.name {
          assert path == path[..|prefix|] + q;
          assert q == [c.name];
        }
      } else {
        assert q[1..] == path[|prefix| + 1..];
      }
    }
  }

  /** The walk lists exactly the files of the tree none of whose path
      segments is excluded: everything beneath a pruned directory is left
      out, and every other file is listed. */
  lemma {:induction false} WalkMembers(prefix: seq<string>, cs: seq<Node>, patterns: seq<string>, path: seq<string>)
    ensures path in Walk(prefix, cs, patterns)
        <==> |prefix| < |path| && path[..|prefix|] == prefix
             && FileAt(cs, path[|prefix|..]) && NoneExcluded(path[|prefix|..], patterns)
    decreases cs, 1
  {
    if cs != [] {
      WalkFirstChild(prefix, cs, patterns, path);
      ChildMembers(prefix, cs, patterns, path);
      WalkMembers(prefix, cs[1..], patterns, path);
      if |prefix| < |path| {
        FileAtFirst(cs, path[|prefix|..]);
      }
    }
  }

  /** Pruning is transitive: a file below an excluded directory, at any
      depth, never becomes an entry. */
  lemma PrunedNeverListed(cs: seq<Node>, patterns: seq<string>, path: seq<string>, k: nat)
    requires k < |path| && Excluded(path[k], patterns)
    ensures path !in Walk([], cs, patterns)
  {
    WalkMembers([], cs, patterns, path);
    assert path[0..] == path;
  }

  /** Every file whose path avoids the patterns is listed. */
  lemma KeptFileListed(cs: seq<Node>, patterns: seq<string>, path: seq<string>)
    requires FileAt(cs, path) && NoneExcluded(path, patterns)
    ensures path in Walk([], cs, patterns)
  {
    WalkMembers([], cs, patterns, path);
    assert path[0..] == path;
  }

  // ---------------------------------------------------------------- distinctness

  predicate Distinct<T(==)>(s: seq<T>)
  {
    forall i, j :: 0 <= i < j < |s| ==> s[i] != s[j]
  }

  lemma DistinctConcat<T>(a: seq<T>, b: seq<T>)
    requires Distinct(a) && Distinct(b)
    requires forall x :: x in a ==> x !in b
    ensures Distinct(a + b)
  {
    forall i, j | 0 <= i < j < |a + b| ensures (a + b)[i] != (a + b)[j] {
      if j >= |a| && i < |a| {
        assert (a + b)[i] in a && (a + b)[j] == b[j - |a|];
      } else if i >= |a| {
        assert (a + b)[i] == b[i - |a|] && (a + b)[j] == b[j - |a|];
      }
    }
  }

  lemma {:induction false} FilesShape(prefix: seq<string>, cs: seq<Node>, patterns: seq<string>, p: seq<string>)
    requires p in FilesOf(prefix, cs, patterns)
    ensures |p| == |prefix| + 1 && p[..|prefix|] == prefix
    ensures exists j :: 0 <= j < |cs| && cs[j].File? && p[|prefix|] == cs[j].name
  {
    if p !in FilesOf(prefix, cs[1..], patterns) {
      assert p == prefix + [cs[0].name];
    } else {
      FilesShape(prefix, cs[1..], patterns, p);
      var j :| 0 <= j < |cs[1..]| && cs[1..][j].File? && p[|prefix|] == cs[1..][j].name;
      assert cs[j + 1] == cs[1..][j];
    }
  }

  lemma {:induction false} DirsShape(prefix: seq<string>, cs: seq<Node>, patterns: seq<string>, p: seq<string>)
    requires p in DirsOf(prefix, cs, patterns)
    ensures |p| >= |prefix| + 2 && p[..|prefix|] == prefix
    ensures exists j :: 0 <= j < |cs| && cs[j].Dir? && p[|prefix|] == cs[j].name
  {
    var c := cs[0];
    if c.Dir? && !Excluded(c.name, patterns) && p in Walk(prefix + [c.name], c.children, patterns) {
      WalkMembers(prefix + [c.name], c.children, patterns, p);
      assert p[..|prefix| + 1][|prefix|] == c.name;
      assert p[..|prefix| + 1][..|prefix|] == p[..|prefix|];
    } else {
      DirsShape(prefix, cs[1..], patterns, p);
      var j :| 0 <= j < |cs[1..]| && cs[1..][j].Dir? && p[|prefix|] == cs[1..][j].name;
      assert cs[j + 1] == cs[1..][j];
    }
  }

  lemma {:induction false} FilesDistinct(prefix: seq<string>, cs: seq<Node>, patterns: seq<string>)
    requires forall i, j :: 0 <= i < j < |cs| ==> cs[i].name != cs[j].name
    ensures Distinct(FilesOf(prefix, cs, patterns))
  {
    if cs != [] {
      var rest := FilesOf(prefix, cs[1..], patterns);
      FilesDistinct(prefix, cs[1..], patterns);
      if cs[0].File? && !Excluded(cs[0].name, patterns) {
        forall x | x in [prefix + [cs[0].name]] ensures x !in rest {
          if x in rest {
            FilesShape(prefix, cs[1..], patterns, x);
          }
        }
        DistinctConcat([prefix + [cs[0].name]], rest);
      } else {
        assert FilesOf(prefix, cs, patterns) == rest;
      }
    }
  }

  /** In a well-formed tree the walk lists each file once. */
  lemma {:induction false} WalkDistinct(prefix: seq<string>, cs: seq<Node>, patterns: seq<string>)
    requires WellFormed(cs)
    ensures Distinct(Walk(prefix, cs, patterns))
    decreases cs, 1
  {
    FilesDistinct(prefix, cs, patterns);
    DirsDistinct(prefix, cs, patterns);
    forall x | x in FilesOf(prefix, cs, patterns) ensures x !in DirsOf(prefix, cs, patterns) {
      FilesShape(prefix, cs, patterns, x);
      if x in DirsOf(prefix, cs, patterns) {
        DirsShape(prefix, cs, patterns, x);
      }
    }
    DistinctConcat(FilesOf(prefix, cs, patterns), DirsOf(prefix, cs, patterns));
  }

  lemma {:induction false} DirsDistinct(prefix: seq<string>, cs: seq<Node>, patterns: seq<string>)
    requires WellFormed(cs)
    ensures Distinct(DirsOf(prefix, cs, patterns))
    decreases cs, 0
  {
    if cs != [] {
      var c := cs[0];
      assert WellFormed(cs[1..]) by {
        forall i | 0 <= i < |cs[1..]| ensures cs[1..][i] == cs[i + 1] { }
      }
      DirsDistinct(prefix, cs[1..], patterns);
      var rest := DirsOf(prefix, cs[1..], patterns);
      if c.Dir? && !Excluded(c.name, patterns) {
        var d := Walk(prefix + [c.name], c.children, patterns);
        WalkDistinct(prefix + [c.name], c.children, patterns);
        forall x | x in d ensures x !in rest {
          WalkMembers(prefix + [c.name], c.children, patterns, x);
          assert x[..|prefix| + 1][|prefix|] == c.name;
          if x in rest {
            DirsShape(prefix, cs[1..], patterns, x);
          }
        }
        DistinctConcat(d, rest);
      } else {
        assert DirsOf(prefix, cs, patterns) == rest;
      }
    }
  }

  /** A file path of a well-formed tree has no segment holding `/`. */
  lemma {:induction false} FileAtSegments(cs: seq<Node>, path: seq<string>)
    requires WellFormed(cs) && FileAt(cs, path)
    ensures forall k :: 0 <= k < |path| ==> '/' !in path[k]
    decreases |path|
  {
    var i :| 0 <= i < |cs| && NodeHas(cs[i], path);
    if |path| > 1 {
      FileAtSegments(cs[i].children, path[1..]);
      forall k | 0 < k < |path| ensures '/' !in path[k] {
        assert path[k] == path[1..][k - 1];
      }
    }
  }

  // ---------------------------------------------------------------- archives

  /** How an entry is named: by its path relative to the walked root, or
      that path under a fixed root directory (`root + "/" + relative`). */
  datatype Naming = Relative | Rooted(root: string)

  /** `os.path.relpath`, optionally prefixed: segments joined with `/`. */
  function EntryName(naming: Naming, path: seq<string>): string
  {
    match naming
    case Relative => Join(path, '/')
    case Rooted(root) => root + "/" + Join(path, '/')
  }

  /** What `zipf.write(source, name)` records. */
  datatype Entry = Entry(source: seq<string>, name: string)

  /** The entries written for `paths`, in order. */
  function EntriesOf(paths: seq<seq<string>>, naming: Naming): (r: seq<Entry>)
    ensures |r| == |paths|
    ensures forall k :: 0 <= k < |paths| ==> r[k] == Entry(paths[k], EntryName(naming, paths[k]))
  {
    seq(|paths|, k requires 0 <= k < |paths| => Entry(paths[k], EntryName(naming, paths[k])))
  }

  function Names(entries: seq<Entry>): (r: seq<string>)
    ensures |r| == |entries|
    ensures forall k :: 0 <= k < |entries| ==> r[k] == entries[k].name
  {
    seq(|entries|, k requires 0 <= k < |entries| => entries[k].name)
  }

  lemma EntryNameInjective(naming: Naming, p: seq<string>, q: seq<string>)
    requires |p| >= 1 && |q| >= 1
    requires forall k :: 0 <= k < |p| ==> '/' !in p[k]
    requires forall k :: 0 <= k < |q| ==> '/' !in q[k]
    requires EntryName(naming, p) == EntryName(naming, q)
    ensures p == q
  {
    if naming.Rooted? {
      var pre := naming.root + "/";
      assert pre + Join(p, '/') == pre + Join(q, '/');
      assert Join(p, '/') == (pre + Join(p, '/'))[|pre|..];
      assert Join(q, '/') == (pre + Join(q, '/'))[|pre|..];
    }
    JoinInjective(p, q, '/');
  }

  /** Non-empty paths of `/`-free segments. */
  predicate PlainPath(p: seq<string>)
  {
    |p| >= 1 && forall k :: 0 <= k < |p| ==> '/' !in p[k]
  }

  /** Distinct plain paths get distinct entry names. */
  lemma NamesDistinct(paths: seq<seq<string>>, naming: Naming)
    requires Distinct(paths)
    requires forall k :: 0 <= k < |paths| ==> PlainPath(paths[k])
    ensures Distinct(Names(EntriesOf(paths, naming)))
  {
    var n := Names(EntriesOf(paths, naming));
    forall i, j | 0 <= i < j < |n| ensures n[i] != n[j] {
      if n[i] == n[j] {
        EntryNameInjective(naming, paths[i], paths[j]);
      }
    }
  }

  /** Every path the walk lists from a plain prefix is plain. */
  lemma WalkPathsPlain(prefix: seq<string>, cs: seq<Node>, patterns: seq<string>, p: seq<string>)
    requires WellFormed(cs) && forall k :: 0 <= k < |prefix| ==> '/' !in prefix[k]
    requires p in Walk(prefix, cs, patterns)
    ensures PlainPath(p) && |p| > |prefix| && p[..|prefix|] == prefix
  {
    WalkMembers(prefix, cs, patterns, p);
    FileAtSegments(cs, p[|prefix|..]);
    forall k | 0 <= k < |p| ensures '/' !in p[k] {
      if k < |prefix| {
        assert p[k] == p[..|prefix|][k];
      } else {
        assert p[k] == p[|prefix|..][k - |prefix|];
      }
    }
  }

  /** Archive entry names are distinct: each kept file of a well-formed tree
      is written exactly once, under a name no other file shares. */
  lemma ArchiveNamesDistinct(cs: seq<Node>, patterns: seq<string>, naming: Naming)
    requires WellFormed(cs)
    ensures Distinct(Names(EntriesOf(Walk([], cs, patterns), naming)))
  {
    var w := Walk([], cs, patterns);
    WalkDistinct([], cs, patterns);
    forall k | 0 <= k < |w| ensures PlainPath(w[k]) {
      assert w[k] in w;
      WalkPathsPlain([], cs, patterns, w[k]);
    }
    NamesDistinct(w, naming);
  }

  // ---------------------------------------------------------------- the walking method

  /** A directory still to be visited: its path and its listing. */
  datatype Pending = Pending(prefix: seq<string>, children: seq<Node>)

  ghost function WalkAll(stack: seq<Pending>, patterns: seq<string>): seq<seq<string>>
  {
    if stack == [] then [] else Walk(stack[0].prefix, stack[0].children, patterns) + WalkAll(stack[1..], patterns)
  }

  /** The kept subdirectories of `cs`, as pending visits in listing order. */
  function KeptDirs(prefix: seq<string>, cs: seq<Node>, patterns: seq<string>): seq<Pending>
  {
    if cs == [] then []
    else (if cs[0].Dir? && !Excluded(cs[0].name, patterns)
          then [Pending(prefix + [cs[0].name], cs[0].children)] else [])
         + KeptDirs(prefix, cs[1..], patterns)
  }

  function NodeSize(n: Node): nat
  {
    match n
    case File(_, _) => 1
    case Dir(_, cs) => 1 + ListSize(cs)
  }

  function ListSize(cs: seq<Node>): nat
  {
    if cs == [] then 0 else NodeSize(cs[0]) + ListSize(cs[1..])
  }

  function Weight(stack: seq<Pending>): nat
  {
    if stack == [] then 0 else 1 + ListSize(stack[0].children) + Weight(stack[1..])
  }

  lemma {:induction false} WeightConcat(a: seq<Pending>, b: seq<Pending>)
    ensures Weight(a + b) == Weight(a) + Weight(b)
  {
    if a != [] {
      assert (a + b)[0] == a[0] && (a + b)[1..] == a[1..] + b;
      WeightConcat(a[1..], b);
    } else {
      assert a + b == b;
    }
  }

  lemma {:induction false} KeptDirsWeight(prefix: seq<string>, cs: seq<Node>, patterns: seq<string>)
    ensures Weight(KeptDirs(prefix, cs, patterns)) <= ListSize(cs)
  {
    if cs != [] {
      KeptDirsWeight(prefix, cs[1..], patterns);
      var head := if cs[0].Dir? && !Excluded(cs[0].name, patterns)
                  then [Pending(prefix + [cs[0].name], cs[0].children)] else [];
      WeightConcat(head, KeptDirs(prefix, cs[1..], patterns));
    }
  }

  lemma {:induction false} WalkAllConcat(a: seq<Pending>, b: seq<Pending>, patterns: seq<string>)
    ensures WalkAll(a + b, patterns) == WalkAll(a, patterns) + WalkAll(b, patterns)
  {
    if a != [] {
      assert (a + b)[0] == a[0] && (a + b)[1..] == a[1..] + b;
      WalkAllConcat(a[1..], b, patterns);
    } else {
      assert a + b == b;
    }
  }

  /** The subdirectory walks are the walks of the pending visits. */
  lemma {:induction false} DirsAsPending(prefix: seq<string>, cs: seq<Node>, patterns: seq<string>)
    ensures DirsOf(prefix, cs, patterns) == WalkAll(KeptDirs(prefix, cs, patterns), patterns)
  {
    if cs != [] {
      DirsAsPending(prefix, cs[1..], patterns);
      var head := if cs[0].Dir? && !Excluded(cs[0].name, patterns)
                  then [Pending(prefix + [cs[0].name], cs[0].children)] else [];
      WalkAllConcat(head, KeptDirs(prefix, cs[1..], patterns), patterns);
    }
  }

  lemma {:induction false} FilesOfSnoc(prefix: seq<string>, cs: seq<Node>, i: nat, patterns: seq<string>)
    requires i < |cs|
    ensures FilesOf(prefix, cs[..i + 1], patterns)
         == FilesOf(prefix, cs[..i], patterns)
            + (if cs[i].File? && !Excluded(cs[i].name, patterns) then [prefix + [cs[i].name]] else [])
  {
    if i > 0 {
      assert cs[..i + 1][1..] == cs[1..][..i];
      assert cs[..i][1..] == cs[1..][..i - 1];
      FilesOfSnoc(prefix, cs[1..], i - 1, patterns);
    }
  }

  lemma {:induction false} KeptDirsSnoc(prefix: seq<string>, cs: seq<Node>, i: nat, patterns: seq<string>)
    requires i < |cs|
    ensures KeptDirs(prefix, cs[..i + 1], patterns)
         == KeptDirs(prefix, cs[..i], patterns)
            + (if cs[i].Dir? && !Excluded(cs[i].name, patterns) then [Pending(prefix + [cs[i].name], cs[i].children)] else [])
  {
    if i > 0 {
      assert cs[..i + 1][1..] == cs[1..][..i];
      assert cs[..i][1..] == cs[1..][..i - 1];
      KeptDirsSnoc(prefix, cs[1..], i - 1, patterns);
    }
  }

  /** Visiting the first pending directory: its files come first, then the
      walks of its kept subdirectories, pushed in front of the rest; the
      stack's weight drops. */
  lemma VisitStep(stack: seq<Pending>, patterns: seq<string>)
    requires stack != []
    ensures var top := stack[0];
      WalkAll(stack, patterns)
        == FilesOf(top.prefix, top.children, patterns)
           + WalkAll(KeptDirs(top.prefix, top.children, patterns) + stack[1..], patterns)
    ensures Weight(KeptDirs(stack[0].prefix, stack[0].children, patterns) + stack[1..]) < Weight(stack)
  {
    var top := stack[0];
    var dirs := KeptDirs(top.prefix, top.children, patterns);
    DirsAsPending(top.prefix, top.children, patterns);
    WalkAllConcat(dirs, stack[1..], patterns);
    KeptDirsWeight(top.prefix, top.children, patterns);
    WeightConcat(dirs, stack[1..]);
  }

  lemma EntriesOfConcat(a: seq<seq<string>>, b: seq<seq<string>>, naming: Naming)
    ensures EntriesOf(a + b, naming) == EntriesOf(a, naming) + EntriesOf(b, naming)
  {
  }

  lemma Regroup<T>(a: seq<T>, b: seq<T>, c: seq<T>)
    ensures a + (b + c) == (a + b) + c
  {
  }

  /** One step of the walk: the files of one directory written in listing
      order, and its subdirectories filtered in place (`dirs[:] = [...]`). */
  method VisitDirectory(prefix: seq<string>, cs: seq<Node>, patterns: seq<string>, naming: Naming)
    returns (written: seq<Entry>, dirs: seq<Pending>)
    ensures written == EntriesOf(FilesOf(prefix, cs, patterns), naming)
    ensures dirs == KeptDirs(prefix, cs, patterns)
  {
    written, dirs := [], [];
    var i := 0;
    while i < |cs|
      invariant 0 <= i <= |cs|
      invariant written == EntriesOf(FilesOf(prefix, cs[..i], patterns), naming)
      invariant dirs == KeptDirs(prefix, cs[..i], patterns)
    {
      FilesOfSnoc(prefix, cs, i, patterns);
      KeptDirsSnoc(prefix, cs, i, patterns);
      var n := cs[i];
      if !Excluded(n.name, patterns) {
        if n.File? {
          var path := prefix + [n.name];
          EntriesOfConcat(FilesOf(prefix, cs[..i], patterns), [path], naming);
          written := written + [Entry(path, EntryName(naming, path))];
        } else {
          dirs := dirs + [Pending(prefix + [n.name], n.children)];
        }
      }
      i := i + 1;
    }
    assert cs[..|cs|] == cs;
  }

  /** The `for root, dirs, files in os.walk(source)` loop of the builders:
      prune `dirs` in place, skip excluded files, write every other file
      under its entry name.  The result is the walk's files, in walk order,
      each under the name `naming` gives it; `prefix` is the walked
      directory's own path below the directory names are relative to. */
  method WriteTree(root: seq<Node>, prefix: seq<string>, patterns: seq<string>, naming: Naming)
    returns (archive: seq<Entry>)
    ensures archive == EntriesOf(Walk(prefix, root, patterns), naming)
  {
    archive := [];
    ghost var done: seq<seq<string>> := [];
    var stack := [Pending(prefix, root)];
    assert WalkAll(stack, patterns) == Walk(prefix, root, patterns);
    while stack != []
      invariant archive == EntriesOf(done, naming)
      invariant done + WalkAll(stack, patterns) == Walk(prefix, root, patterns)
      decreases Weight(stack)
    {
      var top := stack[0];
      var written, dirs := VisitDirectory(top.prefix, top.children, patterns, naming);
      ghost var files := FilesOf(top.prefix, top.children, patterns);
      EntriesOfConcat(done, files, naming);
      VisitStep(stack, patterns);
      Regroup(done, files, WalkAll(dirs + stack[1..], patterns));
      archive := archive + written;
      done := done + files;
      stack := dirs + stack[1..];
    }
  }
}
