/**
 * The Johnson Matthey fragment packager: prepare each known fragment
 * directory (rename sources, write `fragment.json`, add a thumbnail), then
 * write one archive per fragment and one archive for the whole collection.
 */
module FragmentZips {
  import opened Wrappers
  import opened Text
  import opened FileTree

  /** The metadata `FRAGMENTS` holds for one fragment. */
  datatype FragmentInfo = FragmentInfo(name: string, fragmentType: string, icon: string)

  /** `FRAGMENTS`, in its declaration order (the order the loops visit). */
  const Fragments: seq<(string, FragmentInfo)> := [
    ("jm-header", FragmentInfo("JM Header", "section", "header")),
    ("jm-hero", FragmentInfo("JM Hero", "section", "banner")),
    ("jm-news-carousel", FragmentInfo("JM News Carousel", "section", "carousel")),
    ("jm-share-price", FragmentInfo("JM Share Price", "component", "analytics")),
    ("jm-company-overview", FragmentInfo("JM Company Overview", "section", "info-circle")),
    ("jm-footer", FragmentInfo("JM Footer", "section", "footer")),
    ("jm-card", FragmentInfo("JM Card", "component", "cards2"))
  ]

  const CollectionName: string := "johnson-matthey-collection"

  function Keys(): (r: seq<string>)
    ensures |r| == |Fragments|
    ensures forall i :: 0 <= i < |Fragments| ==> r[i] == Fragments[i].0
  {
    seq(|Fragments|, i requires 0 <= i < |Fragments| => Fragments[i].0)
  }

  /** The keys are distinct, `/`-free, and differ from the two other names
      the collection archive takes from the collection directory. */
  lemma KeysPlain()
    ensures Distinct(Keys())
    ensures forall i :: 0 <= i < |Fragments| ==> '/' !in Keys()[i] && Keys()[i] != "resources" && Keys()[i] != "collection.json"
  {
    var k := Keys();
    assert k == ["jm-header", "jm-hero", "jm-news-carousel", "jm-share-price",
                 "jm-company-overview", "jm-footer", "jm-card"];
  }

  // ---------------------------------------------------------------- preparing one fragment

  /** The descriptor `create_fragment_json` writes. */
  function FragmentDescriptor(key: string, info: FragmentInfo): Descriptor
  {
    Descriptor(key, info.name, info.fragmentType,
               "index.html", "index.css", "index.js", "configuration.json", "thumbnail.png",
               info.icon)
  }

  const FileMappings: seq<(string, string)> := [("main.js", "index.js"), ("styles.css", "index.css")]

  /** Apply the mappings in order, each only when its source exists. */
  function RenameAll(cs: seq<Node>, mappings: seq<(string, string)>): seq<Node>
    decreases |mappings|
  {
    if mappings == [] then cs else RenameAll(Rename(cs, mappings[0].0, mappings[0].1), mappings[1..])
  }

  function RenameFiles(cs: seq<Node>): seq<Node>
  {
    RenameAll(cs, FileMappings)
  }

  function DescriptorNode(key: string, info: FragmentInfo): Node
  {
    File("fragment.json", DescriptorFile(FragmentDescriptor(key, info)))
  }

  function WithDescriptor(cs: seq<Node>, key: string, info: FragmentInfo): seq<Node>
  {
    Put(cs, DescriptorNode(key, info))
  }

  const Thumbnail: Node := File("thumbnail.png", PlaceholderPng)

  function WithThumbnail(cs: seq<Node>): seq<Node>
  {
    if Lookup(cs, "thumbnail.png").Some? then cs else cs + [Thumbnail]
  }

  /** What the preparation loop does to one fragment directory. */
  function PrepareDir(cs: seq<Node>, key: string, info: FragmentInfo): seq<Node>
  {
    WithThumbnail(WithDescriptor(RenameFiles(cs), key, info))
  }

  lemma {:induction false} LookupWithThumbnail(cs: seq<Node>, name: string)
    ensures Lookup(WithThumbnail(cs), "thumbnail.png").Some?
    ensures name != "thumbnail.png" ==> Lookup(WithThumbnail(cs), name) == Lookup(cs, name)
  {
    if Lookup(cs, "thumbnail.png").None? {
      LookupAppend(cs, Thumbnail);
    }
  }

  /** An existing thumbnail is never overwritten, so a second call writes
      nothing. */
  lemma ThumbnailNeverOverwritten(cs: seq<Node>)
    ensures Lookup(cs, "thumbnail.png").Some? ==> WithThumbnail(cs) == cs
    ensures WithThumbnail(WithThumbnail(cs)) == WithThumbnail(cs)
  {
    LookupWithThumbnail(cs, "");
  }

  /** The two mappings, applied in order. */
  lemma RenameFilesUnfold(cs: seq<Node>)
    ensures RenameFiles(cs) == Rename(Rename(cs, "main.js", "index.js"), "styles.css", "index.css")
  {
    assert FileMappings[1..][1..] == [];
  }

  /** Two renames with four different names, as `rename_files` performs them. */
  lemma TwoRenames(cs: seq<Node>, s1: string, t1: string, s2: string, t2: string)
    requires s1 != t1 && s1 != s2 && s1 != t2 && t1 != s2 && t1 != t2 && s2 != t2
    ensures var b := Rename(Rename(cs, s1, t1), s2, t2);
      && Lookup(b, s1).None? && Lookup(b, s2).None?
      && (Lookup(b, t1).Some? <==> Lookup(cs, s1).Some? || Lookup(cs, t1).Some?)
      && (Lookup(b, t2).Some? <==> Lookup(cs, s2).Some? || Lookup(cs, t2).Some?)
  {
    var a := Rename(cs, s1, t1);
    RenameEffect(cs, s1, t1);
    RenameEffect(a, s2, t2);
  }

  lemma RenameFilesSources(cs: seq<Node>)
    ensures Lookup(RenameFiles(cs), "main.js").None?
    ensures Lookup(RenameFiles(cs), "styles.css").None?
    ensures Lookup(RenameFiles(cs), "index.js").Some? <==> Lookup(cs, "main.js").Some? || Lookup(cs, "index.js").Some?
    ensures Lookup(RenameFiles(cs), "index.css").Some? <==> Lookup(cs, "styles.css").Some? || Lookup(cs, "index.css").Some?
  {
    RenameFilesUnfold(cs);
    TwoRenames(cs, "main.js", "index.js", "styles.css", "index.css");
  }

  lemma RenameFilesOthers(cs: seq<Node>, name: string)
    ensures name != "main.js" && name != "index.js" && name != "styles.css" && name != "index.css" ==>
      Lookup(RenameFiles(cs), name) == Lookup(cs, name)
    ensures Lookup(cs, "main.js").None? && Lookup(cs, "styles.css").None? ==> RenameFiles(cs) == cs
  {
    var a := Rename(cs, "main.js", "index.js");
    RenameFilesUnfold(cs);
    RenameEffect(cs, "main.js", "index.js");
    RenameEffect(a, "styles.css", "index.css");
  }

  /** Only `main.js` and `styles.css` move, each only when present: every
      other name keeps its node, and neither source name survives. */
  lemma RenameFilesEffect(cs: seq<Node>, name: string)
    ensures Lookup(RenameFiles(cs), "main.js").None?
    ensures Lookup(RenameFiles(cs), "styles.css").None?
    ensures Lookup(RenameFiles(cs), "index.js").Some? <==> Lookup(cs, "main.js").Some? || Lookup(cs, "index.js").Some?
    ensures Lookup(RenameFiles(cs), "index.css").Some? <==> Lookup(cs, "styles.css").Some? || Lookup(cs, "index.css").Some?
    ensures name != "main.js" && name != "index.js" && name != "styles.css" && name != "index.css" ==>
      Lookup(RenameFiles(cs), name) == Lookup(cs, name)
    ensures Lookup(cs, "main.js").None? && Lookup(cs, "styles.css").None? ==> RenameFiles(cs) == cs
  {
    RenameFilesSources(cs);
    RenameFilesOthers(cs, name);
  }

  /** A prepared fragment holds its descriptor and a thumbnail, no
      `main.js` or `styles.css`, and `index.js` / `index.css` exactly when a
      source for them was there. */
  lemma PreparedLayout(cs: seq<Node>, key: string, info: FragmentInfo)
    ensures var p := PrepareDir(cs, key, info);
      && Lookup(p, "fragment.json") == Some(DescriptorNode(key, info))
      && Lookup(p, "thumbnail.png").Some?
      && Lookup(p, "main.js").None? && Lookup(p, "styles.css").None?
      && (Lookup(p, "index.js").Some? <==> Lookup(cs, "main.js").Some? || Lookup(cs, "index.js").Some?)
      && (Lookup(p, "index.css").Some? <==> Lookup(cs, "styles.css").Some? || Lookup(cs, "index.css").Some?)
  {
    var d := WithDescriptor(RenameFiles(cs), key, info);
    RenameFilesSources(cs);
    LookupWithThumbnail(d, "fragment.json");
    PrepareLookup(cs, key, info, "main.js");
    PrepareLookup(cs, key, info, "styles.css");
    PrepareLookup(cs, key, info, "index.js");
    PrepareLookup(cs, key, info, "index.css");
  }

  /** Preparing leaves every name but the descriptor's and the thumbnail's as
      the renames left it. */
  lemma PrepareLookup(cs: seq<Node>, key: string, info: FragmentInfo, name: string)
    requires name != "thumbnail.png" && name != "fragment.json"
    ensures Lookup(PrepareDir(cs, key, info), name) == Lookup(RenameFiles(cs), name)
  {
    LookupWithThumbnail(WithDescriptor(RenameFiles(cs), key, info), name);
  }

  /** The descriptor's paths are the fixed Liferay names and its identity
      comes from the key and the table; a prepared directory really holds
      the `thumbnail.png` it names. */
  lemma DescriptorFields(cs: seq<Node>, key: string, info: FragmentInfo)
    ensures var d := FragmentDescriptor(key, info);
      && d.fragmentEntryKey == key && d.name == info.name && d.fragmentType == info.fragmentType
      && d.icon == info.icon
      && [d.htmlPath, d.cssPath, d.jsPath, d.configurationPath] == ["index.html", "index.css", "index.js", "configuration.json"]
      && Lookup(PrepareDir(cs, key, info), d.thumbnailPath).Some?
  {
    PreparedLayout(cs, key, info);
  }

  /** In a prepared directory every node called `fragment.json` is the descriptor. */
  lemma DescriptorUnique(cs: seq<Node>, key: string, info: FragmentInfo)
    ensures var p := PrepareDir(cs, key, info);
      forall i :: 0 <= i < |p| && p[i].name == "fragment.json" ==> p[i] == DescriptorNode(key, info)
  {
    var n := DescriptorNode(key, info);
    var d := WithDescriptor(RenameFiles(cs), key, info);
    var p := PrepareDir(cs, key, info);
    if Lookup(d, "thumbnail.png").None? {
      assert p == d + [Thumbnail];
      forall i | 0 <= i < |p| && p[i].name == n.name ensures p[i] == n {
        if i < |d| { assert p[i] == d[i]; }
      }
    }
  }

  /** Preparing a prepared fragment changes nothing. */
  lemma PrepareIdempotent(cs: seq<Node>, key: string, info: FragmentInfo)
    ensures PrepareDir(PrepareDir(cs, key, info), key, info) == PrepareDir(cs, key, info)
  {
    var p := PrepareDir(cs, key, info);
    var n := DescriptorNode(key, info);
    PreparedLayout(cs, key, info);
    assert RenameFiles(p) == p by {
      RenameFilesEffect(p, "");
    }
    assert WithDescriptor(p, key, info) == p by {
      DescriptorUnique(cs, key, info);
      PutSettled(p, n);
    }
    assert WithThumbnail(p) == p;
  }

  // ---------------------------------------------------------------- the collection directory

  /** The node called `key` exists and is a directory. */
  predicate IsDirIn(cs: seq<Node>, key: string)
  {
    Lookup(cs, key).Some? && Lookup(cs, key).value.Dir?
  }

  /** One iteration of `prepare_fragments` for a key that is not a plain
      file: a directory is prepared, an absent key is skipped. */
  function PrepareOne(cs: seq<Node>, key: string, info: FragmentInfo): seq<Node>
  {
    if IsDirIn(cs, key) then Put(cs, Dir(key, PrepareDir(Lookup(cs, key).value.children, key, info))) else cs
  }

  /** `prepare_fragments` over `fragments`, assuming no key names a plain
      file (which would raise), with absent keys skipped. */
  function PrepareAll(cs: seq<Node>, fragments: seq<(string, FragmentInfo)>): seq<Node>
    decreases |fragments|
  {
    if fragments == [] then cs
    else PrepareAll(PrepareOne(cs, fragments[0].0, fragments[0].1), fragments[1..])
  }

  /** Preparing one more fragment at the end is one more iteration. */
  lemma {:induction false} PrepareAllSnoc(cs: seq<Node>, fs: seq<(string, FragmentInfo)>, f: (string, FragmentInfo))
    ensures PrepareAll(cs, fs + [f]) == PrepareOne(PrepareAll(cs, fs), f.0, f.1)
    decreases |fs|
  {
    if fs == [] {
      assert fs + [f] == [f] && [f][1..] == [];
    } else {
      assert (fs + [f])[0] == fs[0] && (fs + [f])[1..] == fs[1..] + [f];
      PrepareAllSnoc(PrepareOne(cs, fs[0].0, fs[0].1), fs[1..], f);
    }
  }

  /** The node called `key` exists and is a plain file. */
  predicate IsFileIn(cs: seq<Node>, key: string)
  {
    Lookup(cs, key).Some? && Lookup(cs, key).value.File?
  }

  /** Some key of `fragments` names a plain file in `cs`. */
  predicate HitsFile(cs: seq<Node>, fragments: seq<(string, FragmentInfo)>)
  {
    exists i :: 0 <= i < |fragments| && IsFileIn(cs, fragments[i].0)
  }

  /** A run over `before` raised at key `j`, the first that names a plain
      file (`open` of `fragment.json` inside it fails), leaving `after` with
      every fragment before `j` prepared and nothing else changed. */
  predicate CrashedAt(before: seq<Node>, after: seq<Node>, fragments: seq<(string, FragmentInfo)>, j: int)
  {
    && 0 <= j < |fragments| && IsFileIn(before, fragments[j].0)
    && !HitsFile(before, fragments[..j])
    && after == PrepareAll(before, fragments[..j])
  }

  lemma HitsFileExtend(cs: seq<Node>, fs: seq<(string, FragmentInfo)>, i: nat)
    requires i < |fs|
    ensures HitsFile(cs, fs[..i + 1]) <==> HitsFile(cs, fs[..i]) || IsFileIn(cs, fs[i].0)
    ensures HitsFile(cs, fs[..i + 1]) ==> HitsFile(cs, fs)
  {
    assert fs[..i + 1][i] == fs[i];
    if HitsFile(cs, fs[..i + 1]) {
      var j :| 0 <= j < i + 1 && IsFileIn(cs, fs[..i + 1][j].0);
      assert fs[..i + 1][j] == fs[j];
      if j < i { assert fs[..i][j] == fs[j]; }
    }
    if HitsFile(cs, fs[..i]) {
      var j :| 0 <= j < i && IsFileIn(cs, fs[..i][j].0);
      assert fs[..i + 1][j] == fs[..i][j];
    }
  }

  /** The collection directory `fragment-collection/johnson-matthey-collection`,
      which the packager changes in place. */
  class CollectionFolder {
    var listing: seq<Node>

    constructor (initial: seq<Node>)
      ensures listing == initial
    {
      listing := initial;
    }

    /** `rename_fragment_files`: each mapping applied only when its source
        exists. */
    method RenameFragmentFiles(key: string)
      requires IsDirIn(listing, key)
      modifies this
      ensures listing == Put(old(listing), Dir(key, RenameFiles(Lookup(old(listing), key).value.children)))
    {
      var original := Lookup(listing, key).value.children;
      var cs := original;
      var i := 0;
      while i < |FileMappings|
        invariant 0 <= i <= |FileMappings|
        invariant RenameAll(cs, FileMappings[i..]) == RenameFiles(original)
      {
        var (source, target) := FileMappings[i];
        assert FileMappings[i..][1..] == FileMappings[i + 1..];
        if Lookup(cs, source).Some? {
          cs := Rename(cs, source, target);
        }
        i := i + 1;
      }
      listing := Put(listing, Dir(key, cs));
    }

    /** `create_fragment_json`: (over)write the descriptor. */
    method CreateFragmentJson(key: string, info: FragmentInfo)
      requires IsDirIn(listing, key)
      modifies this
      ensures listing == Put(old(listing), Dir(key, WithDescriptor(Lookup(old(listing), key).value.children, key, info)))
    {
      var cs := Lookup(listing, key).value.children;
      listing := Put(listing, Dir(key, Put(cs, DescriptorNode(key, info))));
    }

    /** `create_thumbnail`: write the placeholder only if there is none. */
    method CreateThumbnail(key: string)
      requires IsDirIn(listing, key)
      modifies this
      ensures Lookup(Lookup(old(listing), key).value.children, "thumbnail.png").Some? ==> listing == old(listing)
      ensures Lookup(Lookup(old(listing), key).value.children, "thumbnail.png").None? ==>
        listing == Put(old(listing), Dir(key, WithThumbnail(Lookup(old(listing), key).value.children)))
    {
      var cs := Lookup(listing, key).value.children;
      if Lookup(cs, "thumbnail.png").Some? {
        return;
      }
      listing := Put(listing, Dir(key, cs + [Thumbnail]));
    }

    /** `prepare_fragments`: every present fragment prepared in table
        order; a key naming a plain file raises when its descriptor is
        written, ending the run. */
    method PrepareFragments() returns (crashed: bool)
      modifies this
      ensures crashed <==> HitsFile(old(listing), Fragments)
      ensures !crashed ==> listing == PrepareAll(old(listing), Fragments)
      ensures crashed ==> exists j :: CrashedAt(old(listing), listing, Fragments, j)
    {
      KeysPlain();
      crashed := PrepareEach(Fragments);
    }

    /** The loop of `prepare_fragments` over any table with distinct keys. */
    method PrepareEach(fragments: seq<(string, FragmentInfo)>) returns (crashed: bool)
      requires forall i, j :: 0 <= i < j < |fragments| ==> fragments[i].0 != fragments[j].0
      modifies this
      ensures crashed <==> HitsFile(old(listing), fragments)
      ensures !crashed ==> listing == PrepareAll(old(listing), fragments)
      ensures crashed ==> exists j :: CrashedAt(old(listing), listing, fragments, j)
    {
      var i := 0;
      while i < |fragments|
        invariant 0 <= i <= |fragments|
        invariant listing == PrepareAll(old(listing), fragments[..i])
        invariant forall j :: i <= j < |fragments| ==> Lookup(listing, fragments[j].0) == Lookup(old(listing), fragments[j].0)
        invariant !HitsFile(old(listing), fragments[..i])
      {
        var (key, info) := fragments[i];
        assert fragments[..i + 1] == fragments[..i] + [fragments[i]];
        PrepareAllSnoc(old(listing), fragments[..i], fragments[i]);
        HitsFileExtend(old(listing), fragments, i);
        var entry := Lookup(listing, key);
        if entry.Some? {
          if entry.value.File? {
            assert CrashedAt(old(listing), listing, fragments, i);
            return true;
          }
          ghost var l0 := listing;
          ghost var cs := entry.value.children;
          RenameFragmentFiles(key);
          ghost var l1 := listing;
          CreateFragmentJson(key, info);
          ghost var l2 := listing;
          CreateThumbnail(key);
          PrepareSteps(l0, l1, l2, listing, key, info, cs);
        }
        i := i + 1;
      }
      assert fragments[..|fragments|] == fragments;
      return false;
    }
  }

  /** The three writes of one iteration amount to `PrepareDir` on the
      fragment's listing. */
  lemma PrepareSteps(l0: seq<Node>, l1: seq<Node>, l2: seq<Node>, l3: seq<Node>,
                     key: string, info: FragmentInfo, cs: seq<Node>)
    requires IsDirIn(l0, key) && cs == Lookup(l0, key).value.children
    requires l1 == Put(l0, Dir(key, RenameFiles(cs)))
    requires l2 == Put(l1, Dir(key, WithDescriptor(RenameFiles(cs), key, info)))
    requires Lookup(WithDescriptor(RenameFiles(cs), key, info), "thumbnail.png").Some? ==> l3 == l2
    requires Lookup(WithDescriptor(RenameFiles(cs), key, info), "thumbnail.png").None? ==>
      l3 == Put(l2, Dir(key, WithThumbnail(WithDescriptor(RenameFiles(cs), key, info))))
    ensures l3 == Put(l0, Dir(key, PrepareDir(cs, key, info)))
  {
    var d := WithDescriptor(RenameFiles(cs), key, info);
    PutTwice(l0, Dir(key, RenameFiles(cs)), Dir(key, d));
    if Lookup(d, "thumbnail.png").None? {
      PutTwice(l0, Dir(key, d), Dir(key, WithThumbnail(d)));
    }
  }

  // ---------------------------------------------------------------- archives

  /** The last segment of a relative path joined below `key`. */
  lemma JoinUnder(key: string, rel: seq<string>)
    requires |rel| >= 1
    ensures Join([key] + rel, '/') == key + "/" + Join(rel, '/')
  {
    assert ([key] + rel)[1..] == rel;
  }

  /** The archive for one present key: every file below its directory, no
      exclusions, at `key/<relpath>`. */
  function KeyArchive(node: Node, key: string): seq<Entry>
  {
    EntriesOf(Walk([key], Listing(node), []), Relative)
  }

  /** `create_individual_fragment_zips` over `keys`: an archive for each
      key whose path exists, in table order; missing keys are skipped. */
  function IndividualZips(cs: seq<Node>, keys: seq<string>): seq<(string, seq<Entry>)>
  {
    if keys == [] then []
    else
      var k := keys[|keys| - 1];
      IndividualZips(cs, keys[..|keys| - 1])
      + match Lookup(cs, k) case None => [] case Some(n) => [(k, KeyArchive(n, k))]
  }

  method CreateIndividualFragmentZips(cs: seq<Node>) returns (zips: seq<(string, seq<Entry>)>)
    ensures zips == IndividualZips(cs, Keys())
  {
    zips := ArchiveEach(cs, Keys());
  }

  /** The loop of `create_individual_fragment_zips` over any key list. */
  method ArchiveEach(cs: seq<Node>, keys: seq<string>) returns (zips: seq<(string, seq<Entry>)>)
    ensures zips == IndividualZips(cs, keys)
  {
    zips := [];
    var i := 0;
    while i < |keys|
      invariant 0 <= i <= |keys|
      invariant zips == IndividualZips(cs, keys[..i])
    {
      var key := keys[i];
      assert keys[..i + 1][..i] == keys[..i];
      var entry := Lookup(cs, key);
      if entry.Some? {
        var archive := WriteTree(Listing(entry.value), [key], [], Relative);
        zips := zips + [(key, archive)];
      }
      i := i + 1;
    }
    assert keys[..|keys|] == keys;
  }

  /** One archive per present key and no other: each holds exactly the
      files below that key's directory, every one named `key/<relpath>`. */
  lemma IndividualZipContents(cs: seq<Node>, keys: seq<string>, z: (string, seq<Entry>), rel: seq<string>)
    requires z in IndividualZips(cs, keys)
    ensures z.0 in keys && Lookup(cs, z.0).Some?
    ensures z.1 == KeyArchive(Lookup(cs, z.0).value, z.0)
    ensures [z.0] + rel in Walk([z.0], Listing(Lookup(cs, z.0).value), []) <==> FileAt(Listing(Lookup(cs, z.0).value), rel)
    ensures |rel| >= 1 ==> EntryName(Relative, [z.0] + rel) == z.0 + "/" + Join(rel, '/')
    decreases |keys|
  {
    var k := keys[|keys| - 1];
    if z !in IndividualZips(cs, keys[..|keys| - 1]) {
      assert z.0 == k;
    } else {
      IndividualZipContents(cs, keys[..|keys| - 1], z, rel);
    }
    var n := Lookup(cs, z.0).value;
    WalkMembers([z.0], Listing(n), [], [z.0] + rel);
    assert ([z.0] + rel)[..1] == [z.0] && ([z.0] + rel)[1..] == rel;
    if |rel| >= 1 {
      JoinUnder(z.0, rel);
    }
  }

  /** Every key whose path exists gets its archive. */
  lemma IndividualZipPresent(cs: seq<Node>, keys: seq<string>, i: nat)
    requires i < |keys| && Lookup(cs, keys[i]).Some?
    ensures (keys[i], KeyArchive(Lookup(cs, keys[i]).value, keys[i])) in IndividualZips(cs, keys)
    decreases |keys|
  {
    if i < |keys| - 1 {
      assert keys[..|keys| - 1][i] == keys[i];
      IndividualZipPresent(cs, keys[..|keys| - 1], i);
    }
  }

  /** The files below one key of the collection, relative to the collection. */
  function KeySources(cs: seq<Node>, key: string): seq<seq<string>>
  {
    match Lookup(cs, key)
    case None => []
    case Some(n) => Walk([key], Listing(n), [])
  }

  function FragmentSources(cs: seq<Node>, keys: seq<string>): seq<seq<string>>
  {
    if keys == [] then [] else FragmentSources(cs, keys[..|keys| - 1]) + KeySources(cs, keys[|keys| - 1])
  }

  const ManifestPath: seq<string> := ["collection.json"]

  /** `collection.json` when the collection has one. */
  function ManifestSources(cs: seq<Node>): seq<seq<string>>
  {
    if Lookup(cs, "collection.json").Some? then [ManifestPath] else []
  }

  lemma ManifestEntry()
    ensures EntriesOf([ManifestPath], Rooted(CollectionName)) == [Entry(ManifestPath, CollectionName + "/collection.json")]
  {
    assert Join(ManifestPath, '/') == "collection.json";
    assert CollectionName + "/" + "collection.json" == CollectionName + "/collection.json";
    assert EntryName(Rooted(CollectionName), ManifestPath) == CollectionName + "/collection.json";
  }

  lemma EntriesOfThree(a: seq<seq<string>>, b: seq<seq<string>>, c: seq<seq<string>>, naming: Naming)
    ensures EntriesOf(a + b + c, naming) == EntriesOf(a, naming) + EntriesOf(b, naming) + EntriesOf(c, naming)
  {
    EntriesOfConcat(a + b, c, naming);
    EntriesOfConcat(a, b, naming);
  }

  /** What `create_collection_zip` archives, relative to the collection:
      `collection.json` if present, then each present fragment's files, then
      the files under `resources/` if present. */
  function CollectionSources(cs: seq<Node>): seq<seq<string>>
  {
    ManifestSources(cs)
    + FragmentSources(cs, Keys())
    + KeySources(cs, "resources")
  }

  /** The fragment part of `create_collection_zip`: the loop over the
      table's keys, each present directory walked with no exclusions. */
  method CreateFragmentEntries(cs: seq<Node>, keys: seq<string>, naming: Naming) returns (part: seq<Entry>)
    ensures part == EntriesOf(FragmentSources(cs, keys), naming)
  {
    part := [];
    var i := 0;
    while i < |keys|
      invariant 0 <= i <= |keys|
      invariant part == EntriesOf(FragmentSources(cs, keys[..i]), naming)
    {
      var key := keys[i];
      assert keys[..i + 1][..i] == keys[..i];
      EntriesOfConcat(FragmentSources(cs, keys[..i]), KeySources(cs, key), naming);
      var entry := Lookup(cs, key);
      if entry.Some? {
        var files := WriteTree(Listing(entry.value), [key], [], naming);
        part := part + files;
      }
      i := i + 1;
    }
    assert keys[..|keys|] == keys;
  }

  method CreateCollectionZip(cs: seq<Node>) returns (archive: seq<Entry>)
    ensures archive == EntriesOf(CollectionSources(cs), Rooted(CollectionName))
  {
    var naming := Rooted(CollectionName);
    var manifest: seq<Entry> := [];
    if Lookup(cs, "collection.json").Some? {
      ManifestEntry();
      manifest := [Entry(ManifestPath, CollectionName + "/collection.json")];
    }
    var fragments := CreateFragmentEntries(cs, Keys(), naming);
    var resources: seq<Entry> := [];
    var entry := Lookup(cs, "resources");
    if entry.Some? {
      resources := WriteTree(Listing(entry.value), ["resources"], [], naming);
    }
    EntriesOfThree(ManifestSources(cs), FragmentSources(cs, Keys()), KeySources(cs, "resources"), naming);
    archive := manifest + fragments + resources;
  }

  lemma WellFormedLookup(cs: seq<Node>, name: string)
    requires WellFormed(cs) && Lookup(cs, name).Some?
    ensures WellFormed(Listing(Lookup(cs, name).value)) && '/' !in name
  {
    var n := Lookup(cs, name).value;
    var i :| 0 <= i < |cs| && cs[i] == n;
  }

  lemma KeySourcesShape(cs: seq<Node>, key: string, p: seq<string>)
    requires WellFormed(cs) && p in KeySources(cs, key)
    ensures |p| >= 2 && p[0] == key && PlainPath(p)
  {
    WellFormedLookup(cs, key);
    WalkPathsPlain([key], Listing(Lookup(cs, key).value), [], p);
    assert p[..1][0] == p[0];
  }

  lemma {:induction false} FragmentSourcesShape(cs: seq<Node>, keys: seq<string>, p: seq<string>)
    requires WellFormed(cs) && p in FragmentSources(cs, keys)
    ensures |p| >= 2 && p[0] in keys && PlainPath(p)
    decreases |keys|
  {
    var init := keys[..|keys| - 1];
    if p in FragmentSources(cs, init) {
      FragmentSourcesShape(cs, init, p);
      assert p[0] in keys by { var j :| 0 <= j < |init| && init[j] == p[0]; assert keys[j] == init[j]; }
    } else {
      KeySourcesShape(cs, keys[|keys| - 1], p);
    }
  }

  lemma KeySourcesDistinct(cs: seq<Node>, key: string)
    requires WellFormed(cs)
    ensures Distinct(KeySources(cs, key))
  {
    if Lookup(cs, key).Some? {
      WellFormedLookup(cs, key);
      WalkDistinct([key], Listing(Lookup(cs, key).value), []);
    }
  }

  lemma {:induction false} FragmentSourcesDistinct(cs: seq<Node>, keys: seq<string>)
    requires WellFormed(cs) && Distinct(keys)
    ensures Distinct(FragmentSources(cs, keys))
    decreases |keys|
  {
    if keys != [] {
      var init := keys[..|keys| - 1];
      var last := keys[|keys| - 1];
      FragmentSourcesDistinct(cs, init);
      KeySourcesDistinct(cs, last);
      forall x | x in FragmentSources(cs, init) ensures x !in KeySources(cs, last) {
        FragmentSourcesShape(cs, init, x);
        if x in KeySources(cs, last) {
          KeySourcesShape(cs, last, x);
        }
      }
      DistinctConcat(FragmentSources(cs, init), KeySources(cs, last));
    }
  }

  /** Every entry of the collection archive lies under
      `johnson-matthey-collection/`, and comes from `collection.json`, from
      the directory of a key of the table, or from `resources/`: any other
      subdirectory is left out. */
  lemma CollectionLayout(cs: seq<Node>, k: nat)
    requires WellFormed(cs) && k < |CollectionSources(cs)|
    ensures var e := EntriesOf(CollectionSources(cs), Rooted(CollectionName))[k];
      && StartsWith(e.name, CollectionName + "/")
      && (e.source == ManifestPath || (|e.source| >= 2 && (e.source[0] in Keys() || e.source[0] == "resources")))
  {
    var s := CollectionSources(cs);
    var m := ManifestSources(cs);
    var p := s[k];
    var pre := CollectionName + "/";
    assert (pre + Join(p, '/'))[..|pre|] == pre;
    assert p in s;
    if p !in m {
      if p in FragmentSources(cs, Keys()) {
        FragmentSourcesShape(cs, Keys(), p);
      } else {
        KeySourcesShape(cs, "resources", p);
      }
    }
  }

  lemma DistinctThree<T>(a: seq<T>, b: seq<T>, c: seq<T>)
    requires Distinct(a) && Distinct(b) && Distinct(c)
    requires forall x :: x in b ==> x !in c
    requires forall x :: x in a ==> x !in b + c
    ensures Distinct(a + b + c)
  {
    DistinctConcat(b, c);
    DistinctConcat(a, b + c);
    assert a + b + c == a + (b + c);
  }

  /** A key's files never meet the files of the other keys. */
  lemma FragmentKeyApart(cs: seq<Node>, keys: seq<string>, rk: string)
    requires WellFormed(cs) && rk !in keys
    ensures forall x :: x in FragmentSources(cs, keys) ==> x !in KeySources(cs, rk)
  {
    forall x | x in FragmentSources(cs, keys) ensures x !in KeySources(cs, rk) {
      FragmentSourcesShape(cs, keys, x);
      if x in KeySources(cs, rk) { KeySourcesShape(cs, rk, x); }
    }
  }

  /** Single-segment paths never meet the walked files, which all have two
      segments or more. */
  lemma ShortPathsApart(cs: seq<Node>, keys: seq<string>, rk: string, m: seq<seq<string>>)
    requires WellFormed(cs) && forall x :: x in m ==> |x| == 1
    ensures forall x :: x in m ==> x !in FragmentSources(cs, keys) + KeySources(cs, rk)
  {
    forall x | x in m ensures x !in FragmentSources(cs, keys) + KeySources(cs, rk) {
      if x in FragmentSources(cs, keys) { FragmentSourcesShape(cs, keys, x); }
      if x in KeySources(cs, rk) { KeySourcesShape(cs, rk, x); }
    }
  }

  /** Every path of the concatenation is plain. */
  lemma SourcesPlain(cs: seq<Node>, keys: seq<string>, rk: string, m: seq<seq<string>>)
    requires WellFormed(cs) && forall x :: x in m ==> PlainPath(x)
    ensures var s := m + FragmentSources(cs, keys) + KeySources(cs, rk);
      forall k :: 0 <= k < |s| ==> PlainPath(s[k])
  {
    var f := FragmentSources(cs, keys);
    var r := KeySources(cs, rk);
    var s := m + f + r;
    forall k | 0 <= k < |s| ensures PlainPath(s[k]) {
      var x := s[k];
      assert x in m || x in f || x in r;
      if x in f { FragmentSourcesShape(cs, keys, x); }
      else if x in r { KeySourcesShape(cs, rk, x); }
    }
  }

  /** The concatenation `create_collection_zip` archives holds no path
      twice, and every path is plain, for any distinct keys other than the
      resources directory `rk` and any distinct single-segment leading paths. */
  lemma SourcesDistinct(cs: seq<Node>, keys: seq<string>, rk: string, m: seq<seq<string>>)
    requires WellFormed(cs) && Distinct(keys) && rk !in keys
    requires Distinct(m) && forall x :: x in m ==> |x| == 1 && PlainPath(x)
    ensures var s := m + FragmentSources(cs, keys) + KeySources(cs, rk);
      Distinct(s) && forall k :: 0 <= k < |s| ==> PlainPath(s[k])
  {
    var f := FragmentSources(cs, keys);
    var r := KeySources(cs, rk);
    FragmentSourcesDistinct(cs, keys);
    KeySourcesDistinct(cs, rk);
    FragmentKeyApart(cs, keys, rk);
    ShortPathsApart(cs, keys, rk, m);
    DistinctThree(m, f, r);
    SourcesPlain(cs, keys, rk, m);
  }

  /** In a well-formed collection directory the collection archive never
      names two entries alike. */
  lemma CollectionNamesDistinct(cs: seq<Node>)
    requires WellFormed(cs)
    ensures Distinct(Names(EntriesOf(CollectionSources(cs), Rooted(CollectionName))))
  {
    KeysPlain();
    var k := Keys();
    assert "resources" !in k;
    var m := ManifestSources(cs);
    assert PlainPath(ManifestPath);
    SourcesDistinct(cs, k, "resources", m);
    NamesDistinct(CollectionSources(cs), Rooted(CollectionName));
  }

  /** `main`: prepare, then the individual archives, then the collection
      archive, all from the prepared directory; a crash while preparing
      ends the run before any archive is written. */
  method CreateAllZips(folder: CollectionFolder)
    returns (crashed: bool, individual: seq<(string, seq<Entry>)>, collection: seq<Entry>)
    modifies folder
    ensures crashed <==> HitsFile(old(folder.listing), Fragments)
    ensures crashed ==> individual == [] && collection == []
    ensures crashed ==> exists j :: CrashedAt(old(folder.listing), folder.listing, Fragments, j)
    ensures !crashed ==> && folder.listing == PrepareAll(old(folder.listing), Fragments)
                         && individual == IndividualZips(folder.listing, Keys())
                         && collection == EntriesOf(CollectionSources(folder.listing), Rooted(CollectionName))
  {
    crashed := folder.PrepareFragments();
    if crashed {
      return true, [], [];
    }
    individual := CreateIndividualFragmentZips(folder.listing);
    collection := CreateCollectionZip(folder.listing);
  }
}
