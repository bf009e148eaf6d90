/**
 * The Sigma Pharmaceuticals builder: validate the fragment collection and
 * the client extension, and zip each one that validates.
 */
module SigmaBuild {
  import opened Wrappers
  import opened Text
  import opened FileTree

  // ---------------------------------------------------------------- archives

  /** `create_zip_from_directory`: no list given means the default list; a
      given list, even an empty one, is used as it is.  Entries are named by
      their path relative to the source directory. */
  method CreateZipFromDirectory(source: seq<Node>, excludePatterns: Option<seq<string>>)
    returns (archive: seq<Entry>, ok: bool)
    ensures archive == EntriesOf(Walk([], source, excludePatterns.GetOr(DefaultPatterns)), Relative)
    ensures ok
  {
    var patterns := if excludePatterns.None? then DefaultPatterns else excludePatterns.value;
    archive := WriteTree(source, [], patterns, Relative);
    ok := true;
  }

  /** `create_fragment_collection_zip`: always the default list, and every
      entry under the collection's own directory name. */
  method CreateFragmentCollectionZip(source: seq<Node>, collectionName: string)
    returns (archive: seq<Entry>, ok: bool)
    ensures archive == EntriesOf(Walk([], source, DefaultPatterns), Rooted(collectionName))
    ensures ok
  {
    archive := WriteTree(source, [], DefaultPatterns, Rooted(collectionName));
    ok := true;
  }

  /** Every entry of a collection archive lies under `collectionName/`, and
      none of them comes from beneath an excluded directory. */
  lemma CollectionArchiveLayout(source: seq<Node>, collectionName: string, k: nat)
    requires k < |Walk([], source, DefaultPatterns)|
    ensures var e := EntriesOf(Walk([], source, DefaultPatterns), Rooted(collectionName))[k];
      StartsWith(e.name, collectionName + "/") && NoneExcluded(e.source, DefaultPatterns)
  {
    var w := Walk([], source, DefaultPatterns);
    assert w[k] in w;
    WalkMembers([], source, DefaultPatterns, w[k]);
    assert w[k][0..] == w[k];
    var pre := collectionName + "/";
    assert (pre + Join(w[k], '/'))[..|pre|] == pre;
  }

  // ---------------------------------------------------------------- validation

  /** Reading `collection.json` with `json.load`. */
  datatype Parsed = Parsed(json: Json) | DecodeError | ReadError

  /** The keys of a written `fragment.json`. */
  const DescriptorKeys: set<string> :=
    {"fragmentEntryKey", "name", "type", "htmlPath", "cssPath", "jsPath",
     "configurationPath", "thumbnailPath", "icon"}

  /** `json.load(open(path))`: opening a directory raises, non-JSON text
      raises `JSONDecodeError`, and the binary thumbnail fails to decode as
      text. */
  function LoadJson(n: Node): Parsed
  {
    match n
    case Dir(_, _) => ReadError
    case File(_, c) =>
      match c
      case JsonText(j) => Parsed(j)
      case PlainText(_) => DecodeError
      case DescriptorFile(_) => Parsed(JObject(DescriptorKeys))
      case PlaceholderPng => ReadError
  }

  /** Python's `key in value`: keys of an object, items of a list,
      substrings of a string; `None` when the operator raises `TypeError`. */
  function JsonHas(j: Json, key: string): Option<bool>
  {
    match j
    case JObject(keys) => Some(key in keys)
    case JArray(items) => Some(JString(key) in items)
    case JString(s) => Some(Contains(s, key))
    case JScalar => None
  }

  const RequiredFields: seq<string> := ["fragmentCollectionKey", "name"]

  /** Why a collection passes or fails `validate_fragment_collection`.
      `Crashed` is an exception the function does not catch, which ends the
      whole script. */
  datatype Verdict = Valid(fragments: nat) | MissingManifest | InvalidJson
                   | MissingField(field: string) | NoFragments | Crashed

  /** A listed item counts as a fragment iff it is a directory, its name
      does not start with `.`, and it holds `fragment.json`.  Nothing else
      inside it matters. */
  predicate IsFragment(n: Node)
  {
    n.Dir? && !StartsWith(n.name, ".") && Lookup(n.children, "fragment.json").Some?
  }

  function FragmentCount(cs: seq<Node>): (r: nat)
    ensures r <= |cs|
  {
    if cs == [] then 0 else (if IsFragment(cs[0]) then 1 else 0) + FragmentCount(cs[1..])
  }

  /** The verdict of the manifest checks alone; `None` when they pass. */
  function ManifestVerdict(collection: seq<Node>): Option<Verdict>
  {
    match Lookup(collection, "collection.json")
    case None => Some(MissingManifest)
    case Some(m) =>
      match LoadJson(m)
      case ReadError => Some(Crashed)
      case DecodeError => Some(InvalidJson)
      case Parsed(j) => FieldsVerdict(j)
  }

  /** The required-field loop and the two subscripts that follow it. */
  function FieldsVerdict(j: Json): Option<Verdict>
  {
    match JsonHas(j, RequiredFields[0])
    case None => Some(Crashed)
    case Some(false) => Some(MissingField(RequiredFields[0]))
    case Some(true) =>
      match JsonHas(j, RequiredFields[1])
      case None => Some(Crashed)
      case Some(false) => Some(MissingField(RequiredFields[1]))
      case Some(true) => if j.JObject? then None else Some(Crashed)
  }

  /** `validate_fragment_collection`, phase by phase. */
  function CollectionVerdict(collection: seq<Node>): Verdict
  {
    match ManifestVerdict(collection)
    case Some(v) => v
    case None =>
      var n := FragmentCount(collection);
      if n == 0 then NoFragments else Valid(n)
  }

  /** `validate_fragment_collection`: the manifest checks in order, then a
      count over the collection's listing. */
  method ValidateFragmentCollection(collection: seq<Node>) returns (verdict: Verdict)
    ensures verdict == CollectionVerdict(collection)
  {
    var manifest := Lookup(collection, "collection.json");
    if manifest.None? {
      return MissingManifest;
    }
    var data := LoadJson(manifest.value);
    if data.ReadError? {
      return Crashed;
    }
    if data.DecodeError? {
      return InvalidJson;
    }
    var i := 0;
    while i < |RequiredFields|
      invariant 0 <= i <= |RequiredFields|
      invariant forall k :: 0 <= k < i ==> JsonHas(data.json, RequiredFields[k]) == Some(true)
    {
      var has := JsonHas(data.json, RequiredFields[i]);
      if has.None? {
        return Crashed;
      }
      if !has.value {
        return MissingField(RequiredFields[i]);
      }
      i := i + 1;
    }
    if !data.json.JObject? {
      return Crashed;
    }
    var count := 0;
    var items := collection;
    while items != []
      invariant count + FragmentCount(items) == FragmentCount(collection)
    {
      if IsFragment(items[0]) {
        count := count + 1;
      }
      items := items[1..];
    }
    if count == 0 {
      return NoFragments;
    }
    return Valid(count);
  }

  /** A missing manifest fails the validation, and so does every other
      manifest failure, whatever the subdirectories hold: they are looked
      at only after the manifest passes. */
  lemma ManifestCheckedFirst(a: seq<Node>, b: seq<Node>)
    requires Lookup(a, "collection.json") == Lookup(b, "collection.json")
    requires ManifestVerdict(a).Some?
    ensures CollectionVerdict(a) == CollectionVerdict(b) == ManifestVerdict(a).value
    ensures Lookup(a, "collection.json").None? ==> CollectionVerdict(a) == MissingManifest
  {
  }

  /** A `MissingField` verdict names the first required field the manifest
      lacks, in the order `fragmentCollectionKey`, `name`. */
  lemma MissingFieldIsFirst(collection: seq<Node>, f: string)
    requires CollectionVerdict(collection) == MissingField(f)
    ensures Lookup(collection, "collection.json").Some?
    ensures LoadJson(Lookup(collection, "collection.json").value).Parsed?
    ensures var j := LoadJson(Lookup(collection, "collection.json").value).json;
      exists k :: (0 <= k < |RequiredFields| && f == RequiredFields[k]
                   && JsonHas(j, f) == Some(false)
                   && forall k' :: 0 <= k' < k ==> JsonHas(j, RequiredFields[k']) == Some(true))
  {
    var j := LoadJson(Lookup(collection, "collection.json").value).json;
    if JsonHas(j, RequiredFields[0]) == Some(false) {
      assert f == RequiredFields[0];
    } else {
      assert f == RequiredFields[1];
    }
  }

  /** The collection validates iff its manifest is a JSON object holding
      both required keys and at least one fragment is found; the count is
      the number of fragments. */
  lemma ValidIff(collection: seq<Node>)
    ensures CollectionVerdict(collection).Valid?
        <==> (exists keys :: Lookup(collection, "collection.json").Some?
                 && LoadJson(Lookup(collection, "collection.json").value) == Parsed(JObject(keys))
                 && "fragmentCollectionKey" in keys && "name" in keys)
             && FragmentCount(collection) >= 1
    ensures CollectionVerdict(collection).Valid? ==> CollectionVerdict(collection).fragments == FragmentCount(collection)
  {
    if CollectionVerdict(collection).Valid? {
      var j := LoadJson(Lookup(collection, "collection.json").value).json;
      assert j == JObject(j.keys);
    }
  }

  /** Only `fragment.json` decides whether a directory is a fragment: a
      fragment missing `index.html`, `index.css`, `index.js` or
      `configuration.json` still counts, and adding them changes nothing. */
  lemma OtherFilesDoNotMatter(name: string, children: seq<Node>, other: string)
    requires other != "fragment.json"
    ensures IsFragment(Dir(name, Remove(children, other))) == IsFragment(Dir(name, children))
  {
    LookupRemoveOther(children, other, "fragment.json");
  }

  /** Why a client extension passes or fails `validate_client_extension`. */
  datatype ExtensionVerdict = ExtensionValid | MissingYaml | ExtensionCrashed

  /** `validate_client_extension`: only `client-extension.yaml` decides;
      the `assets` listing is reported, and raises only when `assets` is a
      plain file. */
  function ValidateClientExtension(extension: seq<Node>): (v: ExtensionVerdict)
    ensures Lookup(extension, "client-extension.yaml").None? ==> v == MissingYaml
  {
    if Lookup(extension, "client-extension.yaml").None? then MissingYaml
    else match Lookup(extension, "assets")
      case Some(File(_, _)) => ExtensionCrashed
      case _ => ExtensionValid
  }

  /** With `assets` missing, empty or full, the extension validates iff
      `client-extension.yaml` exists. */
  lemma ExtensionValidIff(extension: seq<Node>)
    requires Lookup(extension, "assets").None? || Lookup(extension, "assets").value.Dir?
    ensures ValidateClientExtension(extension) == ExtensionValid
        <==> Lookup(extension, "client-extension.yaml").Some?
    ensures ValidateClientExtension(extension) != ExtensionCrashed
  {
  }

  // ---------------------------------------------------------------- main

  const CollectionPath: seq<string> := ["fragment-collection", "sigma-pharmaceuticals-collection"]
  const CollectionName: string := "sigma-pharmaceuticals-collection"
  const ExtensionDir: string := "sigma-frontend-client-extension"

  /** What one run of the builder leaves behind. */
  datatype BuildReport = BuildReport(
    collectionZip: Option<seq<Entry>>, extensionZip: Option<seq<Entry>>,
    success: bool, exitCode: int)

  /** `main` and the `exit(0 if success else 1)` after it.  An uncaught
      exception ends the run with exit status 1, keeping what was already
      written. */
  method Build(cwd: seq<Node>) returns (report: BuildReport)
    ensures var coll := LookupPath(cwd, CollectionPath);
      var collOk := coll.Some? && CollectionVerdict(Listing(coll.value)).Valid?;
      var collCrash := coll.Some? && CollectionVerdict(Listing(coll.value)) == Crashed;
      var ext := Lookup(cwd, ExtensionDir);
      var extVerdict := if ext.Some? then Some(ValidateClientExtension(Listing(ext.value))) else None;
      && (report.collectionZip.Some? <==> collOk)
      && (collOk ==>
            report.collectionZip.value == EntriesOf(Walk([], Listing(coll.value), DefaultPatterns), Rooted(CollectionName)))
      && (report.extensionZip.Some? <==> !collCrash && extVerdict == Some(ExtensionValid))
      && (report.extensionZip.Some? ==>
            report.extensionZip.value == EntriesOf(Walk([], Listing(ext.value), DefaultPatterns), Relative))
      && (report.success <==> collOk && extVerdict == Some(ExtensionValid))
      && (report.exitCode == if report.success then 0 else 1)
  {
    var success := true;
    var collectionZip: Option<seq<Entry>> := None;
    var extensionZip: Option<seq<Entry>> := None;

    var coll := LookupPath(cwd, CollectionPath);
    if coll.Some? {
      var verdict := ValidateFragmentCollection(Listing(coll.value));
      if verdict == Crashed {
        return BuildReport(None, None, false, 1);
      }
      if verdict.Valid? {
        var archive, _ := CreateFragmentCollectionZip(Listing(coll.value), CollectionName);
        collectionZip := Some(archive);
      } else {
        success := false;
      }
    } else {
      success := false;
    }

    var ext := Lookup(cwd, ExtensionDir);
    if ext.Some? {
      var verdict := ValidateClientExtension(Listing(ext.value));
      if verdict == ExtensionCrashed {
        return BuildReport(collectionZip, None, false, 1);
      }
      if verdict == ExtensionValid {
        var archive, _ := CreateZipFromDirectory(Listing(ext.value), None);
        extensionZip := Some(archive);
      } else {
        success := false;
      }
    } else {
      success := false;
    }

    report := BuildReport(collectionZip, extensionZip, success, if success then 0 else 1);
  }
}
