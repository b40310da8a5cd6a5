/**
 * `write_manifest` (scripts/generate_manifest.py): the three-field record and the
 * sibling temporary path it is written to before the rename.
 */
module ManifestWriter {
  import opened Wrappers
  import opened Names
  import opened Sorting
  import opened Scanner

  /** The JSON object written: `generatedAt`, `count`, `images`. */
  datatype Manifest = Manifest(generatedAt: string, count: int, images: seq<string>)

  /**
   * The `images: Iterable[str]` argument: a list can be traversed any number of
   * times; a one-shot iterator (a generator) is empty once traversed.
   */
  datatype ImageSource = Listed(items: seq<string>) | OneShot(items: seq<string>)

  /** `list(images)`: the items, and what is left of the argument afterwards. */
  function Materialize(src: ImageSource): (seq<string>, ImageSource)
  {
    match src
    case Listed(xs) => (xs, src)
    case OneShot(xs) => (xs, OneShot([]))
  }

  /**
   * The record as the code builds it: `count` from a first `list(images)` and
   * `images` from a second one.
   */
  function ManifestAsWritten(now: string, src: ImageSource): (m: Manifest)
    ensures m.generatedAt == now && m.count == |src.items|
  {
    var (first, rest) := Materialize(src);
    var (second, _) := Materialize(rest);
    Manifest(now, |first|, second)
  }

  /** Given a generator, the code records the right count and an empty image list. */
  lemma {:induction false} OneShotSourceLosesImages(now: string, xs: seq<string>)
    requires xs != []
    ensures ManifestAsWritten(now, OneShot(xs)).count == |xs|
    ensures ManifestAsWritten(now, OneShot(xs)).images == []
    ensures ManifestAsWritten(now, OneShot(xs)).count != |ManifestAsWritten(now, OneShot(xs)).images|
  {
    var (first, rest) := Materialize(OneShot(xs));
    assert first == xs && rest == OneShot([]);
  }

  /** The record with the argument materialized once, as the code evidently intends. */
  function BuildManifest(now: string, src: ImageSource): (m: Manifest)
    ensures m.generatedAt == now
    ensures m.images == src.items
    ensures m.count == |m.images|
  {
    var xs := Materialize(src).0;
    Manifest(now, |xs|, xs)
  }

  /** Both callers pass a list, and for a list the code as written builds the intended record. */
  lemma {:induction false} AsWrittenAgreesOnLists(now: string, xs: seq<string>)
    ensures ManifestAsWritten(now, Listed(xs)) == BuildManifest(now, Listed(xs))
    ensures ManifestAsWritten(now, Listed(xs)).count == |xs|
    ensures ManifestAsWritten(now, Listed(xs)).images == xs
  {
    var (first, rest) := Materialize(Listed(xs));
    assert first == xs && rest == Listed(xs);
  }

  /** Why `PurePath.with_suffix` raises `ValueError`. */
  datatype PathError = InvalidSuffix | EmptyName

  /** The name with its suffix (if any) replaced by `suffix`. */
  function ReplaceSuffix(name: string, suffix: string): string
  {
    var oldSuffix := Suffix(name);
    if oldSuffix == "" then name + suffix else name[..|name| - |oldSuffix|] + suffix
  }

  /** A suffix `with_suffix` accepts: empty or starting with a dot, not a lone dot, no separator. */
  predicate ValidSuffix(suffix: string)
  {
    NoSlash(suffix) && (suffix == "" || suffix[0] == '.') && suffix != "."
  }

  /**
   * `PurePath.with_suffix(suffix)`: `ValueError` for an invalid suffix or a path
   * without a name; otherwise the last component with its suffix replaced.
   */
  function WithSuffix(path: seq<string>, suffix: string): (r: Result<seq<string>, PathError>)
    ensures r.Ok? <==> ValidSuffix(suffix) && PathName(path) != ""
    ensures r.Ok? ==> |r.value| == |path| && r.value[..|path| - 1] == path[..|path| - 1]
  {
    if !ValidSuffix(suffix) then Err(InvalidSuffix)
    else if PathName(path) == "" then Err(EmptyName)
    else Ok(path[..|path| - 1] + [ReplaceSuffix(PathName(path), suffix)])
  }

  /** Replacing a name's suffix by that suffix plus `.tmp` appends `.tmp` to the name. */
  lemma ReplaceSuffixAppends(name: string)
    ensures ReplaceSuffix(name, Suffix(name) + ".tmp") == name + ".tmp"
    ensures NoSlash(name) ==> ValidSuffix(Suffix(name) + ".tmp")
  {
    var oldSuffix := Suffix(name);
    var i := LastDot(name);
    if 0 < i < |name| - 1 {
      assert oldSuffix == name[i..];
      assert name[..|name| - |oldSuffix|] + oldSuffix == name;
    }
  }

  /** `out_path.with_suffix(out_path.suffix + ".tmp")`. */
  function TempPath(out: seq<string>): (r: Result<seq<string>, PathError>)
    ensures r.Ok? ==> PathName(out) != "" && |r.value| == |out| && r.value[..|out| - 1] == out[..|out| - 1]
  {
    WithSuffix(out, Suffix(PathName(out)) + ".tmp")
  }

  /**
   * The temporary file is the output file's sibling, named by appending `.tmp`
   * to the full name; it is never the output path itself and never an image
   * the scanner would list. It fails only for a path without a name.
   */
  lemma TempPathSibling(out: seq<string>)
    requires forall c :: c in out ==> NoSlash(c)
    ensures TempPath(out).Ok? <==> PathName(out) != ""
    ensures TempPath(out).Ok? ==>
      && TempPath(out).value == out[..|out| - 1] + [PathName(out) + ".tmp"]
      && TempPath(out).value != out
      && !IsImage(PathName(TempPath(out).value))
  {
    var name := PathName(out);
    if |out| > 0 {
      assert name in out;
    }
    ReplaceSuffixAppends(name);
    if name != "" {
      var t := out[..|out| - 1] + [name + ".tmp"];
      assert TempPath(out) == Ok(t);
      assert |t[|t| - 1]| != |out[|out| - 1]|;
      assert PathName(t) == name + ".tmp";
      TmpNameIsNotImage(name);
    }
  }

  /** The default output `<dir>/manifest.json` is written through `<dir>/manifest.json.tmp`. */
  lemma DefaultTempPath(dir: seq<string>)
    requires forall c :: c in dir ==> NoSlash(c)
    ensures TempPath(dir + ["manifest.json"]) == Ok(dir + ["manifest.json.tmp"])
  {
    var name := "manifest.json";
    assert NoSlash(name) by {
      forall j | 0 <= j < |name| ensures name[j] != '/' {
      }
    }
    TempPathOfChild(dir, name);
    assert name + ".tmp" == "manifest.json.tmp";
  }

  lemma TempPathOfChild(dir: seq<string>, name: string)
    requires forall c :: c in dir ==> NoSlash(c)
    requires NoSlash(name) && name != ""
    ensures TempPath(dir + [name]) == Ok(dir + [name + ".tmp"])
  {
    var out := dir + [name];
    assert forall c :: c in out ==> c in dir || c == name;
    TempPathSibling(out);
    assert out[..|out| - 1] == dir;
  }

  /** What `write_manifest` hands to the filesystem: the record, the temporary path and the destination. */
  datatype Write = Write(tmp: seq<string>, dest: seq<string>, record: Manifest)

  /**
   * `write_manifest(out_path, images)`, without the I/O: the record, built as the
   * code builds it, and where it is written; `ValueError` from `with_suffix`
   * becomes `Err`. For a list the record is the intended one; for a one-shot
   * iterator it keeps the count and loses the images.
   */
  function WriteManifest(out: seq<string>, now: string, src: ImageSource): (r: Result<Write, PathError>)
    requires forall c :: c in out ==> NoSlash(c)
    ensures r.Ok? <==> PathName(out) != ""
    ensures r.Ok? ==>
      && r.value.dest == out
      && r.value.tmp == out[..|out| - 1] + [PathName(out) + ".tmp"]
      && r.value.record.generatedAt == now
      && r.value.record.count == |src.items|
    ensures r.Ok? && src.Listed? ==>
      && r.value.record == BuildManifest(now, src)
      && r.value.record.images == src.items
    ensures r.Ok? && src.OneShot? ==> r.value.record.images == []
  {
    TempPathSibling(out);
    match TempPath(out)
    case Err(e) => Err(e)
    case Ok(tmp) => Ok(Write(tmp, out, ManifestAsWritten(now, src)))
  }

  /** `run_once`: scan the tree, then write the manifest of the sorted list. */
  method RunOnce(tree: seq<Entry>, out: seq<string>, now: string) returns (r: Result<Write, PathError>)
    requires forall c :: c in out ==> NoSlash(c)
    ensures r.Ok? <==> PathName(out) != ""
    ensures r.Ok? ==> r.value.record.images == SortByKey(FilteredPaths(tree))
    ensures r.Ok? ==> r.value.record.count == |QualifyingIndices(tree, |tree|)|
  {
    var imgs := EnumerateImages(tree);
    r := WriteManifest(out, now, Listed(imgs));
  }
}
