/** The Compass IoT helpers: file labels, template file names and the keys of
    the SDK file map. Paths are slash-separated, as on the platforms the
    generator runs on. */
module CompassIot {
  import opened Text

  const PublicDocsBucket: string := "compass-public-docs"

  /** The URL `makeGcsUrl` builds under the public storage domain from a
      bucket and path segments; url.JoinPath itself is not modelled, so the
      URL is kept as the arguments it is made from. */
  datatype GcsUrl = GcsUrl(bucket: string, segments: seq<string>)

  /** path.Base / filepath.Base: the last element after trailing slashes are
      dropped; "." for the empty path and "/" for a path of slashes only. */
  function Base(p: string): (r: string)
    ensures r != []
    ensures r == "/" || '/' !in r
  {
    if p == [] then "."
    else
      var q := DropTrailingSlashes(p);
      if q == [] then "/" else LastElement(q)
  }

  function DropTrailingSlashes(p: string): (r: string)
    ensures |r| <= |p| && r == p[..|r|]
    ensures r == [] || r[|r| - 1] != '/'
  {
    if p != [] && p[|p| - 1] == '/' then DropTrailingSlashes(p[..|p| - 1]) else p
  }

  /** The text after the last slash (all of `p` when it has none). */
  function LastElement(p: string): (r: string)
    ensures '/' !in r
    ensures |r| <= |p| && r == p[|p| - |r|..]
    ensures |r| < |p| ==> p[|p| - |r| - 1] == '/'
  {
    if p == [] then []
    else if p[|p| - 1] == '/' then []
    else LastElement(p[..|p| - 1]) + [p[|p| - 1]]
  }

  /** The base of "dir/name" is "name". */
  lemma {:induction false} BaseOfJoin(dir: string, name: string)
    requires name != [] && '/' !in name
    ensures Base(dir + "/" + name) == name
    decreases |name|
  {
    var p := dir + "/" + name;
    assert p[|p| - 1] == name[|name| - 1];
    assert DropTrailingSlashes(p) == p;
    LastElementOfJoin(dir, name);
  }

  lemma {:induction false} LastElementOfJoin(dir: string, name: string)
    requires '/' !in name
    ensures LastElement(dir + "/" + name) == name
    decreases |name|
  {
    var p := dir + "/" + name;
    if name != [] {
      assert p[..|p| - 1] == dir + "/" + name[..|name| - 1];
      assert name[|name| - 1] in name;
      LastElementOfJoin(dir, name[..|name| - 1]);
    } else {
      assert p[|p| - 1] == '/';
    }
  }

  /** A path without a slash is its own last element. */
  lemma {:induction false} LastElementOfSlashFree(p: string)
    requires '/' !in p
    ensures LastElement(p) == p
    decreases |p|
  {
    if p != [] {
      assert p[|p| - 1] in p;
      assert '/' !in p[..|p| - 1];
      LastElementOfSlashFree(p[..|p| - 1]);
      assert p[..|p| - 1] + [p[|p| - 1]] == p;
    }
  }

  /** A bare file name is its own base name. */
  lemma BaseOfSlashFree(name: string)
    requires name != [] && '/' !in name
    ensures Base(name) == name
  {
    assert name[|name| - 1] in name;
    assert DropTrailingSlashes(name) == name;
    LastElementOfSlashFree(name);
  }

  /** filepath.Ext: the suffix from the last dot of the last path element,
      or "" when that element has no dot. */
  function Ext(p: string): (r: string)
    ensures |r| <= |p| && r == p[|p| - |r|..]
    ensures r == [] || (r[0] == '.' && '.' !in r[1..])
    ensures '/' !in r
  {
    if p == [] || p[|p| - 1] == '/' then []
    else if p[|p| - 1] == '.' then "."
    else
      var e := Ext(p[..|p| - 1]);
      if e == [] then [] else e + [p[|p| - 1]]
  }

  /** A last element without a dot has no extension. */
  lemma {:induction false} ExtWithoutDot(p: string)
    requires '.' !in LastElement(p)
    ensures Ext(p) == []
    decreases |p|
  {
    if p != [] && p[|p| - 1] != '/' {
      assert LastElement(p) == LastElement(p[..|p| - 1]) + [p[|p| - 1]];
      ExtWithoutDot(p[..|p| - 1]);
    }
  }

  /** An extension without dots or slashes is the extension. */
  lemma {:induction false} ExtOfName(stem: string, ext: string)
    requires '.' !in ext && '/' !in ext
    ensures Ext(stem + "." + ext) == "." + ext
    decreases |ext|
  {
    var p := stem + "." + ext;
    if ext != [] {
      assert p[..|p| - 1] == stem + "." + ext[..|ext| - 1];
      assert ext[|ext| - 1] in ext;
      ExtOfName(stem, ext[..|ext| - 1]);
      assert "." + ext[..|ext| - 1] + [ext[|ext| - 1]] == "." + ext;
    } else {
      assert p[|p| - 1] == '.';
    }
  }

  /** strings.TrimSuffix. */
  function TrimSuffix(s: string, suffix: string): (r: string)
    ensures HasSuffix(s, suffix) ==> r + suffix == s
    ensures !HasSuffix(s, suffix) ==> r == s
  {
    if HasSuffix(s, suffix) then s[..|s| - |suffix|] else s
  }

  /** `getLabel`: the file name without its final extension. */
  function Label(file: string): (r: string)
    ensures r + Ext(file) == file
  {
    TrimSuffix(file, Ext(file))
  }

  /** Only the final extension goes: "a.tar.gz" keeps "a.tar". */
  lemma LabelOfName(stem: string, ext: string)
    requires '.' !in ext && '/' !in ext
    ensures Label(stem + "." + ext) == stem
  {
    ExtOfName(stem, ext);
  }

  /** A name whose last element has no dot is its own label. */
  lemma LabelWithoutDot(file: string)
    requires '.' !in LastElement(file)
    ensures Label(file) == file
  {
    ExtWithoutDot(file);
  }

  /** The naming part of `getTemplateFile`: the base name of the proto file
      with every "proto" replaced by "html". */
  function TemplateFileName(protoFile: string): (r: string)
    ensures r != []
  {
    var r := ReplaceAll(Base(protoFile), "proto", "html");
    assert r != [] by { ReplaceAllNonEmpty(Base(protoFile), "proto", "html"); }
    r
  }

  lemma {:induction false} ReplaceAllNonEmpty(s: string, pat: string, rep: string)
    requires pat != [] && rep != [] && s != []
    ensures ReplaceAll(s, pat, rep) != []
  {
  }

  lemma ReplaceProtoExt()
    ensures ReplaceAll(".proto", "proto", "html") == ".html"
  {
    assert ".proto"[..5][0] != "proto"[0];
    assert ".proto"[1..] == "proto";
    assert "proto"[..5] == "proto";
    assert "proto"[5..] == "";
  }

  lemma ProtoNameHasNoSlash(stem: string)
    requires '/' !in stem
    ensures '/' !in stem + ".proto"
  {
    var name := stem + ".proto";
    forall i | 0 <= i < |name| ensures name[i] != '/' {
      if i < |stem| {
        assert name[i] == stem[i];
      } else {
        assert name[i] == ".proto"[i - |stem|];
      }
    }
  }

  lemma ReplaceInProtoName(stem: string)
    requires !Contains(stem, "proto")
    ensures ReplaceAll(stem + ".proto", "proto", "html") == stem + ".html"
  {
    assert stem + ".proto" == stem + ['.'] + "proto";
    ReplaceAllPastPrefix(stem, '.', "proto", "proto", "html");
    assert ['.'] + "proto" == ".proto";
    ReplaceProtoExt();
  }

  /** "dir/admin.proto" names the template "admin.html": the stem is kept
      whenever it holds no "proto" of its own. */
  lemma TemplateFileNameOfProto(dir: string, stem: string)
    requires '/' !in stem && !Contains(stem, "proto")
    ensures TemplateFileName(dir + "/" + stem + ".proto") == stem + ".html"
  {
    var name := stem + ".proto";
    assert dir + "/" + stem + ".proto" == dir + "/" + name;
    assert TemplateFileName(dir + "/" + name) == ReplaceAll(name, "proto", "html") by {
      ProtoNameHasNoSlash(stem);
      BaseOfJoin(dir, name);
    }
    ReplaceInProtoName(stem);
  }

  /** A bare "admin.proto" names the template "admin.html" as well. */
  lemma TemplateFileNameOfBareProto(stem: string)
    requires '/' !in stem && !Contains(stem, "proto")
    ensures TemplateFileName(stem + ".proto") == stem + ".html"
  {
    ProtoNameHasNoSlash(stem);
    BaseOfSlashFree(stem + ".proto");
    ReplaceInProtoName(stem);
  }

  /** The key `mapSdkFiles` derives from one SDK file: its base name with
      every '.', '_' and '-' removed, then trimmed. */
  function SdkKey(file: string): string {
    TrimSpace(ReplaceAll(ReplaceAll(ReplaceAll(Base(file), ".", ""), "_", ""), "-", ""))
  }

  /** A key holds none of the removed characters and no outer white space. */
  lemma SdkKeyIsClean(file: string)
    ensures var k := SdkKey(file);
      && '.' !in k && '_' !in k && '-' !in k
      && (k == [] || (!IsSpace(k[0]) && !IsSpace(k[|k| - 1])))
  {
    var a := ReplaceAll(Base(file), ".", "");
    var b := ReplaceAll(a, "_", "");
    var c := ReplaceAll(b, "-", "");
    DeleteCharRemovesIt(Base(file), '.');
    DeleteCharRemovesIt(a, '_');
    DeleteCharRemovesIt(b, '-');
    assert '.' !in c && '_' !in c;
  }

  /** The URL stored for one SDK file. */
  function SdkUrl(fileLabel: string, version: string, file: string): GcsUrl {
    GcsUrl(PublicDocsBucket, [fileLabel, version, file])
  }

  /** A map filled from a list in order, entry `key(f) := value(f)` for each
      file `f`, so that a later file overwrites an earlier one with the same
      key. */
  function FillMap(files: seq<string>, key: string -> string, value: string -> GcsUrl): map<string, GcsUrl> {
    if files == [] then map[]
    else
      var last := files[|files| - 1];
      FillMap(files[..|files| - 1], key, value)[key(last) := value(last)]
  }

  /** One more file sets the entry under its key. */
  lemma FillMapStep(files: seq<string>, key: string -> string, value: string -> GcsUrl, i: nat)
    requires i < |files|
    ensures FillMap(files[..i + 1], key, value) == FillMap(files[..i], key, value)[key(files[i]) := value(files[i])]
  {
    var prefix := files[..i + 1];
    assert prefix[..i] == files[..i] && prefix[i] == files[i];
  }

  /** The loop of `mapSdkFiles`: the files in order, each setting the entry
      under its key. */
  method FillEntries(files: seq<string>, key: string -> string, value: string -> GcsUrl) returns (m: map<string, GcsUrl>)
    ensures m == FillMap(files, key, value)
  {
    m := map[];
    var i := 0;
    while i < |files|
      invariant 0 <= i <= |files|
      invariant m == FillMap(files[..i], key, value)
    {
      FillMapStep(files, key, value, i);
      m := m[key(files[i]) := value(files[i])];
      i := i + 1;
    }
    assert files[..i] == files;
  }

  /** The keys are exactly the keys of the files. */
  lemma {:induction false} FillMapKeys(files: seq<string>, key: string -> string, value: string -> GcsUrl)
    ensures forall i :: 0 <= i < |files| ==> key(files[i]) in FillMap(files, key, value)
    ensures forall k :: k in FillMap(files, key, value) ==> exists i :: 0 <= i < |files| && key(files[i]) == k
  {
    if files != [] {
      var init := files[..|files| - 1];
      FillMapKeys(init, key, value);
      var last := files[|files| - 1];
      assert FillMap(files, key, value) == FillMap(init, key, value)[key(last) := value(last)];
      forall k | k in FillMap(files, key, value) ensures exists i :: 0 <= i < |files| && key(files[i]) == k {
        if k != key(last) {
          assert k in FillMap(init, key, value);
          var i :| 0 <= i < |init| && key(init[i]) == k;
          assert files[i] == init[i];
        }
      }
    }
  }

  /** The entry for a key is the value of the last file with that key. */
  lemma {:induction false} FillMapLastWins(files: seq<string>, key: string -> string, value: string -> GcsUrl, i: nat)
    requires i < |files|
    requires forall j :: i < j < |files| ==> key(files[j]) != key(files[i])
    ensures key(files[i]) in FillMap(files, key, value)
    ensures FillMap(files, key, value)[key(files[i])] == value(files[i])
  {
    if i < |files| - 1 {
      FillMapLastWins(files[..|files| - 1], key, value, i);
    }
  }

  /** The map `mapSdkFiles` returns: every SDK file's URL under its key. */
  function SdkMap(files: seq<string>, fileLabel: string, version: string): map<string, GcsUrl> {
    FillMap(files, SdkKey, SdkUrlFor(fileLabel, version))
  }

  /** `SdkUrl` for one label and version, as a function of the file. */
  function SdkUrlFor(fileLabel: string, version: string): string -> GcsUrl {
    f => SdkUrl(fileLabel, version, f)
  }

  /** One entry per distinct key, and the later file wins on a collision. */
  lemma SdkMapEntries(files: seq<string>, fileLabel: string, version: string)
    ensures forall k :: k in SdkMap(files, fileLabel, version) <==> exists i :: 0 <= i < |files| && SdkKey(files[i]) == k
    ensures forall i :: 0 <= i < |files| && (forall j :: i < j < |files| ==> SdkKey(files[j]) != SdkKey(files[i])) ==>
              SdkMap(files, fileLabel, version)[SdkKey(files[i])] == SdkUrl(fileLabel, version, files[i])
  {
    var value := SdkUrlFor(fileLabel, version);
    FillMapKeys(files, SdkKey, value);
    forall i | 0 <= i < |files| && (forall j :: i < j < |files| ==> SdkKey(files[j]) != SdkKey(files[i]))
      ensures SdkMap(files, fileLabel, version)[SdkKey(files[i])] == SdkUrl(fileLabel, version, files[i])
    {
      FillMapLastWins(files, SdkKey, value, i);
    }
  }
}
