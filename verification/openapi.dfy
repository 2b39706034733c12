/** The parts of a Swagger 2.0 document the translators fill in, and the
    pieces both translators build the same way: references, service tags,
    enum values and RPC operations. */
module OpenApi {
  import opened Text
  import opened Proto
  import opened Docs

  /** An entry of the type alias table: the schema type and format a proto
      type name stands for. */
  datatype Alias = Alias(typ: string, format: string)

  /** `additionalProperties` of a map field: never allowed freely, and typed
      by a single schema type. */
  datatype AdditionalProperties = AdditionalProperties(allows: bool, typ: string)

  /** A property schema; an empty string is a field that is not set. */
  datatype Schema = Schema(
    title: string,
    description: string,
    typ: string,
    format: string,
    ref: string,
    items: Option<Schema>,
    additional: Option<AdditionalProperties>,
    example: Option<Example>,
    xOrder: Option<string>)

  /** A schema with only a `$ref`. */
  function RefSchema(ref: string): (r: Schema)
    ensures r.ref == ref && r.typ == "" && r.items.None? && r.example.None? && r.xOrder.None?
  {
    Schema("", "", "", "", ref, None, None, None, None)
  }

  /** `WithExample` is applied only when the example differs from "". */
  function AttachExample(s: Schema, e: Example): (r: Schema)
    ensures r.example == (if e == NoExample then s.example else Some(e))
    ensures r.(example := s.example) == s
  {
    if e == NoExample then s else s.(example := Some(e))
  }

  /** A definition under `definitions`: an object with properties for a
      message, a list of value names for an enum. */
  datatype Definition =
    | ObjectDef(title: string, description: string, properties: map<string, Schema>)
    | EnumDef(title: string, description: string, values: seq<string>)
  {
    /** The JSON schema type written for the definition. */
    function Type(): string {
      if ObjectDef? then "object" else "string"
    }
  }

  /** The POST operation of one RPC path: its id, tags, summary and the
      references of the body parameter and the 200 response. */
  datatype Operation = Operation(id: string, tags: seq<string>, summary: string, bodyRef: string, responseRef: string)

  datatype Tag = Tag(name: string, description: string)

  /** `pkg.Name`: the key of a definition and the target of a reference. */
  function Qualified(pkg: string, name: string): (r: string)
    ensures |r| == |pkg| + 1 + |name|
    ensures r[..|pkg|] == pkg && r[|pkg|] == '.' && r[|pkg| + 1..] == name
  {
    pkg + "." + name
  }

  /** A character other than the dot is in a key only if it is in one of
      the two parts. */
  lemma QualifiedAvoids(pkg: string, name: string, c: char)
    requires c != '.' && c !in pkg && c !in name
    ensures c !in Qualified(pkg, name)
  {
    var q := Qualified(pkg, name);
    forall i | 0 <= i < |q| ensures q[i] != c {
      if i < |pkg| { assert q[i] == pkg[i]; }
      else if i > |pkg| { assert q[i] == name[i - |pkg| - 1]; }
    }
  }

  /** A type without a dot is taken to live in the current package. */
  function Qualify(pkg: string, t: string): (r: string)
    ensures '.' in r
    ensures '.' in t ==> r == t
    ensures '.' !in t ==> r == Qualified(pkg, t)
  {
    if '.' in t then t
    else
      var r := Qualified(pkg, t);
      assert r[|pkg|] == '.';
      r
  }

  const DefinitionsPrefix: string := "#/definitions/"

  function RefTo(name: string): (r: string)
    ensures |r| == |DefinitionsPrefix| + |name| && r[|DefinitionsPrefix|..] == name
    ensures r[..|DefinitionsPrefix|] == DefinitionsPrefix
  {
    DefinitionsPrefix + name
  }

  /** The operation `RPC` writes: the request and response types are always
      qualified with the current package, even when they already hold a dot. */
  function RpcOperation(pkg: string, service: string, rpc: string, comment: Option<Comment>,
                        requestType: string, returnsType: string): (r: Operation)
    ensures r.id == rpc && r.tags == [service]
    ensures r.summary == Description(comment)
    ensures r.bodyRef == DefinitionsPrefix + Qualified(pkg, requestType)
    ensures r.responseRef == DefinitionsPrefix + Qualified(pkg, returnsType)
    ensures |r.bodyRef| > |DefinitionsPrefix| && r.bodyRef[|DefinitionsPrefix|..] == Qualified(pkg, requestType)
    ensures |r.responseRef| > |DefinitionsPrefix| && r.responseRef[|DefinitionsPrefix|..] == Qualified(pkg, returnsType)
  {
    Operation(rpc, [service], Description(comment), RefTo(Qualified(pkg, requestType)), RefTo(Qualified(pkg, returnsType)))
  }

  /** The document header `Package` fills in. */
  datatype Header = Header(host: string, title: string, version: string)

  /** What a writer holds while it walks a file: whether the document
      exists yet, its header, the current package name, and the document's
      definitions, paths and tags. */
  datatype WriterState = WriterState(ready: bool, header: Option<Header>, packageName: string,
                                     definitions: map<string, Definition>, paths: map<string, Operation>,
                                     tags: seq<Tag>)

  /** What a stretch of the walk without a package declaration keeps:
      whether the document exists and the package name; and it removes no
      definition and no path. */
  predicate WalkKept(s: WriterState, t: WriterState) {
    && t.ready == s.ready && t.packageName == s.packageName
    && s.definitions.Keys <= t.definitions.Keys && s.paths.Keys <= t.paths.Keys
  }

  // Service tags

  predicate HasTag(tags: seq<Tag>, name: string) {
    exists i :: 0 <= i < |tags| && tags[i].name == name
  }

  predicate UniqueNames(tags: seq<Tag>) {
    forall i, j :: 0 <= i < j < |tags| ==> tags[i].name != tags[j].name
  }

  /** What `Service` does to the tag list: append the tag unless a tag with
      its name is already there. */
  function AddTag(tags: seq<Tag>, tag: Tag): (r: seq<Tag>)
    ensures HasTag(r, tag.name)
    ensures |tags| <= |r| && r[..|tags|] == tags
    ensures r == tags <==> HasTag(tags, tag.name)
    ensures r != tags ==> r == tags + [tag]
  {
    if HasTag(tags, tag.name) then tags
    else
      assert (tags + [tag])[|tags|].name == tag.name;
      tags + [tag]
  }

  /** Adding a tag keeps names unique. */
  lemma AddTagKeepsUnique(tags: seq<Tag>, tag: Tag)
    requires UniqueNames(tags)
    ensures UniqueNames(AddTag(tags, tag))
  {
    var r := AddTag(tags, tag);
    if r != tags {
      forall i, j | 0 <= i < j < |r| ensures r[i].name != r[j].name {
        if j == |tags| {
          assert r[i] == tags[i];
        }
      }
    }
  }

  /** Adding the same tag twice changes nothing the second time. */
  lemma AddTagIdempotent(tags: seq<Tag>, tag: Tag, other: Tag)
    requires other.name == tag.name
    ensures AddTag(AddTag(tags, tag), other) == AddTag(tags, tag)
  {
  }

  /** The scan of `Service` over the existing tags; it does not stop at the
      first match. */
  method FindTag(tags: seq<Tag>, name: string) returns (found: bool)
    ensures found == HasTag(tags, name)
  {
    found := false;
    var i := 0;
    while i < |tags|
      invariant 0 <= i <= |tags|
      invariant found <==> HasTag(tags[..i], name)
    {
      if tags[i].name == name {
        found := true;
      }
      assert tags[..i + 1] == tags[..i] + [tags[i]];
      i := i + 1;
    }
    assert tags[..i] == tags;
  }

  // Enums

  /** The names of the enum values, in order; other elements are skipped. */
  function EnumNames(elements: seq<Decl>): (r: seq<string>)
    ensures |r| <= |elements|
    ensures forall v :: v in r ==> EnumFieldDecl(v) in elements
    ensures forall i :: 0 <= i < |elements| && elements[i].EnumFieldDecl? ==> elements[i].name in r
  {
    if elements == [] then []
    else
      var init := elements[..|elements| - 1];
      var last := elements[|elements| - 1];
      assert forall d :: d in init ==> d in elements;
      (EnumNames(init) + if last.EnumFieldDecl? then [last.name] else [])
  }

  /** The names keep the order of the values: those of a concatenation are
      the names of each part, one after the other. */
  lemma {:induction false} EnumNamesConcat(a: seq<Decl>, b: seq<Decl>)
    ensures EnumNames(a + b) == EnumNames(a) + EnumNames(b)
    decreases |b|
  {
    if b == [] {
      assert a + b == a;
    } else {
      var init := b[..|b| - 1];
      var last := b[|b| - 1];
      assert (a + b)[..|a + b| - 1] == a + init;
      assert (a + b)[|a + b| - 1] == last;
      EnumNamesConcat(a, init);
    }
  }

  /** The loop of `Enum` that collects the value names. */
  method CollectEnumValues(elements: seq<Decl>) returns (values: seq<string>)
    ensures values == EnumNames(elements)
  {
    values := [];
    var i := 0;
    while i < |elements|
      invariant 0 <= i <= |elements|
      invariant values == EnumNames(elements[..i])
    {
      assert elements[..i + 1][..i] == elements[..i];
      if elements[i].EnumFieldDecl? {
        values := values + [elements[i].name];
      }
      i := i + 1;
    }
    assert elements[..i] == elements;
  }

  /** The definition `Enum` writes. */
  function EnumDefinition(comment: Option<Comment>, values: seq<string>, isFloat: string -> bool): (r: Definition)
    ensures r.EnumDef? && r.Type() == "string" && r.values == values
    ensures r.title == TitleAndExample(comment, isFloat).0 && r.description == Description(comment)
  {
    EnumDef(TitleAndExample(comment, isFloat).0, Description(comment), values)
  }
}
