/** The older standalone translator of main.go: the `SwaggerWriter` with its
    inline scalar-type mapping, numbering by position in the message, routes
    under "/twirp/" and an import walk that keeps only messages. */
module Legacy {
  import opened Text
  import opened Proto
  import opened Docs
  import opened OpenApi
  import opened CompassIot

  /** The schema types written directly; `bytes` is not one of them. */
  const LegacyPrimitives: set<string> := {"boolean", "integer", "number", "object", "string"}

  const TimestampType: string := "google.protobuf.Timestamp"

  /** The description a timestamp field gets instead of its comment's. */
  const Rfc3339Link: string := "[RFC 3339](https://www.ietf.org/rfc/rfc3339.txt)"

  /** The inline mapping of `Message`, as its chain of rewrites: type and
      format start as the proto type; bool becomes boolean/boolean, int64 and
      uint64 become string, anything then starting with "int" or "uint"
      becomes integer, double and float become number, a format equal to a
      type other than boolean is dropped, and the timestamp becomes string. */
  function ScalarType(t: string): (string, string) {
    var typ1 := if t == "bool" then "boolean" else t;
    var format := if t == "bool" then "boolean" else t;
    var typ2 := if typ1 == "int64" || typ1 == "uint64" then "string" else typ1;
    var typ3 := if HasPrefix(typ2, "int") || HasPrefix(typ2, "uint") then "integer" else typ2;
    var typ4 := if typ3 == "double" || typ3 == "float" then "number" else typ3;
    var format2 := if typ4 != "boolean" && typ4 == format then "" else format;
    if typ4 == TimestampType then ("string", format2) else (typ4, format2)
  }

  /** bool becomes boolean, with format "boolean". */
  lemma ScalarTypeOfBool(t: string)
    requires t == "bool"
    ensures ScalarType(t) == ("boolean", "boolean")
  {
    var b := "boolean";
    assert b[0] == 'b';
    assert !HasPrefix(b, "int") && !HasPrefix(b, "uint");
  }

  /** int64 and uint64 become string and keep their name as format. */
  lemma ScalarTypeOfInt64(t: string)
    requires t == "int64" || t == "uint64"
    ensures ScalarType(t) == ("string", t)
  {
    var s := "string";
    assert s[0] == 's';
    assert !HasPrefix(s, "int") && !HasPrefix(s, "uint");
  }

  /** Every other type starting with "int" or "uint" becomes integer with
      its name as format: int32 and uint32, but also a message type named
      "interval". */
  lemma ScalarTypeOfIntPrefix(t: string)
    requires t != "int64" && t != "uint64" && (HasPrefix(t, "int") || HasPrefix(t, "uint"))
    ensures ScalarType(t) == ("integer", if t == "integer" then "" else t)
  {
    var n := "integer";
    assert n[0] == 'i' && n[1] == 'n';
  }

  /** double and float become number, with their name as format. */
  lemma ScalarTypeOfFloat(t: string)
    requires t == "double" || t == "float"
    ensures ScalarType(t) == ("number", t)
  {
    assert t[0] == 'd' || t[0] == 'f';
  }

  /** The timestamp becomes string without a format. */
  lemma ScalarTypeOfTimestamp(t: string)
    requires t == TimestampType
    ensures ScalarType(t) == ("string", "")
  {
    assert t[0] == 'g';
  }

  /** A type no rewrite applies to keeps its name, with no format unless it
      is "boolean" itself. */
  lemma ScalarTypeUnmapped(t: string)
    requires t != "bool" && t != "int64" && t != "uint64" && t != "double" && t != "float" && t != TimestampType
    requires !HasPrefix(t, "int") && !HasPrefix(t, "uint")
    ensures ScalarType(t) == (t, if t == "boolean" then t else "")
  {
  }

  /** The example as a schema stores it: only when it differs from "". */
  function Attached(e: Example): (r: Option<Example>)
    ensures r.None? <==> e == NoExample
    ensures r.Some? ==> r.value == e
  {
    if e == NoExample then None else Some(e)
  }

  /** The property schema `Message` writes for a normal field at position
      `index` of the message's elements. */
  function LegacyFieldSchema(pkg: string, isFloat: string -> bool, f: Field, repeated: bool, index: int): Schema
  {
    var te := TitleAndExample(f.comment, isFloat);
    var title := te.0;
    var m := ScalarType(f.typ);
    var typ := m.0;
    var format := m.1;
    var desc := if f.typ == TimestampType then Rfc3339Link else Description(f.comment);
    var xOrder := Some(Itoa(index));
    if typ in LegacyPrimitives then
      var s := AttachExample(Schema(title, desc, typ, format, "", None, None, None, xOrder), te.1);
      if repeated then
        Schema(title, desc, "array", format, "", Some(s.(title := "", description := "", format := "")), None, None, xOrder)
      else s
    else
      var ref := RefTo(Qualify(pkg, typ));
      if repeated then
        AttachExample(Schema(title, desc, "array", "", "", Some(RefSchema(ref)), None, None, xOrder), te.1)
      else
        AttachExample(Schema(title, desc, "", "", ref, None, None, None, xOrder), te.1)
  }

  /** What the schema of one field holds, case by case. */
  lemma LegacyFieldSchemaShape(pkg: string, isFloat: string -> bool, f: Field, repeated: bool, index: int)
    ensures var r := LegacyFieldSchema(pkg, isFloat, f, repeated, index);
      var m := ScalarType(f.typ);
      var te := TitleAndExample(f.comment, isFloat);
      var xOrder := Some(Itoa(index));
      && r.title == te.0
      && r.description == (if f.typ == TimestampType then Rfc3339Link else Description(f.comment))
      && r.xOrder == xOrder
      && r.additional.None?
      && (m.0 in LegacyPrimitives && !repeated ==>
            r.typ == m.0 && r.format == m.1 && r.example == Attached(te.1) && r.items.None? && r.ref == "")
      && (m.0 in LegacyPrimitives && repeated ==>
            r.typ == "array" && r.format == m.1 && r.example.None? && r.ref == ""
            && r.items == Some(Schema("", "", m.0, "", "", None, None, Attached(te.1), xOrder)))
      && (m.0 !in LegacyPrimitives && repeated ==>
            r.typ == "array" && r.ref == "" && r.example == Attached(te.1)
            && r.items == Some(RefSchema(RefTo(Qualify(pkg, m.0)))))
      && (m.0 !in LegacyPrimitives && !repeated ==>
            r.typ == "" && r.ref == RefTo(Qualify(pkg, m.0)) && r.example == Attached(te.1) && r.items.None?)
  {
  }

  /** A type the mapping leaves alone and that is not a primitive, such as
      `bytes`, `sint32` or `fixed64`, is written as a reference into the
      current package. */
  lemma UnmappedTypeIsReference(pkg: string, isFloat: string -> bool, f: Field, index: int)
    requires f.typ != "bool" && f.typ != "int64" && f.typ != "uint64" && f.typ != "double" && f.typ != "float"
    requires f.typ != TimestampType && !HasPrefix(f.typ, "int") && !HasPrefix(f.typ, "uint")
    requires f.typ !in LegacyPrimitives && '.' !in f.typ
    ensures LegacyFieldSchema(pkg, isFloat, f, false, index).ref == RefTo(Qualified(pkg, f.typ))
  {
    ScalarTypeUnmapped(f.typ);
    LegacyFieldSchemaShape(pkg, isFloat, f, false, index);
  }

  /** The properties of a message: only normal fields count, each under its
      name and numbered by its position among all the elements; a later field
      overwrites an earlier one of the same name. */
  function LegacyProperties(pkg: string, isFloat: string -> bool, elements: seq<Decl>): map<string, Schema> {
    if elements == [] then map[]
    else
      var props := LegacyProperties(pkg, isFloat, elements[..|elements| - 1]);
      var last := elements[|elements| - 1];
      if last.NormalFieldDecl? then
        props[last.field.name := LegacyFieldSchema(pkg, isFloat, last.field, last.repeated, |elements| - 1)]
      else props
  }

  /** The properties are named exactly by the normal fields: map fields and
      one-of blocks give none. */
  lemma {:induction false} LegacyPropertiesKeys(pkg: string, isFloat: string -> bool, elements: seq<Decl>)
    ensures forall k :: k in LegacyProperties(pkg, isFloat, elements) <==>
              exists i :: 0 <= i < |elements| && elements[i].NormalFieldDecl? && elements[i].field.name == k
  {
    if elements != [] {
      var init := elements[..|elements| - 1];
      LegacyPropertiesKeys(pkg, isFloat, init);
      LegacyPropertiesStepKeys(pkg, isFloat, elements);
      forall k | k in LegacyProperties(pkg, isFloat, elements)
        ensures exists i :: 0 <= i < |elements| && elements[i].NormalFieldDecl? && elements[i].field.name == k
      {
        if k in LegacyProperties(pkg, isFloat, init) {
          var i :| 0 <= i < |init| && init[i].NormalFieldDecl? && init[i].field.name == k;
          assert elements[i] == init[i];
        }
      }
      forall k | exists i :: 0 <= i < |elements| && elements[i].NormalFieldDecl? && elements[i].field.name == k
        ensures k in LegacyProperties(pkg, isFloat, elements)
      {
        var i :| 0 <= i < |elements| && elements[i].NormalFieldDecl? && elements[i].field.name == k;
        if i < |init| {
          assert init[i] == elements[i];
        }
      }
    }
  }

  /** One element adds at most its own name to the keys, and only when it
      is a normal field. */
  lemma LegacyPropertiesStepKeys(pkg: string, isFloat: string -> bool, elements: seq<Decl>)
    requires elements != []
    ensures var last := elements[|elements| - 1];
            forall k :: k in LegacyProperties(pkg, isFloat, elements) <==>
              k in LegacyProperties(pkg, isFloat, elements[..|elements| - 1]) || (last.NormalFieldDecl? && last.field.name == k)
  {
  }

  /** The property of a normal field no later normal field shadows is that
      field's schema, numbered with its own position. */
  lemma {:induction false} LegacyPropertyOfField(pkg: string, isFloat: string -> bool, elements: seq<Decl>, i: nat)
    requires i < |elements| && elements[i].NormalFieldDecl?
    requires forall j :: i < j < |elements| && elements[j].NormalFieldDecl? ==> elements[j].field.name != elements[i].field.name
    ensures elements[i].field.name in LegacyProperties(pkg, isFloat, elements)
    ensures LegacyProperties(pkg, isFloat, elements)[elements[i].field.name] ==
            LegacyFieldSchema(pkg, isFloat, elements[i].field, elements[i].repeated, i)
  {
    if i < |elements| - 1 {
      var init := elements[..|elements| - 1];
      assert init[i] == elements[i];
      LegacyPropertyOfField(pkg, isFloat, init, i);
    }
  }

  /** The loop of `Message` over the elements. */
  method LegacyAddFields(pkg: string, isFloat: string -> bool, elements: seq<Decl>) returns (props: map<string, Schema>)
    ensures props == LegacyProperties(pkg, isFloat, elements)
  {
    props := map[];
    var i := 0;
    while i < |elements|
      invariant 0 <= i <= |elements|
      invariant props == LegacyProperties(pkg, isFloat, elements[..i])
    {
      assert elements[..i + 1][..i] == elements[..i];
      var e := elements[i];
      if e.NormalFieldDecl? {
        props := props[e.field.name := LegacyFieldSchema(pkg, isFloat, e.field, e.repeated, i)];
      }
      i := i + 1;
    }
    assert elements[..i] == elements;
  }

  /** The definition `Message` writes: the plain description, with no list
      of fields. */
  function LegacyDefinition(pkg: string, isFloat: string -> bool, comment: Option<Comment>, elements: seq<Decl>): (r: Definition)
    ensures r.ObjectDef? && r.Type() == "object"
    ensures r.title == TitleAndExample(comment, isFloat).0 && r.description == Description(comment)
    ensures r.properties == LegacyProperties(pkg, isFloat, elements)
  {
    ObjectDef(TitleAndExample(comment, isFloat).0, Description(comment), LegacyProperties(pkg, isFloat, elements))
  }

  // Routes

  const TwirpSegment: string := "twirp"
  const TwirpPrefix: string := "/" + TwirpSegment + "/"

  /** The path `RPC` registers an operation under. */
  function LegacyRoute(pkg: string, service: string, rpc: string): (r: string)
    ensures HasPrefix(r, TwirpPrefix)
  {
    TwirpPrefix + Qualified(pkg, service) + "/" + rpc
  }

  lemma TwirpSegmentHasNoSlash()
    ensures '/' !in TwirpSegment
  {
    var s := TwirpSegment;
    assert s == ['t', 'w', 'i', 'r', 'p'];
  }

  /** Without slashes in the names, the path splits into an empty segment,
      "twirp", `pkg.Service` and the RPC name: the service name is used as
      it is. */
  lemma LegacyRouteSegments(pkg: string, service: string, rpc: string)
    requires '/' !in pkg && '/' !in service && '/' !in rpc
    ensures Split(LegacyRoute(pkg, service, rpc), '/') == ["", TwirpSegment, Qualified(pkg, service), rpc]
  {
    QualifiedAvoids(pkg, service, '/');
    TwirpSegmentHasNoSlash();
    assert LegacyRoute(pkg, service, rpc) == "/" + TwirpSegment + "/" + Qualified(pkg, service) + "/" + rpc;
    SlashSegments(TwirpSegment, Qualified(pkg, service), rpc);
  }

  /** Every route lies under "/twirp/". */
  predicate TwirpRoutes(paths: map<string, Operation>) {
    forall k :: k in paths ==> HasPrefix(k, TwirpPrefix)
  }

  /** The definitions an imported file can leave behind: no key is removed,
      and every entry that is new or changed is an object, never an enum. */
  predicate OnlyObjectsWritten(before: map<string, Definition>, after: map<string, Definition>) {
    && before.Keys <= after.Keys
    && forall k :: k in after && (k !in before || after[k] != before[k]) ==> after[k].ObjectDef?
  }

  const AnnotationsProto: string := "google/api/annotations.proto"

  /** The document `parse` saves. */
  datatype Document = Document(header: Option<Header>, definitions: map<string, Definition>,
                               paths: map<string, Operation>, tags: seq<Tag>)

  /** What `parse` returns: the error for an output that would overwrite the
      input, the error of a file that cannot be loaded, a panic during the
      walk, or the saved document. */
  datatype ParseResult = OutputIsInput | InputUnreadable | Panicked | Saved(doc: Document)

  // The walk, as a function of the writer's state

  /** The writer's fixed inputs, which the walk reads but never changes. */
  datatype LegacyConfig = LegacyConfig(hostname: string, filename: string, version: Option<string>,
                                       files: Files, isFloat: string -> bool)

  /** The state a writer starts from: no document yet. */
  const InitialState: WriterState := WriterState(false, None, "", map[], map[], [])

  /** What the nested walk of an imported file leaves alone: whether the
      document exists, its header, paths and tags; and it writes only
      object definitions. */
  predicate LegacyImportKept(s: WriterState, t: WriterState) {
    && t.ready == s.ready && t.header == s.header && t.paths == s.paths && t.tags == s.tags
    && OnlyObjectsWritten(s.definitions, t.definitions)
  }

  /** Writing objects only, twice, writes objects only. */
  lemma OnlyObjectsWrittenTrans(a: map<string, Definition>, b: map<string, Definition>, c: map<string, Definition>)
    requires OnlyObjectsWritten(a, b) && OnlyObjectsWritten(b, c)
    ensures OnlyObjectsWritten(a, c)
  {
    forall k | k in c && (k !in a || c[k] != a[k])
      ensures c[k].ObjectDef?
    {
      if k in b && c[k] == b[k] {
        assert k !in a || b[k] != a[k];
      }
    }
  }

  /** `Message` or `Enum` on `d`: its definition under `pkg.Name`, replacing
      any earlier one; `None` is the panic on a missing definitions map. */
  function LegacyDefineStep(c: LegacyConfig, s: WriterState, d: Decl): Option<WriterState>
    requires d.MessageDecl? || d.EnumDecl?
  {
    if !s.ready then None
    else
      var def := if d.MessageDecl? then LegacyDefinition(s.packageName, c.isFloat, d.comment, d.elements)
                 else EnumDefinition(d.comment, EnumNames(d.elements), c.isFloat);
      Some(s.(definitions := s.definitions[Qualified(s.packageName, d.name) := def]))
  }

  /** `Import` from state `s`: annotations imports change nothing; a file
      that cannot be loaded panics; otherwise the file is walked and the
      package name restored. Nesting deeper than `fuel` counts as a panic. */
  function LegacyImportStep(c: LegacyConfig, s: WriterState, file: string, fuel: nat): (r: Option<WriterState>)
    decreases fuel, 0
    ensures r.Some? ==> LegacyImportKept(s, r.value) && r.value.packageName == s.packageName
  {
    if Contains(file, AnnotationsProto) then Some(s)
    else if file !in c.files || fuel == 0 then None
    else
      match LegacyImportedElementsStep(c, s, c.files[file], fuel - 1)
      case None => None
      case Some(t) => Some(t.(packageName := s.packageName))
  }

  /** The nested walk of an imported file over `elements`, in order; it
      stops at the first panic. */
  function LegacyImportedElementsStep(c: LegacyConfig, s: WriterState, elements: seq<Decl>, fuel: nat): (r: Option<WriterState>)
    decreases fuel, 1, elements
    ensures r.Some? ==> LegacyImportKept(s, r.value)
  {
    if elements == [] then Some(s)
    else
      match LegacyImportedDeclStep(c, s, elements[0], fuel)
      case None => None
      case Some(t) =>
        var r := LegacyImportedElementsStep(c, t, elements[1..], fuel);
        if r.Some? then OnlyObjectsWrittenTrans(s.definitions, t.definitions, r.value.definitions); r
        else r
  }

  /** The nested walk on one declaration: its handler, then its children. */
  function LegacyImportedDeclStep(c: LegacyConfig, s: WriterState, d: Decl, fuel: nat): (r: Option<WriterState>)
    decreases fuel, 1, d, 1
    ensures r.Some? ==> LegacyImportKept(s, r.value)
  {
    match LegacyImportedHandleStep(c, s, d, fuel)
    case None => None
    case Some(t) =>
      if d.IsContainer() then
        var r := LegacyImportedElementsStep(c, t, d.elements, fuel);
        if r.Some? then OnlyObjectsWrittenTrans(s.definitions, t.definitions, r.value.definitions); r
        else r
      else Some(t)
  }

  /** The handlers of the nested walk: a package declaration only sets the
      package name, imports nest, messages are defined, and everything
      else, enums included, is ignored. */
  function LegacyImportedHandleStep(c: LegacyConfig, s: WriterState, d: Decl, fuel: nat): (r: Option<WriterState>)
    decreases fuel, 1, d, 0
    ensures r.Some? ==> LegacyImportKept(s, r.value)
  {
    if d.PackageDecl? then Some(s.(packageName := d.name))
    else if d.ImportDecl? then LegacyImportStep(c, s, d.filename, fuel)
    else if d.MessageDecl? then LegacyDefineStep(c, s, d)
    else Some(s)
  }

  /** The handlers of the main walk applied to one declaration. `Package`
      without a version, an RPC outside a service, and a message, enum or
      RPC before the document exists, panic. */
  function LegacyHandleStep(c: LegacyConfig, s: WriterState, d: Decl, parent: Option<string>, fuel: nat): Option<WriterState> {
    if d.PackageDecl? then
      if c.version.None? then None
      else Some(WriterState(true, Some(Header(c.hostname, Base(c.filename), c.version.value)), d.name, map[], map[], []))
    else if d.RpcDecl? then
      if parent.None? || !s.ready then None
      else
        var op := RpcOperation(s.packageName, parent.value, d.name, d.comment, d.requestType, d.returnsType);
        Some(s.(paths := s.paths[LegacyRoute(s.packageName, parent.value, d.name) := op]))
    else if d.MessageDecl? || d.EnumDecl? then LegacyDefineStep(c, s, d)
    else if d.ServiceDecl? then Some(s.(tags := AddTag(s.tags, Tag(d.name, Description(d.comment)))))
    else if d.ImportDecl? then LegacyImportStep(c, s, d.filename, fuel)
    else Some(s)
  }

  /** The walk of the main file over `elements`, in order, with every
      handler; it stops at the first panic. */
  function LegacyElementsStep(c: LegacyConfig, s: WriterState, elements: seq<Decl>, parent: Option<string>, fuel: nat): Option<WriterState>
    decreases elements
  {
    if elements == [] then Some(s)
    else
      match LegacyDeclStep(c, s, elements[0], parent, fuel)
      case None => None
      case Some(t) => LegacyElementsStep(c, t, elements[1..], parent, fuel)
  }

  /** The main walk on one declaration: its handler, then its children,
      which belong to it when it is a service. */
  function LegacyDeclStep(c: LegacyConfig, s: WriterState, d: Decl, parent: Option<string>, fuel: nat): Option<WriterState>
    decreases d
  {
    match LegacyHandleStep(c, s, d, parent, fuel)
    case None => None
    case Some(t) => if d.IsContainer() then LegacyElementsStep(c, t, d.elements, ChildParent(d), fuel) else Some(t)
  }

  // What the walk writes

  /** Without the VERSION variable, a walk over declarations that hold a
      package declaration panics: at the package declaration if nothing
      earlier does. */
  lemma {:induction false} WithoutVersionPanics(c: LegacyConfig, s: WriterState, elements: seq<Decl>, parent: Option<string>, fuel: nat)
    requires c.version.None? && PackageInAny(elements)
    ensures LegacyElementsStep(c, s, elements, parent, fuel).None?
    decreases elements
  {
    PackageInAnyCons(elements);
    var t := LegacyDeclStep(c, s, elements[0], parent, fuel);
    if PackageIn(elements[0]) {
      DeclWithoutVersionPanics(c, s, elements[0], parent, fuel);
    } else if t.Some? {
      WithoutVersionPanics(c, t.value, elements[1..], parent, fuel);
    }
  }

  lemma {:induction false} DeclWithoutVersionPanics(c: LegacyConfig, s: WriterState, d: Decl, parent: Option<string>, fuel: nat)
    requires c.version.None? && PackageIn(d)
    ensures LegacyDeclStep(c, s, d, parent, fuel).None?
    decreases d
  {
    var h := LegacyHandleStep(c, s, d, parent, fuel);
    if !d.PackageDecl? && h.Some? {
      WithoutVersionPanics(c, h.value, d.elements, ChildParent(d), fuel);
    }
  }

  lemma {:induction false} LegacyElementsKeep(c: LegacyConfig, s: WriterState, elements: seq<Decl>, parent: Option<string>, fuel: nat)
    requires !PackageInAny(elements)
    ensures var r := LegacyElementsStep(c, s, elements, parent, fuel);
            r.Some? ==> WalkKept(s, r.value)
    decreases elements
  {
    if elements != [] {
      PackageInAnyCons(elements);
      LegacyDeclKeep(c, s, elements[0], parent, fuel);
      var t := LegacyDeclStep(c, s, elements[0], parent, fuel);
      if t.Some? {
        LegacyElementsKeep(c, t.value, elements[1..], parent, fuel);
      }
    }
  }

  lemma {:induction false} LegacyDeclKeep(c: LegacyConfig, s: WriterState, d: Decl, parent: Option<string>, fuel: nat)
    requires !PackageIn(d)
    ensures var r := LegacyDeclStep(c, s, d, parent, fuel);
            r.Some? ==> WalkKept(s, r.value)
    decreases d
  {
    var h := LegacyHandleStep(c, s, d, parent, fuel);
    if h.Some? && d.IsContainer() {
      LegacyElementsKeep(c, h.value, d.elements, ChildParent(d), fuel);
    }
  }

  /** Each message and enum among `elements` is defined under the current
      package once the walk is through, when no package declaration
      intervenes. */
  lemma {:induction false} LegacyElementsDefine(c: LegacyConfig, s: WriterState, elements: seq<Decl>, parent: Option<string>, fuel: nat, i: nat)
    requires !PackageInAny(elements) && i < |elements|
    requires elements[i].MessageDecl? || elements[i].EnumDecl?
    requires LegacyElementsStep(c, s, elements, parent, fuel).Some?
    ensures Qualified(s.packageName, elements[i].name) in LegacyElementsStep(c, s, elements, parent, fuel).value.definitions
    decreases elements
  {
    PackageInAnyCons(elements);
    var d := elements[0];
    var t := LegacyDeclStep(c, s, d, parent, fuel).value;
    LegacyElementsKeep(c, t, elements[1..], parent, fuel);
    if i == 0 {
      var h := LegacyHandleStep(c, s, d, parent, fuel).value;
      assert Qualified(s.packageName, d.name) in h.definitions;
      LegacyElementsKeep(c, h, d.elements, ChildParent(d), fuel);
    } else {
      LegacyDeclKeep(c, s, d, parent, fuel);
      assert elements[1..][i - 1] == elements[i];
      LegacyElementsDefine(c, t, elements[1..], parent, fuel, i - 1);
    }
  }

  /** Declarations no handler looks at leave the state as it is. */
  lemma {:induction false} LegacyElementsSkipInert(c: LegacyConfig, s: WriterState, pre: seq<Decl>, rest: seq<Decl>, parent: Option<string>, fuel: nat)
    requires Inert(pre)
    ensures LegacyElementsStep(c, s, pre + rest, parent, fuel) == LegacyElementsStep(c, s, rest, parent, fuel)
    decreases |pre|
  {
    var e := pre + rest;
    if pre == [] {
      assert e == rest;
    } else {
      assert e[0] == pre[0] && e[1..] == pre[1..] + rest;
      assert LegacyDeclStep(c, s, pre[0], parent, fuel) == Some(s);
      LegacyElementsSkipInert(c, s, pre[1..], rest, parent, fuel);
    }
  }

  /** A file `parse` reads that declares its package `p` once, after
      declarations no handler looks at (`syntax`, options, comments): when
      the walk does not panic, each top-level message and enum is defined as
      `p.Name` in the saved document. */
  lemma ParseDefinesFile(c: LegacyConfig, pre: seq<Decl>, p: string, rest: seq<Decl>, fuel: nat, i: nat)
    requires Inert(pre) && !PackageInAny(rest) && i < |rest| && (rest[i].MessageDecl? || rest[i].EnumDecl?)
    requires LegacyElementsStep(c, InitialState, pre + [PackageDecl(p)] + rest, None, fuel).Some?
    ensures Qualified(p, rest[i].name) in LegacyElementsStep(c, InitialState, pre + [PackageDecl(p)] + rest, None, fuel).value.definitions
  {
    var e := [PackageDecl(p)] + rest;
    assert pre + [PackageDecl(p)] + rest == pre + e;
    LegacyElementsSkipInert(c, InitialState, pre, e, None, fuel);
    assert e[0] == PackageDecl(p) && e[1..] == rest;
    var t := LegacyDeclStep(c, InitialState, e[0], None, fuel).value;
    assert t.packageName == p;
    LegacyElementsDefine(c, t, rest, None, fuel, i);
  }

  // What an import writes

  /** The nested walk over declarations without a package declaration
      keeps the package name. */
  lemma {:induction false} LegacyImportedElementsKeepPackage(c: LegacyConfig, s: WriterState, elements: seq<Decl>, fuel: nat)
    requires !PackageInAny(elements)
    ensures var r := LegacyImportedElementsStep(c, s, elements, fuel);
            r.Some? ==> r.value.packageName == s.packageName
    decreases elements
  {
    if elements != [] {
      PackageInAnyCons(elements);
      LegacyImportedDeclKeepPackage(c, s, elements[0], fuel);
      var t := LegacyImportedDeclStep(c, s, elements[0], fuel);
      if t.Some? {
        LegacyImportedElementsKeepPackage(c, t.value, elements[1..], fuel);
      }
    }
  }

  lemma {:induction false} LegacyImportedDeclKeepPackage(c: LegacyConfig, s: WriterState, d: Decl, fuel: nat)
    requires !PackageIn(d)
    ensures var r := LegacyImportedDeclStep(c, s, d, fuel);
            r.Some? ==> r.value.packageName == s.packageName
    decreases d
  {
    var h := LegacyImportedHandleStep(c, s, d, fuel);
    if h.Some? && d.IsContainer() {
      LegacyImportedElementsKeepPackage(c, h.value, d.elements, fuel);
    }
  }

  /** Each message among the elements of an imported file is defined under
      the current package once the nested walk is through, when no package
      declaration intervenes. */
  lemma {:induction false} LegacyImportedElementsDefine(c: LegacyConfig, s: WriterState, elements: seq<Decl>, fuel: nat, i: nat)
    requires !PackageInAny(elements) && i < |elements| && elements[i].MessageDecl?
    requires LegacyImportedElementsStep(c, s, elements, fuel).Some?
    ensures Qualified(s.packageName, elements[i].name) in LegacyImportedElementsStep(c, s, elements, fuel).value.definitions
    decreases elements
  {
    PackageInAnyCons(elements);
    var d := elements[0];
    var t := LegacyImportedDeclStep(c, s, d, fuel).value;
    if i == 0 {
      assert Qualified(s.packageName, d.name) in LegacyImportedHandleStep(c, s, d, fuel).value.definitions;
    } else {
      LegacyImportedDeclKeepPackage(c, s, d, fuel);
      assert elements[1..][i - 1] == elements[i];
      LegacyImportedElementsDefine(c, t, elements[1..], fuel, i - 1);
    }
  }

  /** An import that is walked is the nested walk of the file, with the
      importer's package name put back. */
  lemma LegacyImportUnfold(c: LegacyConfig, s: WriterState, file: string, fuel: nat)
    requires !Contains(file, AnnotationsProto) && LegacyImportStep(c, s, file, fuel).Some?
    ensures file in c.files && fuel > 0
    ensures var r := LegacyImportedElementsStep(c, s, c.files[file], fuel - 1);
            r.Some? && LegacyImportStep(c, s, file, fuel).value == r.value.(packageName := s.packageName)
  {
  }

  /** The nested walk skips declarations no handler looks at. */
  lemma {:induction false} LegacyImportedElementsSkipInert(c: LegacyConfig, s: WriterState, pre: seq<Decl>, rest: seq<Decl>, fuel: nat)
    requires Inert(pre)
    ensures LegacyImportedElementsStep(c, s, pre + rest, fuel) == LegacyImportedElementsStep(c, s, rest, fuel)
    decreases |pre|
  {
    var e := pre + rest;
    if pre == [] {
      assert e == rest;
    } else {
      assert e[0] == pre[0] && e[1..] == pre[1..] + rest;
      assert LegacyImportedDeclStep(c, s, pre[0], fuel) == Some(s);
      LegacyImportedElementsSkipInert(c, s, pre[1..], rest, fuel);
    }
  }

  /** The nested walk of a file whose package declaration follows only
      declarations no handler looks at is the walk of the rest under that
      package. */
  lemma LegacyImportedPackageFirst(c: LegacyConfig, s: WriterState, pre: seq<Decl>, p: string, rest: seq<Decl>, fuel: nat)
    requires Inert(pre)
    ensures LegacyImportedElementsStep(c, s, pre + [PackageDecl(p)] + rest, fuel) ==
            LegacyImportedElementsStep(c, s.(packageName := p), rest, fuel)
  {
    var e := [PackageDecl(p)] + rest;
    assert pre + [PackageDecl(p)] + rest == pre + e;
    LegacyImportedElementsSkipInert(c, s, pre, e, fuel);
    assert e[0] == PackageDecl(p) && e[1..] == rest;
    assert LegacyImportedHandleStep(c, s, e[0], fuel) == Some(s.(packageName := p));
  }

  /** Importing a file that declares its package `p` once, after
      declarations no handler looks at, defines each of its top-level
      messages as `p.Name` and restores the importer's package name. */
  lemma LegacyImportDefinesFile(c: LegacyConfig, s: WriterState, file: string, fuel: nat, pre: seq<Decl>, p: string, rest: seq<Decl>, i: nat)
    requires !Contains(file, AnnotationsProto) && file in c.files && c.files[file] == pre + [PackageDecl(p)] + rest
    requires Inert(pre) && !PackageInAny(rest) && i < |rest| && rest[i].MessageDecl?
    requires LegacyImportStep(c, s, file, fuel).Some?
    ensures Qualified(p, rest[i].name) in LegacyImportStep(c, s, file, fuel).value.definitions
    ensures LegacyImportStep(c, s, file, fuel).value.packageName == s.packageName
  {
    LegacyImportUnfold(c, s, file, fuel);
    var f: nat := fuel - 1;
    var t := s.(packageName := p);
    LegacyImportedPackageFirst(c, s, pre, p, rest, f);
    var r := LegacyImportedElementsStep(c, t, rest, f);
    assert r == LegacyImportedElementsStep(c, s, c.files[file], f);
    LegacyImportedElementsDefine(c, t, rest, f, i);
    assert LegacyImportStep(c, s, file, fuel).value == r.value.(packageName := s.packageName);
  }

  /** `SwaggerWriter`. `version` is the VERSION environment variable, and
      `files` and `isFloat` are the loader and float recognition, as for the
      newer writer. `ready` is false until `Package` has created the
      definitions and paths. */
  class SwaggerWriter {
    const filename: string
    const hostname: string
    const version: Option<string>
    const files: Files
    const isFloat: string -> bool

    var ready: bool
    var header: Option<Header>
    var packageName: string
    var definitions: map<string, Definition>
    var paths: map<string, Operation>
    var tags: seq<Tag>

    /** Routes lie under "/twirp/" and tag names are unique. */
    predicate Valid()
      reads this
    {
      TwirpRoutes(paths) && UniqueNames(tags)
    }

    /** The fixed inputs the walk reads. */
    function Cfg(): LegacyConfig {
      LegacyConfig(hostname, filename, version, files, isFloat)
    }

    /** The state the walk changes, as a value. */
    function State(): WriterState
      reads this
    {
      WriterState(ready, header, packageName, definitions, paths, tags)
    }

    /** `NewSwaggerWriter`: an empty document. */
    constructor (filename: string, hostname: string, version: Option<string>, files: Files, isFloat: string -> bool)
      ensures this.filename == filename && this.hostname == hostname && this.version == version
      ensures this.files == files && this.isFloat == isFloat
      ensures !ready && header.None? && packageName == ""
      ensures definitions == map[] && paths == map[] && tags == []
      ensures Valid()
    {
      this.filename := filename;
      this.hostname := hostname;
      this.version := version;
      this.files := files;
      this.isFloat := isFloat;
      ready := false;
      header := None;
      packageName := "";
      definitions := map[];
      paths := map[];
      tags := [];
    }

    /** `Package`: a fresh document for package `name`; without a VERSION
        variable it panics and changes nothing. */
    method Package(name: string) returns (ok: bool)
      modifies this
      ensures ok == version.Some?
      ensures ok ==> ready && packageName == name && header == Some(Header(hostname, Base(filename), version.value))
      ensures ok ==> definitions == map[] && paths == map[] && tags == []
      ensures !ok ==> ready == old(ready) && packageName == old(packageName) && header == old(header)
      ensures !ok ==> definitions == old(definitions) && paths == old(paths) && tags == old(tags)
    {
      if version.None? {
        return false;
      }
      header := Some(Header(hostname, Base(filename), version.value));
      definitions := map[];
      paths := map[];
      tags := [];
      ready := true;
      packageName := name;
      ok := true;
    }

    /** `Service`: adds a tag for the service unless one of that name
        exists. */
    method Service(name: string, comment: Option<Comment>)
      modifies this`tags
      ensures tags == AddTag(old(tags), Tag(name, Description(comment)))
      ensures UniqueNames(old(tags)) ==> UniqueNames(tags)
    {
      var found := FindTag(tags, name);
      if !found {
        tags := tags + [Tag(name, Description(comment))];
      }
      if UniqueNames(old(tags)) {
        AddTagKeepsUnique(old(tags), Tag(name, Description(comment)));
      }
    }

    /** `RPC`: registers the operation under "/twirp/pkg.Service/Rpc",
        replacing an earlier one with the same route. A parent that is not a
        service, or a missing paths map, panics. */
    method RPC(parent: Option<string>, name: string, comment: Option<Comment>, requestType: string, returnsType: string)
      returns (ok: bool)
      modifies this`paths
      ensures ok == (parent.Some? && ready)
      ensures ok ==> paths == old(paths)[LegacyRoute(packageName, parent.value, name) :=
                       RpcOperation(packageName, parent.value, name, comment, requestType, returnsType)]
      ensures !ok ==> paths == old(paths)
      ensures TwirpRoutes(old(paths)) ==> TwirpRoutes(paths)
    {
      if parent.None? || !ready {
        return false;
      }
      var route := LegacyRoute(packageName, parent.value, name);
      paths := paths[route := RpcOperation(packageName, parent.value, name, comment, requestType, returnsType)];
      ok := true;
    }

    /** `Enum`: writes the definition `pkg.Name` with the value names. */
    method Enum(name: string, comment: Option<Comment>, elements: seq<Decl>) returns (ok: bool)
      modifies this`definitions
      ensures ok == ready
      ensures ok ==> definitions == old(definitions)[Qualified(packageName, name) :=
                       EnumDefinition(comment, EnumNames(elements), isFloat)]
      ensures !ok ==> definitions == old(definitions)
    {
      var values := CollectEnumValues(elements);
      if !ready {
        return false;
      }
      definitions := definitions[Qualified(packageName, name) := EnumDefinition(comment, values, isFloat)];
      ok := true;
    }

    /** `Message`: writes the definition `pkg.Name`, replacing any earlier
        one. */
    method Message(name: string, comment: Option<Comment>, elements: seq<Decl>) returns (ok: bool)
      modifies this`definitions
      ensures ok == ready
      ensures ok ==> definitions == old(definitions)[Qualified(packageName, name) :=
                       LegacyDefinition(packageName, isFloat, comment, elements)]
      ensures !ok ==> definitions == old(definitions)
      ensures OnlyObjectsWritten(old(definitions), definitions)
    {
      var props := LegacyAddFields(packageName, isFloat, elements);
      if !ready {
        return false;
      }
      var title := TitleAndExample(comment, isFloat).0;
      definitions := definitions[Qualified(packageName, name) := ObjectDef(title, Description(comment), props)];
      ok := true;
    }

    /** `Import`: only files under google/api/annotations.proto are skipped;
        a file that cannot be loaded panics. Otherwise the file is walked for
        its package, imports and messages, and the package name is restored.
        Paths and tags are outside the frame, and enums of imported files
        are not written. `fuel` bounds the depth of nested imports; running
        out counts as a crash. */
    method Import(file: string, fuel: nat) returns (ok: bool)
      modifies this`definitions, this`packageName
      decreases fuel, 0
      ensures ok == LegacyImportStep(Cfg(), old(State()), file, fuel).Some?
      ensures ok ==> State() == LegacyImportStep(Cfg(), old(State()), file, fuel).value
      ensures ok ==> packageName == old(packageName)
      ensures Contains(file, AnnotationsProto) ==> ok && definitions == old(definitions) && packageName == old(packageName)
      ensures !Contains(file, AnnotationsProto) && file !in files ==> !ok
      ensures OnlyObjectsWritten(old(definitions), definitions)
    {
      if Contains(file, AnnotationsProto) {
        return true;
      }
      if file !in files || fuel == 0 {
        return false;
      }
      var saved := packageName;
      ok := WalkImportedElements(files[file], fuel - 1);
      if ok {
        packageName := saved;
      }
    }

    /** The nested walk of an imported file: package, import and message
        handlers only. It stops at the first panic. */
    method WalkImportedElements(elements: seq<Decl>, fuel: nat) returns (ok: bool)
      modifies this`definitions, this`packageName
      decreases fuel, 1, elements
      ensures ok == LegacyImportedElementsStep(Cfg(), old(State()), elements, fuel).Some?
      ensures ok ==> State() == LegacyImportedElementsStep(Cfg(), old(State()), elements, fuel).value
      ensures OnlyObjectsWritten(old(definitions), definitions)
    {
      ok := true;
      var i := 0;
      while i < |elements| && ok
        invariant 0 <= i <= |elements|
        invariant OnlyObjectsWritten(old(definitions), definitions)
        invariant ok ==> LegacyImportedElementsStep(Cfg(), old(State()), elements, fuel) ==
                         LegacyImportedElementsStep(Cfg(), State(), elements[i..], fuel)
        invariant !ok ==> LegacyImportedElementsStep(Cfg(), old(State()), elements, fuel).None?
      {
        assert elements[i..][0] == elements[i] && elements[i..][1..] == elements[i + 1..];
        ghost var before := definitions;
        ok := WalkImportedDecl(elements[i], fuel);
        OnlyObjectsWrittenTrans(old(definitions), before, definitions);
        i := i + 1;
      }
    }

    /** The handlers of the nested walk applied to one declaration. */
    method HandleImported(d: Decl, fuel: nat) returns (ok: bool)
      modifies this`definitions, this`packageName
      decreases fuel, 1, d, 0
      ensures ok == LegacyImportedHandleStep(Cfg(), old(State()), d, fuel).Some?
      ensures ok ==> State() == LegacyImportedHandleStep(Cfg(), old(State()), d, fuel).value
      ensures OnlyObjectsWritten(old(definitions), definitions)
    {
      ok := true;
      if d.PackageDecl? {
        packageName := d.name;
      } else if d.ImportDecl? {
        ok := Import(d.filename, fuel);
      } else if d.MessageDecl? {
        ok := Message(d.name, d.comment, d.elements);
      }
    }

    method WalkImportedDecl(d: Decl, fuel: nat) returns (ok: bool)
      modifies this`definitions, this`packageName
      decreases fuel, 1, d, 1
      ensures ok == LegacyImportedDeclStep(Cfg(), old(State()), d, fuel).Some?
      ensures ok ==> State() == LegacyImportedDeclStep(Cfg(), old(State()), d, fuel).value
      ensures OnlyObjectsWritten(old(definitions), definitions)
    {
      ok := HandleImported(d, fuel);
      if ok && d.IsContainer() {
        ghost var before := definitions;
        ok := WalkImportedElements(d.elements, fuel);
        OnlyObjectsWrittenTrans(old(definitions), before, definitions);
      }
    }

    /** The walk of the main file with every handler. `parent` is the
        service the elements belong to, if any. It stops at the first
        panic. */
    method WalkElements(elements: seq<Decl>, parent: Option<string>, fuel: nat) returns (ok: bool)
      modifies this
      requires Valid()
      decreases elements
      ensures Valid()
      ensures ok == LegacyElementsStep(Cfg(), old(State()), elements, parent, fuel).Some?
      ensures ok ==> State() == LegacyElementsStep(Cfg(), old(State()), elements, parent, fuel).value
    {
      ok := true;
      var i := 0;
      while i < |elements| && ok
        invariant 0 <= i <= |elements|
        invariant Valid()
        invariant ok ==> LegacyElementsStep(Cfg(), old(State()), elements, parent, fuel) ==
                         LegacyElementsStep(Cfg(), State(), elements[i..], parent, fuel)
        invariant !ok ==> LegacyElementsStep(Cfg(), old(State()), elements, parent, fuel).None?
      {
        assert elements[i..][0] == elements[i] && elements[i..][1..] == elements[i + 1..];
        ok := WalkDecl(elements[i], parent, fuel);
        i := i + 1;
      }
    }

    /** The handlers of the main walk applied to one declaration. */
    method Handle(d: Decl, parent: Option<string>, fuel: nat) returns (ok: bool)
      modifies this
      requires Valid()
      ensures Valid()
      ensures ok == LegacyHandleStep(Cfg(), old(State()), d, parent, fuel).Some?
      ensures ok ==> State() == LegacyHandleStep(Cfg(), old(State()), d, parent, fuel).value
    {
      if d.MessageDecl? || d.EnumDecl? {
        ok := HandleDefinition(d, parent, fuel);
      } else if d.RpcDecl? || d.ImportDecl? {
        ok := HandleRoute(d, parent, fuel);
      } else {
        ok := HandleDocument(d, parent, fuel);
      }
    }

    /** `Message` and `Enum` in the main walk. */
    method HandleDefinition(d: Decl, parent: Option<string>, fuel: nat) returns (ok: bool)
      requires d.MessageDecl? || d.EnumDecl?
      modifies this`definitions
      ensures ok == LegacyHandleStep(Cfg(), old(State()), d, parent, fuel).Some?
      ensures ok ==> State() == LegacyHandleStep(Cfg(), old(State()), d, parent, fuel).value
    {
      if d.MessageDecl? {
        ok := Message(d.name, d.comment, d.elements);
      } else {
        ok := Enum(d.name, d.comment, d.elements);
      }
    }

    /** `RPC` and `Import` in the main walk; routes stay under "/twirp/". */
    method HandleRoute(d: Decl, parent: Option<string>, fuel: nat) returns (ok: bool)
      requires d.RpcDecl? || d.ImportDecl?
      requires TwirpRoutes(paths)
      modifies this`paths, this`definitions, this`packageName
      ensures TwirpRoutes(paths)
      ensures ok == LegacyHandleStep(Cfg(), old(State()), d, parent, fuel).Some?
      ensures ok ==> State() == LegacyHandleStep(Cfg(), old(State()), d, parent, fuel).value
    {
      if d.RpcDecl? {
        ok := RPC(parent, d.name, d.comment, d.requestType, d.returnsType);
      } else {
        ok := Import(d.filename, fuel);
      }
    }

    /** `Package`, `Service` and the declarations no handler looks at. */
    method HandleDocument(d: Decl, parent: Option<string>, fuel: nat) returns (ok: bool)
      requires !(d.MessageDecl? || d.EnumDecl? || d.RpcDecl? || d.ImportDecl?)
      requires Valid()
      modifies this
      ensures Valid()
      ensures ok == LegacyHandleStep(Cfg(), old(State()), d, parent, fuel).Some?
      ensures ok ==> State() == LegacyHandleStep(Cfg(), old(State()), d, parent, fuel).value
    {
      ok := true;
      if d.PackageDecl? {
        ok := Package(d.name);
      } else if d.ServiceDecl? {
        Service(d.name, d.comment);
      }
    }

    method WalkDecl(d: Decl, parent: Option<string>, fuel: nat) returns (ok: bool)
      modifies this
      requires Valid()
      decreases d
      ensures Valid()
      ensures ok == LegacyDeclStep(Cfg(), old(State()), d, parent, fuel).Some?
      ensures ok ==> State() == LegacyDeclStep(Cfg(), old(State()), d, parent, fuel).value
    {
      ok := Handle(d, parent, fuel);
      if ok && d.IsContainer() {
        ok := WalkElements(d.elements, ChildParent(d), fuel);
      }
    }
  }

  /** `parse`: refuses to overwrite the input, loads it, walks it with every
      handler and saves the document. */
  method Parse(hostname: string, filename: string, output: string, version: Option<string>,
               files: Files, isFloat: string -> bool, fuel: nat) returns (r: ParseResult)
    ensures r == OutputIsInput <==> filename == output
    ensures filename != output ==> (r == InputUnreadable <==> filename !in files)
    ensures filename != output && filename in files ==>
              var out := LegacyElementsStep(LegacyConfig(hostname, filename, version, files, isFloat),
                                            InitialState, files[filename], None, fuel);
              && (r == Panicked <==> out.None?)
              && (r.Saved? ==> r.doc == Document(out.value.header, out.value.definitions, out.value.paths, out.value.tags))
    ensures r.Saved? ==> TwirpRoutes(r.doc.paths) && UniqueNames(r.doc.tags)
  {
    if filename == output {
      return OutputIsInput;
    }
    var writer := new SwaggerWriter(filename, hostname, version, files, isFloat);
    if filename !in files {
      return InputUnreadable;
    }
    var ok := writer.WalkElements(files[filename], None, fuel);
    if !ok {
      return Panicked;
    }
    r := Saved(Document(writer.header, writer.definitions, writer.paths, writer.tags));
  }
}
