/** The proto-to-Swagger translator of internal/swagger/writer.go: the pure
    pieces `Message` is built from (field schemas, one-of flattening, field
    order, the message description, the RPC route) and the `Writer` whose
    handlers update the document one declaration at a time. */
module Translator {
  import opened Text
  import opened Proto
  import opened Docs
  import opened OpenApi
  import opened CompassIot

  /** The schema types a field schema is written with directly; any other
      type becomes a reference. */
  const Primitives: set<string> := {"boolean", "integer", "number", "object", "string", "bytes"}

  /** A field as `addField` receives it: the field, the key type of a map
      field ("" otherwise) and whether it is repeated. */
  datatype FieldUse = FieldUse(field: Field, mapKeyType: string, repeated: bool)

  /** One-of members, map fields and normal fields are fields; every other
      element (comments, one-of blocks, options, ...) is not. */
  function AsField(d: Decl): (r: Option<FieldUse>)
    ensures r.Some? <==> d.OneOfFieldDecl? || d.MapFieldDecl? || d.NormalFieldDecl?
    ensures r.Some? ==> r.value.field == d.field
    ensures r.Some? && r.value.repeated ==> d.NormalFieldDecl? && d.repeated
  {
    match d
    case OneOfFieldDecl(f) => Some(FieldUse(f, "", false))
    case MapFieldDecl(k, f) => Some(FieldUse(f, k, false))
    case NormalFieldDecl(f, rep) => Some(FieldUse(f, "", rep))
    case _ => None
  }

  /** The type and format after the alias lookup; a format equal to the type
      is dropped. */
  function ResolveType(aliases: map<string, Alias>, t: string): (r: (string, string))
    ensures r.0 == (if t in aliases then aliases[t].typ else t)
    ensures r.1 == (if t in aliases && aliases[t].format != aliases[t].typ then aliases[t].format else "")
  {
    var typ := if t in aliases then aliases[t].typ else t;
    var format := if t in aliases then aliases[t].format else t;
    (typ, if typ == format then "" else format)
  }

  /** A map field whose key type has an alias is written as an object. */
  predicate IsAliasedMap(aliases: map<string, Alias>, u: FieldUse) {
    u.mapKeyType != "" && u.mapKeyType in aliases
  }

  /** The schema type `addField` settles on for a field. */
  function SchemaType(aliases: map<string, Alias>, u: FieldUse): string {
    if IsAliasedMap(aliases, u) then "object" else ResolveType(aliases, u.field.typ).0
  }

  /** The property schema `addField` stores for field `u` at position
      `order` of the flattened element list. */
  function FieldSchema(pkg: string, aliases: map<string, Alias>, isFloat: string -> bool, u: FieldUse, order: int): Schema
  {
    var comment := TitleAndExample(u.field.comment, isFloat);
    var title := comment.0;
    var example := comment.1;
    var desc := Description(u.field.comment);
    var resolved := ResolveType(aliases, u.field.typ);
    var isMap := IsAliasedMap(aliases, u);
    var typ := if isMap then "object" else resolved.0;
    var format := if isMap then "" else resolved.1;
    var additional := if isMap then Some(AdditionalProperties(false, aliases[u.mapKeyType].typ)) else None;
    var xOrder := Some(Itoa(order));
    if typ in Primitives then
      var s := Schema(title, desc, typ, format, "", None, additional, None, None);
      if u.repeated then
        var item := AttachExample(s.(title := "", description := "", format := ""), example);
        Schema(title, desc, "array", format, "", Some(item), None, None, xOrder)
      else s
    else
      var ref := RefTo(Qualify(pkg, typ));
      if u.repeated then
        AttachExample(Schema(title, desc, "array", "", "", Some(RefSchema(ref)), None, None, xOrder), example)
      else
        AttachExample(Schema(title, desc, "", "", ref, None, None, None, xOrder), example)
  }

  /** What every field schema looks like: the comment's title and
      description; no `x-order` exactly for a non-repeated primitive; an
      array whose item is the primitive or the reference for a repeated
      field, the array keeping the format while the primitive item loses
      its title, description and format; the primitive type itself, or a
      reference to the qualified type, otherwise. */
  lemma FieldSchemaShape(pkg: string, aliases: map<string, Alias>, isFloat: string -> bool, u: FieldUse, order: int)
    ensures var r := FieldSchema(pkg, aliases, isFloat, u, order);
      var typ := SchemaType(aliases, u);
      && r.title == TitleAndExample(u.field.comment, isFloat).0
      && r.description == Description(u.field.comment)
      && r.xOrder == (if typ in Primitives && !u.repeated then None else Some(Itoa(order)))
      && (u.repeated ==> r.typ == "array" && r.items.Some? && r.ref == "")
      && (!u.repeated && typ in Primitives ==> r.typ == typ && r.items.None? && r.example.None?)
      && (!u.repeated && typ !in Primitives ==> r.ref == RefTo(Qualify(pkg, typ)) && r.typ == "" && r.items.None?)
      && (u.repeated && typ in Primitives ==>
            && r.format == (if IsAliasedMap(aliases, u) then "" else ResolveType(aliases, u.field.typ).1)
            && r.example.None?
            && r.items.value.typ == typ && r.items.value.title == "" && r.items.value.description == ""
            && r.items.value.format == "" && r.items.value.xOrder.None?)
      && (u.repeated && typ !in Primitives ==> r.items.value == RefSchema(RefTo(Qualify(pkg, typ))))
  {
  }

  /** A map field whose key type has an alias: an object with no format,
      whose `additionalProperties` take the alias type of the KEY, not of
      the value; it carries neither an order nor an example. */
  lemma AliasedMapSchema(pkg: string, aliases: map<string, Alias>, isFloat: string -> bool, u: FieldUse, order: int)
    requires IsAliasedMap(aliases, u) && !u.repeated
    ensures var r := FieldSchema(pkg, aliases, isFloat, u, order);
      && r.typ == "object" && r.format == ""
      && r.additional == Some(AdditionalProperties(false, aliases[u.mapKeyType].typ))
      && r.xOrder.None? && r.example.None?
  {
  }

  /** A non-repeated field with an alias keeps the alias type and the alias
      format, unless the two are equal. */
  lemma AliasedFieldSchema(pkg: string, aliases: map<string, Alias>, isFloat: string -> bool, u: FieldUse, order: int)
    requires !IsAliasedMap(aliases, u) && !u.repeated && u.field.typ in aliases
    requires aliases[u.field.typ].typ in Primitives
    ensures var r := FieldSchema(pkg, aliases, isFloat, u, order);
      var a := aliases[u.field.typ];
      && r.typ == a.typ
      && r.format == (if a.format == a.typ then "" else a.format)
      && r.additional.None?
  {
  }

  /** The example of a field's comment lands on the item of a repeated
      primitive and on the schema itself for references; an empty example
      is never written. */
  lemma FieldExamplePlacement(pkg: string, aliases: map<string, Alias>, isFloat: string -> bool, u: FieldUse, order: int)
    ensures var r := FieldSchema(pkg, aliases, isFloat, u, order);
      var e := TitleAndExample(u.field.comment, isFloat).1;
      var typ := SchemaType(aliases, u);
      && (u.repeated && typ in Primitives ==> r.items.value.example == (if e == NoExample then None else Some(e)))
      && (typ !in Primitives ==> r.example == (if e == NoExample then None else Some(e)))
      && (r.example.Some? ==> ExampleText(r.example.value) != "")
      && (r.items.Some? && r.items.value.example.Some? ==> ExampleText(r.items.value.example.value) != "")
  {
    ExampleEmptyOnlyWhenAbsent(u.field.comment, isFloat);
  }

  /** A field typed `other.Type` refers to "other.Type", while an RPC whose
      request type is `other.Type` refers to "pkg.other.Type": the two
      references never meet. */
  lemma DottedTypeRefsDiffer(pkg: string, t: string, service: string, rpc: string,
                             comment: Option<Comment>, returnsType: string)
    requires '.' in t
    ensures RpcOperation(pkg, service, rpc, comment, t, returnsType).bodyRef != RefTo(Qualify(pkg, t))
  {
    var op := RpcOperation(pkg, service, rpc, comment, t, returnsType);
    assert |op.bodyRef| == |DefinitionsPrefix| + |pkg| + 1 + |t|;
  }

  // One-of flattening and field order

  /** The members of the one-of blocks among `elements`, block after block. */
  function OneofMembers(elements: seq<Decl>): seq<Decl> {
    if elements == [] then []
    else
      var last := elements[|elements| - 1];
      OneofMembers(elements[..|elements| - 1]) + if last.OneofDecl? then last.elements else []
  }

  /** Every member of every one-of block is among the members. */
  lemma {:induction false} OneofMembersContains(elements: seq<Decl>, k: nat, m: nat)
    requires k < |elements| && elements[k].OneofDecl? && m < |elements[k].elements|
    ensures elements[k].elements[m] in OneofMembers(elements)
  {
    var init := elements[..|elements| - 1];
    if k < |init| {
      assert init[k] == elements[k];
      OneofMembersContains(init, k, m);
    }
  }

  /** One more element adds its members, if it is a one-of block. */
  lemma OneofMembersStep(elements: seq<Decl>, i: nat)
    requires i < |elements|
    ensures OneofMembers(elements[..i + 1]) ==
            OneofMembers(elements[..i]) + if elements[i].OneofDecl? then elements[i].elements else []
  {
    var prefix := elements[..i + 1];
    assert prefix[..i] == elements[..i] && prefix[i] == elements[i];
  }

  /** `allFields`: the message's elements, then every one-of member. */
  function AllFields(elements: seq<Decl>): (r: seq<Decl>)
    ensures |r| >= |elements| && r[..|elements|] == elements
  {
    elements + OneofMembers(elements)
  }

  /** One-of members are placed after every direct element of the message,
      so their index (their `x-order`) is larger than any direct field's. */
  lemma OneofMembersFollow(elements: seq<Decl>, k: nat, m: nat)
    requires k < |elements| && elements[k].OneofDecl? && m < |elements[k].elements|
    ensures exists j :: |elements| <= j < |AllFields(elements)| && AllFields(elements)[j] == elements[k].elements[m]
  {
    var members := OneofMembers(elements);
    var x := elements[k].elements[m];
    OneofMembersContains(elements, k, m);
    var p :| 0 <= p < |members| && members[p] == x;
    assert AllFields(elements)[|elements| + p] == x;
  }

  /** The loop of `Message` that appends the one-of members to the
      message's elements. */
  method FlattenFields(elements: seq<Decl>) returns (all: seq<Decl>)
    ensures all == AllFields(elements)
  {
    all := elements;
    var i := 0;
    while i < |elements|
      invariant 0 <= i <= |elements|
      invariant all == elements + OneofMembers(elements[..i])
    {
      OneofMembersStep(elements, i);
      if elements[i].OneofDecl? {
        all := all + elements[i].elements;
      }
      i := i + 1;
    }
    assert elements[..i] == elements;
  }

  /** `fieldOrder`: the name of every field of the flattened list, in order,
      duplicates included. */
  function FieldOrder(all: seq<Decl>): seq<string> {
    if all == [] then []
    else
      var last := all[|all| - 1];
      FieldOrder(all[..|all| - 1]) + if AsField(last).Some? then [last.field.name] else []
  }

  /** The field order names every field of the list, and nothing else. */
  lemma {:induction false} FieldOrderNames(all: seq<Decl>)
    ensures |FieldOrder(all)| <= |all|
    ensures forall n :: n in FieldOrder(all) <==> exists i :: 0 <= i < |all| && AsField(all[i]).Some? && all[i].field.name == n
  {
    if all != [] {
      var init := all[..|all| - 1];
      FieldOrderNames(init);
      forall n | n in FieldOrder(all)
        ensures exists i :: 0 <= i < |all| && AsField(all[i]).Some? && all[i].field.name == n
      {
        if n in FieldOrder(init) {
          var i :| 0 <= i < |init| && AsField(init[i]).Some? && init[i].field.name == n;
          assert all[i] == init[i];
        }
      }
      forall n | exists i :: 0 <= i < |all| && AsField(all[i]).Some? && all[i].field.name == n
        ensures n in FieldOrder(all)
      {
        var i :| 0 <= i < |all| && AsField(all[i]).Some? && all[i].field.name == n;
        if i < |init| {
          assert init[i] == all[i];
        }
      }
    }
  }

  /** `schemaProps`: each field's schema under its name, numbered by its
      position in the flattened list; a later field overwrites an earlier
      one of the same name. */
  function Properties(pkg: string, aliases: map<string, Alias>, isFloat: string -> bool, all: seq<Decl>): map<string, Schema> {
    if all == [] then map[]
    else
      var props := Properties(pkg, aliases, isFloat, all[..|all| - 1]);
      var last := all[|all| - 1];
      match AsField(last)
      case Some(u) => props[u.field.name := FieldSchema(pkg, aliases, isFloat, u, |all| - 1)]
      case None => props
  }

  /** The properties are named exactly by the field order. */
  lemma {:induction false} PropertiesKeys(pkg: string, aliases: map<string, Alias>, isFloat: string -> bool, all: seq<Decl>)
    ensures forall k :: k in Properties(pkg, aliases, isFloat, all) <==> k in FieldOrder(all)
  {
    if all != [] {
      PropertiesKeys(pkg, aliases, isFloat, all[..|all| - 1]);
    }
  }

  /** The property of a field that no later field shadows is that field's
      schema, numbered with its own index: `x-order` is the position in the
      flattened list, so comments, one-of blocks and other elements leave
      gaps. */
  lemma {:induction false} PropertyOfField(pkg: string, aliases: map<string, Alias>, isFloat: string -> bool, all: seq<Decl>, i: nat)
    requires i < |all| && AsField(all[i]).Some?
    requires forall j :: i < j < |all| && AsField(all[j]).Some? ==> all[j].field.name != all[i].field.name
    ensures all[i].field.name in Properties(pkg, aliases, isFloat, all)
    ensures Properties(pkg, aliases, isFloat, all)[all[i].field.name] == FieldSchema(pkg, aliases, isFloat, AsField(all[i]).value, i)
  {
    var n := all[i].field.name;
    var init := all[..|all| - 1];
    var last := all[|all| - 1];
    if i < |all| - 1 {
      assert init[i] == all[i];
      PropertyOfField(pkg, aliases, isFloat, init, i);
      assert AsField(last).Some? ==> last.field.name != n;
      var props := Properties(pkg, aliases, isFloat, init);
      assert n in props && props[n] == FieldSchema(pkg, aliases, isFloat, AsField(all[i]).value, i);
    }
  }

  /** One more element extends the field order by its name, if it is a
      field. */
  lemma FieldOrderStep(all: seq<Decl>, i: nat)
    requires i < |all|
    ensures FieldOrder(all[..i + 1]) == FieldOrder(all[..i]) + if AsField(all[i]).Some? then [all[i].field.name] else []
  {
    var prefix := all[..i + 1];
    assert prefix[..i] == all[..i] && prefix[i] == all[i];
  }

  /** One more element adds its schema under its name, if it is a field. */
  lemma PropertiesStep(pkg: string, aliases: map<string, Alias>, isFloat: string -> bool, all: seq<Decl>, i: nat)
    requires i < |all|
    ensures var before := Properties(pkg, aliases, isFloat, all[..i]);
      Properties(pkg, aliases, isFloat, all[..i + 1]) ==
        if AsField(all[i]).Some? then before[all[i].field.name := FieldSchema(pkg, aliases, isFloat, AsField(all[i]).value, i)]
        else before
  {
    var prefix := all[..i + 1];
    assert prefix[..i] == all[..i] && prefix[i] == all[i];
  }

  /** The loop of `Message` that calls `addField` for every field of the
      flattened list, with the field's index as its order. */
  method AddFields(pkg: string, aliases: map<string, Alias>, isFloat: string -> bool, all: seq<Decl>)
    returns (order: seq<string>, props: map<string, Schema>)
    ensures order == FieldOrder(all)
    ensures props == Properties(pkg, aliases, isFloat, all)
  {
    order := [];
    props := map[];
    var i := 0;
    while i < |all|
      invariant 0 <= i <= |all|
      invariant order == FieldOrder(all[..i])
      invariant props == Properties(pkg, aliases, isFloat, all[..i])
    {
      var u := AsField(all[i]);
      FieldOrderStep(all, i);
      PropertiesStep(pkg, aliases, isFloat, all, i);
      if u.Some? {
        order := order + [u.value.field.name];
        props := props[u.value.field.name := FieldSchema(pkg, aliases, isFloat, u.value, i)];
      }
      i := i + 1;
    }
    assert all[..i] == all;
  }

  // Message description

  /** The label in front of the field list, and the blank line before it. */
  const FieldsLabel: string := "Fields: "
  const FieldsHeading: string := "\n\n" + FieldsLabel

  /** The description of a message definition: the comment's description,
      followed by the list of field names when there is at least one, all
      trimmed. */
  function MessageDescription(comment: Option<Comment>, order: seq<string>): string {
    TrimSpace(if |order| > 0 then Description(comment) + FieldsHeading + Join(order, ", ") else Description(comment))
  }

  /** With fields, the description ends with "Fields: " and their names. */
  lemma MessageDescriptionListsFields(comment: Option<Comment>, order: seq<string>)
    requires |order| > 0
    requires var last := order[|order| - 1]; last != [] && !IsSpace(last[|last| - 1])
    ensures HasSuffix(MessageDescription(comment, order), FieldsLabel + Join(order, ", "))
  {
    var joined := Join(order, ", ");
    var t := FieldsLabel + joined;
    FieldListTail(order);
    assert Description(comment) + FieldsHeading + joined == (Description(comment) + "\n\n") + t;
    TrimSpaceKeepsSuffix(Description(comment) + "\n\n", t);
  }

  lemma FieldListTail(order: seq<string>)
    requires |order| > 0
    requires var last := order[|order| - 1]; last != [] && !IsSpace(last[|last| - 1])
    ensures var t := FieldsLabel + Join(order, ", "); !IsSpace(t[0]) && !IsSpace(t[|t| - 1])
  {
    var joined := Join(order, ", ");
    var last := order[|order| - 1];
    JoinSuffix(order, ", ");
    assert joined[|joined| - 1] == last[|last| - 1];
    var t := FieldsLabel + joined;
    assert t[0] == 'F';
    assert t[|t| - 1] == joined[|joined| - 1];
  }

  /** The definition `Message` writes. */
  function MessageDefinition(pkg: string, aliases: map<string, Alias>, isFloat: string -> bool,
                             comment: Option<Comment>, elements: seq<Decl>): (r: Definition)
    ensures r.ObjectDef? && r.Type() == "object"
    ensures r.title == TitleAndExample(comment, isFloat).0
    ensures r.description == MessageDescription(comment, FieldOrder(AllFields(elements)))
    ensures r.properties == Properties(pkg, aliases, isFloat, AllFields(elements))
  {
    var all := AllFields(elements);
    ObjectDef(TitleAndExample(comment, isFloat).0, MessageDescription(comment, FieldOrder(all)),
              Properties(pkg, aliases, isFloat, all))
  }

  // Routes

  /** The first path segment: the lower-cased service name without any
      "service". */
  function RouteBase(service: string): string {
    ReplaceAll(ToLower(service), "service", "")
  }

  /** The path `RPC` registers an operation under. */
  function RoutePath(pkg: string, service: string, rpc: string): string {
    "/" + RouteBase(service) + "/" + Qualified(pkg, service) + "/" + rpc
  }

  /** Without slashes in the names, the path splits into an empty segment,
      the base, `pkg.Service` and the RPC name. */
  lemma RouteSegments(pkg: string, service: string, rpc: string)
    requires '/' !in pkg && '/' !in service && '/' !in rpc
    ensures Split(RoutePath(pkg, service, rpc), '/') == ["", RouteBase(service), Qualified(pkg, service), rpc]
  {
    RouteBaseAvoids(service);
    QualifiedAvoids(pkg, service, '/');
    SlashSegments(RouteBase(service), Qualified(pkg, service), rpc);
  }

  lemma RouteBaseAvoids(service: string)
    requires '/' !in service
    ensures '/' !in RouteBase(service)
  {
    ToLowerAvoids(service, '/');
    DeleteAllKeepsChars(ToLower(service), "service");
  }

  lemma LowerService(s: string)
    requires s == "Service"
    ensures ToLower(s) == "service"
  {
    var r := ToLower(s);
    forall i | 0 <= i < 7 ensures r[i] == "service"[i] {
      assert r[i] == LowerChar(s[i]);
    }
  }

  /** "service" holds its first letter only once, so no occurrence of it
      can overlap another. */
  lemma ServiceLetters(pat: string)
    requires pat == "service"
    ensures forall j :: 1 <= j < |pat| ==> pat[j] != pat[0]
  {
    assert pat == ['s', 'e', 'r', 'v', 'i', 'c', 'e'];
  }

  /** A service named `<Stem>Service`, whose lower-cased stem does not
      itself hold "service", is served under the lower-cased stem:
      "/<stem>/<pkg>.<Stem>Service/<rpc>". */
  lemma RouteOfServiceNamed(pkg: string, stem: string, rpc: string)
    requires !Contains(ToLower(stem), "service")
    ensures RoutePath(pkg, stem + "Service", rpc) == "/" + ToLower(stem) + "/" + Qualified(pkg, stem + "Service") + "/" + rpc
  {
    var suffix := "Service";
    var pat := "service";
    LowerService(suffix);
    ToLowerConcat(stem, suffix);
    assert ToLower(stem + suffix) == ToLower(stem) + pat;
    ServiceLetters(pat);
    ReplaceAllBeforePattern(ToLower(stem), pat, "");
    assert RouteBase(stem + suffix) == ToLower(stem);
  }

  // The writer

  /** The writer's fixed inputs, which the walk reads but never changes. */
  datatype Config = Config(hostname: string, filename: string, version: string, files: Files,
                           aliases: map<string, Alias>, isFloat: string -> bool)

  /** What the nested walk of an imported file leaves alone: whether the
      document exists, its header, paths and tags; and it removes no
      definition. */
  predicate ImportKept(s: WriterState, t: WriterState) {
    && t.ready == s.ready && t.header == s.header && t.paths == s.paths && t.tags == s.tags
    && s.definitions.Keys <= t.definitions.Keys
  }

  /** `Message` or `Enum` on `d`: its definition under `pkg.Name`, replacing
      any earlier one; `None` is the panic on a missing definitions map. */
  function DefineStep(c: Config, s: WriterState, d: Decl): Option<WriterState>
    requires d.MessageDecl? || d.EnumDecl?
  {
    if !s.ready then None
    else
      var def := if d.MessageDecl? then MessageDefinition(s.packageName, c.aliases, c.isFloat, d.comment, d.elements)
                 else EnumDefinition(d.comment, EnumNames(d.elements), c.isFloat);
      Some(s.(definitions := s.definitions[Qualified(s.packageName, d.name) := def]))
  }

  /** `Import` from state `s`: skipped and unloadable files change nothing;
      otherwise the file is walked and the package name restored. `None` is
      a panic, or nesting deeper than `fuel`. */
  function ImportStep(c: Config, s: WriterState, file: string, fuel: nat): (r: Option<WriterState>)
    decreases fuel, 0
    ensures r.Some? ==> ImportKept(s, r.value) && r.value.packageName == s.packageName
  {
    if SkippedImport(file) || file !in c.files then Some(s)
    else if fuel == 0 then None
    else
      match ImportedElementsStep(c, s, c.files[file], fuel - 1)
      case None => None
      case Some(t) => Some(t.(packageName := s.packageName))
  }

  /** The nested walk of an imported file over `elements`, in order; it
      stops at the first panic. */
  function ImportedElementsStep(c: Config, s: WriterState, elements: seq<Decl>, fuel: nat): (r: Option<WriterState>)
    decreases fuel, 1, elements
    ensures r.Some? ==> ImportKept(s, r.value)
  {
    if elements == [] then Some(s)
    else
      match ImportedDeclStep(c, s, elements[0], fuel)
      case None => None
      case Some(t) => ImportedElementsStep(c, t, elements[1..], fuel)
  }

  /** The nested walk on one declaration: its handler, then its children. */
  function ImportedDeclStep(c: Config, s: WriterState, d: Decl, fuel: nat): (r: Option<WriterState>)
    decreases fuel, 1, d, 1
    ensures r.Some? ==> ImportKept(s, r.value)
  {
    match ImportedHandleStep(c, s, d, fuel)
    case None => None
    case Some(t) => if d.IsContainer() then ImportedElementsStep(c, t, d.elements, fuel) else Some(t)
  }

  /** The handlers of the nested walk: a package declaration only sets the
      package name, imports nest, messages and enums are defined, and
      everything else is ignored. */
  function ImportedHandleStep(c: Config, s: WriterState, d: Decl, fuel: nat): (r: Option<WriterState>)
    decreases fuel, 1, d, 0
    ensures r.Some? ==> ImportKept(s, r.value)
  {
    if d.PackageDecl? then Some(s.(packageName := d.name))
    else if d.ImportDecl? then ImportStep(c, s, d.filename, fuel)
    else if d.MessageDecl? || d.EnumDecl? then DefineStep(c, s, d)
    else Some(s)
  }

  /** The handlers of the main walk applied to one declaration. `Package`
      makes a fresh document; an RPC outside a service, or a message, enum
      or RPC before the document exists, panics. */
  function HandleStep(c: Config, s: WriterState, d: Decl, parent: Option<string>, fuel: nat): Option<WriterState> {
    if d.PackageDecl? then
      Some(WriterState(true, Some(Header(c.hostname, Base(c.filename), c.version)), d.name, map[], map[], []))
    else if d.RpcDecl? then
      if parent.None? || !s.ready then None
      else
        var op := RpcOperation(s.packageName, parent.value, d.name, d.comment, d.requestType, d.returnsType);
        Some(s.(paths := s.paths[RoutePath(s.packageName, parent.value, d.name) := op]))
    else if d.MessageDecl? || d.EnumDecl? then DefineStep(c, s, d)
    else if d.ServiceDecl? then Some(s.(tags := AddTag(s.tags, Tag(d.name, Description(d.comment)))))
    else if d.ImportDecl? then ImportStep(c, s, d.filename, fuel)
    else Some(s)
  }

  /** The walk of the main file over `elements`, in order, with every
      handler; it stops at the first panic. */
  function ElementsStep(c: Config, s: WriterState, elements: seq<Decl>, parent: Option<string>, fuel: nat): Option<WriterState>
    decreases elements
  {
    if elements == [] then Some(s)
    else
      match DeclStep(c, s, elements[0], parent, fuel)
      case None => None
      case Some(t) => ElementsStep(c, t, elements[1..], parent, fuel)
  }

  /** The main walk on one declaration: its handler, then its children,
      which belong to it when it is a service. */
  function DeclStep(c: Config, s: WriterState, d: Decl, parent: Option<string>, fuel: nat): Option<WriterState>
    decreases d
  {
    match HandleStep(c, s, d, parent, fuel)
    case None => None
    case Some(t) => if d.IsContainer() then ElementsStep(c, t, d.elements, ChildParent(d), fuel) else Some(t)
  }

  // What the walk writes

  /** Without a panic, the document exists after the walk exactly when it
      did before or the walk passed a package declaration. */
  lemma {:induction false} ElementsReady(c: Config, s: WriterState, elements: seq<Decl>, parent: Option<string>, fuel: nat)
    ensures var r := ElementsStep(c, s, elements, parent, fuel);
            r.Some? ==> r.value.ready == (s.ready || PackageInAny(elements))
    decreases elements
  {
    if elements != [] {
      PackageInAnyCons(elements);
      DeclReady(c, s, elements[0], parent, fuel);
      var t := DeclStep(c, s, elements[0], parent, fuel);
      if t.Some? {
        ElementsReady(c, t.value, elements[1..], parent, fuel);
      }
    }
  }

  lemma {:induction false} DeclReady(c: Config, s: WriterState, d: Decl, parent: Option<string>, fuel: nat)
    ensures var r := DeclStep(c, s, d, parent, fuel);
            r.Some? ==> r.value.ready == (s.ready || PackageIn(d))
    decreases d
  {
    var h := HandleStep(c, s, d, parent, fuel);
    if h.Some? && d.IsContainer() {
      ElementsReady(c, h.value, d.elements, ChildParent(d), fuel);
    }
  }

  lemma {:induction false} ElementsKeep(c: Config, s: WriterState, elements: seq<Decl>, parent: Option<string>, fuel: nat)
    requires !PackageInAny(elements)
    ensures var r := ElementsStep(c, s, elements, parent, fuel);
            r.Some? ==> WalkKept(s, r.value)
    decreases elements
  {
    if elements != [] {
      PackageInAnyCons(elements);
      DeclKeep(c, s, elements[0], parent, fuel);
      var t := DeclStep(c, s, elements[0], parent, fuel);
      if t.Some? {
        ElementsKeep(c, t.value, elements[1..], parent, fuel);
      }
    }
  }

  lemma {:induction false} DeclKeep(c: Config, s: WriterState, d: Decl, parent: Option<string>, fuel: nat)
    requires !PackageIn(d)
    ensures var r := DeclStep(c, s, d, parent, fuel);
            r.Some? ==> WalkKept(s, r.value)
    decreases d
  {
    var h := HandleStep(c, s, d, parent, fuel);
    if h.Some? && d.IsContainer() {
      ElementsKeep(c, h.value, d.elements, ChildParent(d), fuel);
    }
  }

  /** Each message and enum among `elements` is defined under the current
      package once the walk is through, when no package declaration
      intervenes: later declarations and imports may replace a definition
      but never remove it. */
  lemma {:induction false} ElementsDefine(c: Config, s: WriterState, elements: seq<Decl>, parent: Option<string>, fuel: nat, i: nat)
    requires !PackageInAny(elements) && i < |elements|
    requires elements[i].MessageDecl? || elements[i].EnumDecl?
    requires ElementsStep(c, s, elements, parent, fuel).Some?
    ensures Qualified(s.packageName, elements[i].name) in ElementsStep(c, s, elements, parent, fuel).value.definitions
    decreases elements
  {
    PackageInAnyCons(elements);
    var d := elements[0];
    var t := DeclStep(c, s, d, parent, fuel).value;
    ElementsKeep(c, t, elements[1..], parent, fuel);
    if i == 0 {
      var h := HandleStep(c, s, d, parent, fuel).value;
      assert Qualified(s.packageName, d.name) in h.definitions;
      ElementsKeep(c, h, d.elements, ChildParent(d), fuel);
    } else {
      DeclKeep(c, s, d, parent, fuel);
      assert elements[1..][i - 1] == elements[i];
      ElementsDefine(c, t, elements[1..], parent, fuel, i - 1);
    }
  }

  /** A walk over declarations without an RPC registers no new path. */
  lemma {:induction false} ElementsWithoutRpc(c: Config, s: WriterState, elements: seq<Decl>, parent: Option<string>, fuel: nat)
    requires !RpcInAny(elements)
    ensures var r := ElementsStep(c, s, elements, parent, fuel);
            r.Some? ==> r.value.paths.Keys <= s.paths.Keys
    decreases elements
  {
    if elements != [] {
      RpcInAnyCons(elements);
      DeclWithoutRpc(c, s, elements[0], parent, fuel);
      var t := DeclStep(c, s, elements[0], parent, fuel);
      if t.Some? {
        ElementsWithoutRpc(c, t.value, elements[1..], parent, fuel);
      }
    }
  }

  lemma {:induction false} DeclWithoutRpc(c: Config, s: WriterState, d: Decl, parent: Option<string>, fuel: nat)
    requires !RpcIn(d)
    ensures var r := DeclStep(c, s, d, parent, fuel);
            r.Some? ==> r.value.paths.Keys <= s.paths.Keys
    decreases d
  {
    var h := HandleStep(c, s, d, parent, fuel);
    if h.Some? && d.IsContainer() {
      ElementsWithoutRpc(c, h.value, d.elements, ChildParent(d), fuel);
    }
  }

  /** A walk over declarations with an RPC and no package declaration
      that does not panic leaves at least one path. */
  lemma {:induction false} ElementsWithRpc(c: Config, s: WriterState, elements: seq<Decl>, parent: Option<string>, fuel: nat)
    requires RpcInAny(elements) && !PackageInAny(elements)
    ensures var r := ElementsStep(c, s, elements, parent, fuel);
            r.Some? ==> r.value.paths.Keys != {}
    decreases elements
  {
    RpcInAnyCons(elements);
    PackageInAnyCons(elements);
    var t := DeclStep(c, s, elements[0], parent, fuel);
    if t.Some? {
      ElementsKeep(c, t.value, elements[1..], parent, fuel);
      if RpcIn(elements[0]) {
        DeclWithRpc(c, s, elements[0], parent, fuel);
      } else {
        ElementsWithRpc(c, t.value, elements[1..], parent, fuel);
      }
    }
  }

  lemma {:induction false} DeclWithRpc(c: Config, s: WriterState, d: Decl, parent: Option<string>, fuel: nat)
    requires RpcIn(d) && !PackageIn(d)
    ensures var r := DeclStep(c, s, d, parent, fuel);
            r.Some? ==> r.value.paths.Keys != {}
    decreases d
  {
    var h := HandleStep(c, s, d, parent, fuel);
    if h.Some? && d.RpcDecl? {
      assert RoutePath(s.packageName, parent.value, d.name) in h.value.paths;
    } else if h.Some? && d.IsContainer() {
      ElementsWithRpc(c, h.value, d.elements, ChildParent(d), fuel);
    }
  }

  /** Declarations no handler looks at leave the state as it is. */
  lemma {:induction false} ElementsSkipInert(c: Config, s: WriterState, pre: seq<Decl>, rest: seq<Decl>, parent: Option<string>, fuel: nat)
    requires Inert(pre)
    ensures ElementsStep(c, s, pre + rest, parent, fuel) == ElementsStep(c, s, rest, parent, fuel)
    decreases |pre|
  {
    var e := pre + rest;
    if pre == [] {
      assert e == rest;
    } else {
      assert e[0] == pre[0] && e[1..] == pre[1..] + rest;
      assert DeclStep(c, s, pre[0], parent, fuel) == Some(s);
      ElementsSkipInert(c, s, pre[1..], rest, parent, fuel);
    }
  }

  /** A file that declares its package once, after declarations no handler
      looks at (`syntax`, options, comments): when the walk does not panic,
      it registers no path exactly when the file declares no RPC, so
      `WalkFile` reports the missing service definition exactly for a file
      without RPCs. */
  lemma FileRegistersPaths(c: Config, s: WriterState, pre: seq<Decl>, p: string, rest: seq<Decl>, fuel: nat)
    requires Inert(pre) && !PackageInAny(rest)
    requires ElementsStep(c, s, pre + [PackageDecl(p)] + rest, None, fuel).Some?
    ensures ElementsStep(c, s, pre + [PackageDecl(p)] + rest, None, fuel).value.paths == map[] <==> !RpcInAny(rest)
  {
    var e := [PackageDecl(p)] + rest;
    assert pre + [PackageDecl(p)] + rest == pre + e;
    ElementsSkipInert(c, s, pre, e, None, fuel);
    assert e[0] == PackageDecl(p) && e[1..] == rest;
    var t := DeclStep(c, s, e[0], None, fuel).value;
    assert t.paths == map[];
    var r := ElementsStep(c, t, rest, None, fuel);
    assert r == ElementsStep(c, s, e, None, fuel);
    if RpcInAny(rest) {
      ElementsWithRpc(c, t, rest, None, fuel);
      assert r.value.paths.Keys != {};
    } else {
      ElementsWithoutRpc(c, t, rest, None, fuel);
      assert r.value.paths.Keys == {};
    }
  }

  /** The nested walk over declarations without a package declaration
      keeps the package name. */
  lemma {:induction false} ImportedElementsKeepPackage(c: Config, s: WriterState, elements: seq<Decl>, fuel: nat)
    requires !PackageInAny(elements)
    ensures var r := ImportedElementsStep(c, s, elements, fuel);
            r.Some? ==> r.value.packageName == s.packageName
    decreases elements
  {
    if elements != [] {
      PackageInAnyCons(elements);
      ImportedDeclKeepPackage(c, s, elements[0], fuel);
      var t := ImportedDeclStep(c, s, elements[0], fuel);
      if t.Some? {
        ImportedElementsKeepPackage(c, t.value, elements[1..], fuel);
      }
    }
  }

  lemma {:induction false} ImportedDeclKeepPackage(c: Config, s: WriterState, d: Decl, fuel: nat)
    requires !PackageIn(d)
    ensures var r := ImportedDeclStep(c, s, d, fuel);
            r.Some? ==> r.value.packageName == s.packageName
    decreases d
  {
    var h := ImportedHandleStep(c, s, d, fuel);
    if h.Some? && d.IsContainer() {
      ImportedElementsKeepPackage(c, h.value, d.elements, fuel);
    }
  }

  /** Each message and enum among the elements of an imported file is
      defined under the current package once the nested walk is through,
      when no package declaration intervenes. */
  lemma {:induction false} ImportedElementsDefine(c: Config, s: WriterState, elements: seq<Decl>, fuel: nat, i: nat)
    requires !PackageInAny(elements) && i < |elements|
    requires elements[i].MessageDecl? || elements[i].EnumDecl?
    requires ImportedElementsStep(c, s, elements, fuel).Some?
    ensures Qualified(s.packageName, elements[i].name) in ImportedElementsStep(c, s, elements, fuel).value.definitions
    decreases elements
  {
    PackageInAnyCons(elements);
    var d := elements[0];
    var t := ImportedDeclStep(c, s, d, fuel).value;
    if i == 0 {
      assert Qualified(s.packageName, d.name) in ImportedHandleStep(c, s, d, fuel).value.definitions;
    } else {
      ImportedDeclKeepPackage(c, s, d, fuel);
      assert elements[1..][i - 1] == elements[i];
      ImportedElementsDefine(c, t, elements[1..], fuel, i - 1);
    }
  }

  /** An import that is walked is the nested walk of the file, with the
      importer's package name put back. */
  lemma ImportUnfold(c: Config, s: WriterState, file: string, fuel: nat)
    requires !SkippedImport(file) && file in c.files && ImportStep(c, s, file, fuel).Some?
    ensures fuel > 0
    ensures var r := ImportedElementsStep(c, s, c.files[file], fuel - 1);
            r.Some? && ImportStep(c, s, file, fuel).value == r.value.(packageName := s.packageName)
  {
  }

  /** The nested walk skips declarations no handler looks at. */
  lemma {:induction false} ImportedElementsSkipInert(c: Config, s: WriterState, pre: seq<Decl>, rest: seq<Decl>, fuel: nat)
    requires Inert(pre)
    ensures ImportedElementsStep(c, s, pre + rest, fuel) == ImportedElementsStep(c, s, rest, fuel)
    decreases |pre|
  {
    var e := pre + rest;
    if pre == [] {
      assert e == rest;
    } else {
      assert e[0] == pre[0] && e[1..] == pre[1..] + rest;
      assert ImportedDeclStep(c, s, pre[0], fuel) == Some(s);
      ImportedElementsSkipInert(c, s, pre[1..], rest, fuel);
    }
  }

  /** The nested walk of a file whose package declaration follows only
      declarations no handler looks at is the walk of the rest under that
      package. */
  lemma ImportedPackageFirst(c: Config, s: WriterState, pre: seq<Decl>, p: string, rest: seq<Decl>, fuel: nat)
    requires Inert(pre)
    ensures ImportedElementsStep(c, s, pre + [PackageDecl(p)] + rest, fuel) ==
            ImportedElementsStep(c, s.(packageName := p), rest, fuel)
  {
    var e := [PackageDecl(p)] + rest;
    assert pre + [PackageDecl(p)] + rest == pre + e;
    ImportedElementsSkipInert(c, s, pre, e, fuel);
    assert e[0] == PackageDecl(p) && e[1..] == rest;
    assert ImportedHandleStep(c, s, e[0], fuel) == Some(s.(packageName := p));
  }

  /** Importing a file that declares its package `p` once, after
      declarations no handler looks at, defines each of its top-level
      messages and enums as `p.Name`, and restores the importer's package
      name. */
  lemma ImportDefinesFile(c: Config, s: WriterState, file: string, fuel: nat, pre: seq<Decl>, p: string, rest: seq<Decl>, i: nat)
    requires !SkippedImport(file) && file in c.files && c.files[file] == pre + [PackageDecl(p)] + rest
    requires Inert(pre) && !PackageInAny(rest) && i < |rest| && (rest[i].MessageDecl? || rest[i].EnumDecl?)
    requires ImportStep(c, s, file, fuel).Some?
    ensures Qualified(p, rest[i].name) in ImportStep(c, s, file, fuel).value.definitions
    ensures ImportStep(c, s, file, fuel).value.packageName == s.packageName
  {
    ImportUnfold(c, s, file, fuel);
    var f: nat := fuel - 1;
    var t := s.(packageName := p);
    ImportedPackageFirst(c, s, pre, p, rest, f);
    var r := ImportedElementsStep(c, t, rest, f);
    assert r == ImportedElementsStep(c, s, c.files[file], f);
    ImportedElementsDefine(c, t, rest, f, i);
    assert ImportStep(c, s, file, fuel).value == r.value.(packageName := s.packageName);
  }

  /** What `WalkFile` reports. */
  datatype WalkResult = Done | NoServiceDefinition | LoadFailed | Crashed

  /** `Writer`. The loader, the alias table and float recognition are fixed
      for a writer: `files` maps a file name to its parsed declarations, and
      a name that is absent cannot be opened or parsed. `ready` is false
      until `Package` has created the definitions and paths maps: before
      that, writing a definition or a path panics. */
  class Writer {
    const filename: string
    const hostname: string
    const pathPrefix: string
    const version: string
    const sdkfiles: seq<string>
    const protoDir: string
    const templateDir: string
    const files: Files
    const aliases: map<string, Alias>
    const isFloat: string -> bool

    var ready: bool
    var header: Option<Header>
    var packageName: string
    var definitions: map<string, Definition>
    var paths: map<string, Operation>
    var tags: seq<Tag>

    /** Every tag names a different service. */
    predicate Valid()
      reads this`tags
    {
      UniqueNames(tags)
    }

    /** The fixed inputs the walk reads. */
    function Cfg(): Config {
      Config(hostname, filename, version, files, aliases, isFloat)
    }

    /** The state the walk changes, as a value. */
    function State(): WriterState
      reads this
    {
      WriterState(ready, header, packageName, definitions, paths, tags)
    }

    /** `NewWriter`: an empty path prefix becomes "/twirp", and the SDK file
        list is split at commas. */
    constructor (filename: string, hostname: string, pathPrefix: string, version: string, sdkfiles: string,
                 protoDir: string, templateDir: string, files: Files, aliases: map<string, Alias>, isFloat: string -> bool)
      ensures this.filename == filename && this.hostname == hostname && this.version == version
      ensures this.pathPrefix == (if pathPrefix == "" then "/twirp" else pathPrefix)
      ensures this.sdkfiles == Split(sdkfiles, ',')
      ensures this.protoDir == protoDir && this.templateDir == templateDir
      ensures this.files == files && this.aliases == aliases && this.isFloat == isFloat
      ensures !ready && header.None? && packageName == ""
      ensures definitions == map[] && paths == map[] && tags == []
      ensures Valid()
    {
      this.filename := filename;
      this.hostname := hostname;
      this.pathPrefix := if pathPrefix == "" then "/twirp" else pathPrefix;
      this.version := version;
      this.sdkfiles := Split(sdkfiles, ',');
      this.protoDir := protoDir;
      this.templateDir := templateDir;
      this.files := files;
      this.aliases := aliases;
      this.isFloat := isFloat;
      ready := false;
      header := None;
      packageName := "";
      definitions := map[];
      paths := map[];
      tags := [];
    }

    /** `Package`: a fresh document for package `name`. */
    method Package(name: string)
      modifies this
      ensures ready && packageName == name
      ensures definitions == map[] && paths == map[] && tags == []
      ensures header == Some(Header(hostname, Base(filename), version))
      ensures Valid()
    {
      header := Some(Header(hostname, Base(filename), version));
      definitions := map[];
      paths := map[];
      tags := [];
      ready := true;
      packageName := name;
    }

    /** `Message`: writes the definition `pkg.Name`, replacing any earlier
        one; `ok` is false when it panics on a missing definitions map. */
    method Message(name: string, comment: Option<Comment>, elements: seq<Decl>) returns (ok: bool)
      modifies this`definitions
      ensures ok == ready
      ensures ok ==> definitions == old(definitions)[Qualified(packageName, name) :=
                       MessageDefinition(packageName, aliases, isFloat, comment, elements)]
      ensures !ok ==> definitions == old(definitions)
    {
      if !ready {
        return false;
      }
      var all := FlattenFields(elements);
      var order, props := AddFields(packageName, aliases, isFloat, all);
      var desc := Description(comment);
      if |order| > 0 {
        desc := desc + FieldsHeading + Join(order, ", ");
      }
      var title := TitleAndExample(comment, isFloat).0;
      assert TrimSpace(desc) == MessageDescription(comment, order);
      var def := ObjectDef(title, TrimSpace(desc), props);
      assert def == MessageDefinition(packageName, aliases, isFloat, comment, elements);
      definitions := definitions[Qualified(packageName, name) := def];
      ok := true;
    }

    /** `Enum`: writes the definition `pkg.Name` with the value names. */
    method Enum(name: string, comment: Option<Comment>, elements: seq<Decl>) returns (ok: bool)
      modifies this`definitions
      ensures ok == ready
      ensures ok ==> definitions == old(definitions)[Qualified(packageName, name) :=
                       EnumDefinition(comment, EnumNames(elements), isFloat)]
      ensures !ok ==> definitions == old(definitions)
    {
      var values := CollectEnumValues(elements);
      if !ready {
        return false;
      }
      definitions := definitions[Qualified(packageName, name) := EnumDefinition(comment, values, isFloat)];
      ok := true;
    }

    /** `Service`: adds a tag for the service unless one of that name
        exists. */
    method Service(name: string, comment: Option<Comment>)
      modifies this`tags
      ensures tags == AddTag(old(tags), Tag(name, Description(comment)))
      ensures UniqueNames(old(tags)) ==> UniqueNames(tags)
    {
      var found := FindTag(tags, name);
      if !found {
        tags := tags + [Tag(name, Description(comment))];
      }
      if UniqueNames(old(tags)) {
        AddTagKeepsUnique(old(tags), Tag(name, Description(comment)));
      }
    }

    /** `RPC`: registers the operation under its route, replacing an earlier
        operation with the same route and leaving every other route alone.
        `parent` is the enclosing service; without one the handler panics,
        as it does on a missing paths map. */
    method RPC(parent: Option<string>, name: string, comment: Option<Comment>, requestType: string, returnsType: string)
      returns (ok: bool)
      modifies this`paths
      ensures ok == (parent.Some? && ready)
      ensures ok ==> paths == old(paths)[RoutePath(packageName, parent.value, name) :=
                       RpcOperation(packageName, parent.value, name, comment, requestType, returnsType)]
      ensures !ok ==> paths == old(paths)
    {
      if parent.None? || !ready {
        return false;
      }
      var route := RoutePath(packageName, parent.value, name);
      paths := paths[route := RpcOperation(packageName, parent.value, name, comment, requestType, returnsType)];
      ok := true;
    }

    /** `Import`: files under google/api/annotations.proto,
        google/protobuf/timestamp.proto and google/protobuf/wrappers.proto
        are skipped, and so is a file that cannot be loaded; otherwise the
        file is walked for its package, imports, messages and enums, and the
        package name is restored afterwards. Paths and tags are outside the
        frame: an import never adds either. `fuel` bounds the depth of
        nested imports; running out counts as a crash. `ok` is false exactly
        when a handler panics. */
    method Import(file: string, fuel: nat) returns (ok: bool)
      modifies this`definitions, this`packageName
      decreases fuel, 0
      ensures ok == ImportStep(Cfg(), old(State()), file, fuel).Some?
      ensures ok ==> State() == ImportStep(Cfg(), old(State()), file, fuel).value
      ensures ok ==> packageName == old(packageName)
      ensures SkippedImport(file) || file !in files ==>
                ok && definitions == old(definitions) && packageName == old(packageName)
      ensures old(definitions).Keys <= definitions.Keys
    {
      if SkippedImport(file) || file !in files {
        return true;
      }
      if fuel == 0 {
        return false;
      }
      var saved := packageName;
      ok := WalkImportedElements(files[file], fuel - 1);
      if ok {
        packageName := saved;
      }
    }

    /** The nested walk of an imported file: package, import, message and
        enum handlers only. It stops at the first panic. */
    method WalkImportedElements(elements: seq<Decl>, fuel: nat) returns (ok: bool)
      modifies this`definitions, this`packageName
      decreases fuel, 1, elements
      ensures ok == ImportedElementsStep(Cfg(), old(State()), elements, fuel).Some?
      ensures ok ==> State() == ImportedElementsStep(Cfg(), old(State()), elements, fuel).value
      ensures old(definitions).Keys <= definitions.Keys
    {
      ok := true;
      var i := 0;
      while i < |elements| && ok
        invariant 0 <= i <= |elements|
        invariant old(definitions).Keys <= definitions.Keys
        invariant ok ==> ImportedElementsStep(Cfg(), old(State()), elements, fuel) ==
                         ImportedElementsStep(Cfg(), State(), elements[i..], fuel)
        invariant !ok ==> ImportedElementsStep(Cfg(), old(State()), elements, fuel).None?
      {
        assert elements[i..][0] == elements[i] && elements[i..][1..] == elements[i + 1..];
        ok := WalkImportedDecl(elements[i], fuel);
        i := i + 1;
      }
    }

    /** The handlers of the nested walk applied to one declaration. */
    method HandleImported(d: Decl, fuel: nat) returns (ok: bool)
      modifies this`definitions, this`packageName
      decreases fuel, 1, d, 0
      ensures ok == ImportedHandleStep(Cfg(), old(State()), d, fuel).Some?
      ensures ok ==> State() == ImportedHandleStep(Cfg(), old(State()), d, fuel).value
      ensures old(definitions).Keys <= definitions.Keys
    {
      ok := true;
      if d.PackageDecl? {
        packageName := d.name;
      } else if d.ImportDecl? {
        ok := Import(d.filename, fuel);
      } else if d.MessageDecl? {
        ok := Message(d.name, d.comment, d.elements);
      } else if d.EnumDecl? {
        ok := Enum(d.name, d.comment, d.elements);
      }
    }

    method WalkImportedDecl(d: Decl, fuel: nat) returns (ok: bool)
      modifies this`definitions, this`packageName
      decreases fuel, 1, d, 1
      ensures ok == ImportedDeclStep(Cfg(), old(State()), d, fuel).Some?
      ensures ok ==> State() == ImportedDeclStep(Cfg(), old(State()), d, fuel).value
      ensures old(definitions).Keys <= definitions.Keys
    {
      ok := HandleImported(d, fuel);
      if ok && d.IsContainer() {
        ok := WalkImportedElements(d.elements, fuel);
      }
    }

    /** The walk of the main file with every handler. `parent` is the
        service the elements belong to, if any. It stops at the first
        panic. */
    method WalkElements(elements: seq<Decl>, parent: Option<string>, fuel: nat) returns (ok: bool)
      requires Valid()
      modifies this
      decreases elements
      ensures Valid()
      ensures old(ready) ==> ready
      ensures ok == ElementsStep(Cfg(), old(State()), elements, parent, fuel).Some?
      ensures ok ==> State() == ElementsStep(Cfg(), old(State()), elements, parent, fuel).value
    {
      ok := true;
      var i := 0;
      while i < |elements| && ok
        invariant 0 <= i <= |elements|
        invariant Valid()
        invariant old(ready) ==> ready
        invariant ok ==> ElementsStep(Cfg(), old(State()), elements, parent, fuel) ==
                         ElementsStep(Cfg(), State(), elements[i..], parent, fuel)
        invariant !ok ==> ElementsStep(Cfg(), old(State()), elements, parent, fuel).None?
      {
        assert elements[i..][0] == elements[i] && elements[i..][1..] == elements[i + 1..];
        ok := WalkDecl(elements[i], parent, fuel);
        i := i + 1;
      }
    }

    /** The handlers of the main walk applied to one declaration; only
        `Package` makes the document exist. */
    method Handle(d: Decl, parent: Option<string>, fuel: nat) returns (ok: bool)
      requires Valid()
      modifies this
      ensures Valid()
      ensures ready == (old(ready) || d.PackageDecl?)
      ensures ok == HandleStep(Cfg(), old(State()), d, parent, fuel).Some?
      ensures ok ==> State() == HandleStep(Cfg(), old(State()), d, parent, fuel).value
    {
      if d.MessageDecl? || d.EnumDecl? {
        ok := HandleDefinition(d, parent, fuel);
      } else if d.RpcDecl? || d.ImportDecl? {
        ok := HandleRoute(d, parent, fuel);
      } else {
        HandleDocument(d, parent, fuel);
        ok := true;
      }
    }

    /** `Message` and `Enum` in the main walk. */
    method HandleDefinition(d: Decl, parent: Option<string>, fuel: nat) returns (ok: bool)
      requires d.MessageDecl? || d.EnumDecl?
      modifies this`definitions
      ensures ok == HandleStep(Cfg(), old(State()), d, parent, fuel).Some?
      ensures ok ==> State() == HandleStep(Cfg(), old(State()), d, parent, fuel).value
    {
      if d.MessageDecl? {
        ok := Message(d.name, d.comment, d.elements);
      } else {
        ok := Enum(d.name, d.comment, d.elements);
      }
    }

    /** `RPC` and `Import` in the main walk; neither touches the tags or
        whether the document exists. */
    method HandleRoute(d: Decl, parent: Option<string>, fuel: nat) returns (ok: bool)
      requires d.RpcDecl? || d.ImportDecl?
      modifies this`paths, this`definitions, this`packageName
      ensures ok == HandleStep(Cfg(), old(State()), d, parent, fuel).Some?
      ensures ok ==> State() == HandleStep(Cfg(), old(State()), d, parent, fuel).value
    {
      if d.RpcDecl? {
        ok := RPC(parent, d.name, d.comment, d.requestType, d.returnsType);
      } else {
        ok := Import(d.filename, fuel);
      }
    }

    /** `Package`, `Service` and the declarations no handler looks at; none
        of them panics. */
    method HandleDocument(d: Decl, parent: Option<string>, fuel: nat)
      requires !(d.MessageDecl? || d.EnumDecl? || d.RpcDecl? || d.ImportDecl?)
      requires Valid()
      modifies this
      ensures Valid()
      ensures ready == (old(ready) || d.PackageDecl?)
      ensures HandleStep(Cfg(), old(State()), d, parent, fuel) == Some(State())
    {
      if d.PackageDecl? {
        Package(d.name);
      } else if d.ServiceDecl? {
        Service(d.name, d.comment);
      }
    }

    method WalkDecl(d: Decl, parent: Option<string>, fuel: nat) returns (ok: bool)
      requires Valid()
      modifies this
      decreases d
      ensures Valid()
      ensures old(ready) ==> ready
      ensures ok == DeclStep(Cfg(), old(State()), d, parent, fuel).Some?
      ensures ok ==> State() == DeclStep(Cfg(), old(State()), d, parent, fuel).value
    {
      ok := Handle(d, parent, fuel);
      if ok && d.IsContainer() {
        ok := WalkElements(d.elements, ChildParent(d), fuel);
      }
    }

    /** `WalkFile`: walks the main file; the document is then the walk's.
        It crashes exactly when a handler panics or, with no panic, when the
        file has no package declaration: the paths map is then missing, and
        reading its size panics. Otherwise it reports the missing service
        definition exactly when the walk registered no path. */
    method WalkFile(fuel: nat) returns (r: WalkResult)
      requires Valid()
      modifies this
      ensures Valid()
      ensures r == LoadFailed <==> filename !in files
      ensures filename in files ==>
                var out := ElementsStep(Cfg(), old(State()), files[filename], None, fuel);
                && (r == Crashed <==> out.None? || !(old(ready) || PackageInAny(files[filename])))
                && (r == Done || r == NoServiceDefinition ==>
                      State() == out.value && (r == NoServiceDefinition <==> out.value.paths == map[]))
    {
      if filename !in files {
        return LoadFailed;
      }
      ghost var before := State();
      var ok := WalkElements(files[filename], None, fuel);
      if ok {
        ElementsReady(Cfg(), before, files[filename], None, fuel);
      }
      if !ok || !ready {
        return Crashed;
      }
      r := if |paths| == 0 then NoServiceDefinition else Done;
    }

    /** `mapSdkFiles`: every SDK file's URL under its normalised key. */
    method MapSdkFiles() returns (m: map<string, GcsUrl>)
      ensures m == SdkMap(sdkfiles, Label(filename), version)
    {
      m := FillEntries(sdkfiles, SdkKey, SdkUrlFor(Label(filename), version));
    }
  }

  /** The imports `Import` skips. */
  predicate SkippedImport(file: string) {
    Contains(file, "google/api/annotations.proto")
    || Contains(file, "google/protobuf/timestamp.proto")
    || Contains(file, "google/protobuf/wrappers.proto")
  }
}
