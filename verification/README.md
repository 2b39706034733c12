# twirp-swagger-gen in Dafny

This project models the core of twirp-swagger-gen, which translates a
protobuf service definition into a Swagger 2.0 document for its Twirp API.
The parser hands the translator a tree of declarations. A walk visits the
tree in order and calls one handler per declaration kind. The handlers fill
the document's definitions, paths and tags.

There are two translators, each modelled as a Dafny class:

- `Translator.Writer` (writer.dfy) models `Writer` from
  internal/swagger/writer.go. A message becomes an object definition. Its
  one-of members are flattened after its direct elements. Each field gets a
  property schema. This is a primitive, an array wrapper, a `$ref`, or an
  object whose `additionalProperties` come from a type alias. Every schema
  except a non-repeated primitive carries an `x-order` equal to the field's
  position in the flattened list.
  An RPC is registered under `/<service lower-cased, without "service">/<pkg>.<Service>/<Rpc>`.
  A service adds a tag unless one with that name exists. An import is
  walked for its messages and enums, and the package name is restored
  afterwards. The walk stops at the first handler that panics. `WalkFile`
  reports a crash exactly when a handler panics or the file declares no
  package. Otherwise it reports a missing service definition exactly when
  no path was registered.
- `Legacy.SwaggerWriter` (legacy.dfy) models `SwaggerWriter` from main.go,
  the older standalone translator, together with its `parse` entry point.
  It maps scalar types inline. Only normal fields become properties, each
  numbered by its index among the message's elements. Routes lie under
  `/twirp/`. An import keeps only messages, and an import that cannot be
  loaded panics.

Four modules are shared by both classes:

- `Docs` (docs.dfy) models the doc-comment readers `comment` and
  `description`. They are identical in the two source files.
- `OpenApi` (openapi.dfy) holds the document's parts: schemas, definitions,
  operations and tags. It also holds what both writers build the same way:
  references, tags, enum values and the RPC operation.
- `CompassIot` (compassiot.dfy) models the file-name helpers of
  internal/swagger/compassiot.go and the key derivation of `mapSdkFiles`.
- `Text` (text.dfy) models the parts of Go's `strings` and `strconv`
  packages that the translators use. Case and white space are ASCII only.

Some inputs are fixed parameters of each writer:

- The loader is a map `files` from a file name to its parsed declarations. A
  missing name is a file that cannot be opened or parsed.
- The type alias table of aliases.go is a map `aliases` from a type name to
  a type and format.
- `strconv.ParseFloat` is a predicate `isFloat` on the example text.

A Go panic is modelled as a handler returning `ok == false`. The walk stops
at that point.

`Message`, `Enum` and `RPC` panic when they run before `Package`: the
definitions and paths maps do not exist yet. The `ready` flag models this.
`Service` does not panic then, because appending to a missing tag list is
allowed.

`pathPrefix` is stored by `NewWriter` but no route uses it. `RoutePath` does
not take it.

## Model

| member | source | states |
|---|---|---|
| Docs.LeadingLines | internal/swagger/writer.go:137-144 | the lines `comment` accumulates are the trimmed lines up to the first blank one, and the next line, if any, is blank |
| Docs.TitleAndExample | internal/swagger/writer.go:132-161 | `comment`: the title and example of a doc comment; what it returns is stated by the TitleAndExampleOf… lemmas below |
| Docs.SpacedTextIsJoin | internal/swagger/writer.go:137-144 | the accumulated text is "" for an empty first paragraph and otherwise one space followed by the paragraph's lines joined with single spaces |
| Docs.TitleAndExampleOfParagraph | internal/swagger/writer.go:132-161 | `comment` gives ("", "") for a nil comment or a blank first line; otherwise the title is the paragraph text before the first `;` and the example is the trimmed text between the first and second `;` parsed as int, float or text, and "" when there is no `;` |
| Docs.TitleAndExampleOfLine | internal/swagger/writer.go:132-161 | a one-line comment `title;rest` gives the title and the example parsed from the trimmed rest |
| Docs.TitleAndExampleOfPair | internal/swagger/writer.go:145-158 | "title; text" gives the title and the example parsed from the text |
| Docs.TitleAndIntExample | internal/swagger/writer.go:149-152 | "title; n" gives the title and the int n for every int64 n, as "Age; 42" gives ("Age", 42) |
| Docs.TitleAndNonIntExample | internal/swagger/writer.go:153-157 | a text Atoi rejects is a float example when ParseFloat accepts it and the text itself otherwise |
| Docs.ParseExampleText | internal/swagger/writer.go:145-158 | a parsed example is empty exactly when its text is, and a float or text example keeps its text |
| Docs.ParseExample | internal/swagger/writer.go:145-158 | the example parsed from its text: Atoi first, then ParseFloat on non-empty text, else the text; stated by ParseExampleText, TitleAndIntExample and TitleAndNonIntExample |
| Docs.ExampleEmptyOnlyWhenAbsent | internal/swagger/writer.go:145-158 | the only example with empty text that `comment` returns is the absent one |
| Docs.ParseItoa | internal/swagger/writer.go:148-152 | the decimal text of an int64 after a blank reads back as the same int example |
| Docs.CleanLines | internal/swagger/writer.go:169-177 | `description` keeps one output line per comment line, blank ones included |
| Docs.Description | internal/swagger/writer.go:164-179 | `description`: the cleaned comment lines joined by newlines; stated by CleanLines, CleanLineIsBefore, DescriptionHasNoSemicolon and DescriptionLines |
| Docs.CleanLineIsBefore | internal/swagger/writer.go:170-175 | a description line is the trimmed line cut before its first `;`, and holds only characters of the line |
| Docs.DescriptionHasNoSemicolon | internal/swagger/writer.go:164-179 | a description contains no `;` |
| Docs.DescriptionLines | internal/swagger/writer.go:164-179 | splitting a description on newlines gives back every comment line trimmed and cut before its first `;` |
| Text.Atoi | internal/swagger/writer.go:149 | a text Atoi accepts starts with a digit or a sign, and its value lies in the int64 range |
| Text.AtoiItoa | internal/swagger/writer.go:316 | the `x-order` text written by Itoa reads back as the same number |
| OpenApi.Qualified | internal/swagger/writer.go:236 | a definition key is the package, a dot and the name, and both parts can be read back from it |
| OpenApi.Qualify | internal/swagger/writer.go:355-359 | a dotless type gets the package in front; a dotted type is kept; the result always holds a dot |
| OpenApi.RpcOperation | internal/swagger/writer.go:191-232 | the operation's id is the RPC, its one tag the service, its summary the comment's description, and the body and 200-response references are `#/definitions/pkg.<Type>`, even for a dotted type |
| OpenApi.AddTag | internal/swagger/writer.go:461-482 | the tag list keeps its old tags in order, ends up with the name, is unchanged exactly when the name was present, and otherwise gains the one tag at its end |
| OpenApi.AddTagKeepsUnique | internal/swagger/writer.go:461-482 | tag names stay unique |
| OpenApi.AddTagIdempotent | internal/swagger/writer.go:461-482 | adding a tag of the same name a second time changes nothing |
| OpenApi.FindTag | internal/swagger/writer.go:462-467 | the scan over the tags finds the name exactly when some tag has it |
| OpenApi.EnumNames | internal/swagger/writer.go:438-447 | the values are the enum fields' names: every enum field's name is among them, and nothing else is |
| OpenApi.CollectEnumValues | internal/swagger/writer.go:438-447 | the loop collects exactly the enum value names, in order |
| OpenApi.EnumNamesConcat | internal/swagger/writer.go:438-447 | the value names keep the order of the values: the names of a concatenation are the names of each part, one after the other |
| OpenApi.EnumDefinition | internal/swagger/writer.go:449-458 | an enum definition has type string, the comment's title and description, and the value names |
| CompassIot.Base | internal/swagger/compassiot.go:51 | a base name is never empty and has no slash unless it is "/" |
| CompassIot.BaseOfJoin | internal/swagger/compassiot.go:51 | the base of "dir/name" is "name" |
| CompassIot.Ext | internal/swagger/compassiot.go:42 | the extension is a suffix of the path that is empty or starts with its only dot and holds no slash |
| CompassIot.ExtOfName | internal/swagger/compassiot.go:42 | the extension of "stem.ext" is ".ext" |
| CompassIot.ExtWithoutDot | internal/swagger/compassiot.go:42 | a last element without a dot has no extension |
| CompassIot.TrimSuffix | internal/swagger/compassiot.go:42 | the suffix is removed when present, and the string is kept otherwise |
| CompassIot.Label | internal/swagger/compassiot.go:40-43 | the label followed by the extension is the file name |
| CompassIot.LabelOfName | internal/swagger/compassiot.go:40-43 | only the final extension goes: the label of "stem.ext" is "stem" |
| CompassIot.LabelWithoutDot | internal/swagger/compassiot.go:40-43 | a name without an extension is its own label |
| CompassIot.TemplateFileName | internal/swagger/compassiot.go:47-54 | the template file name is never empty |
| CompassIot.ReplaceInProtoName | internal/swagger/compassiot.go:52 | replacing "proto" with "html" in "stem.proto" gives "stem.html" when the stem holds no "proto" |
| CompassIot.TemplateFileNameOfProto | internal/swagger/compassiot.go:47-54 | "dir/admin.proto" gives the template "admin.html", for every stem without a "proto" |
| CompassIot.BaseOfSlashFree | internal/swagger/compassiot.go:51 | a bare file name is its own base name |
| CompassIot.TemplateFileNameOfBareProto | internal/swagger/compassiot.go:47-54 | a bare "admin.proto" gives the template "admin.html", for every stem without a "proto" |
| CompassIot.SdkKeyIsClean | internal/swagger/compassiot.go:93-97 | a key holds no `.`, `_` or `-` and no leading or trailing white space |
| CompassIot.SdkKey | internal/swagger/compassiot.go:93-97 | the key of one SDK file: its base name without `.`, `_` and `-`, trimmed; stated by SdkKeyIsClean |
| CompassIot.FillMapKeys | internal/swagger/compassiot.go:91-99 | the map filled in order has exactly the keys of the files |
| CompassIot.FillMap | internal/swagger/compassiot.go:91-99 | the map filled by assigning each file's value under its key, in order; stated by FillMapKeys and FillMapLastWins |
| CompassIot.FillMapLastWins | internal/swagger/compassiot.go:91-99 | the entry for a key is the value of the last file with that key |
| CompassIot.FillEntries | internal/swagger/compassiot.go:91-99 | the loop fills the map the same way as the ordered fill |
| CompassIot.SdkMapEntries | internal/swagger/compassiot.go:89-101 | there is one entry per distinct key, and the later file wins on a collision |
| CompassIot.SdkMap | internal/swagger/compassiot.go:89-101 | `mapSdkFiles`'s map, the fill with `SdkKey` and the storage URL of each file; stated by SdkMapEntries |
| Translator.AsField | internal/swagger/writer.go:401-415 | one-of members, map fields and normal fields are fields, and only normal fields can be repeated |
| Translator.ResolveType | internal/swagger/writer.go:285-292 | an alias replaces the type by its type; the format is the alias format when it differs from the alias type, and "" otherwise, as it is for a type without an alias |
| Translator.FieldSchemaShape | internal/swagger/writer.go:275-399 | a field's schema has the comment's title and description; primitives in {boolean, integer, number, object, string, bytes} keep their type; non-repeated primitives carry no `x-order` and no example; repeated fields are arrays whose item is the primitive or the `$ref`; a repeated primitive's array keeps the format while its item has no title, description, format or `x-order`; every other type is a `$ref` to the qualified type |
| Translator.AliasedMapSchema | internal/swagger/writer.go:294-311 | a map whose key type has an alias is an object with no format, whose `additionalProperties` refuse extra properties and take the alias type of the key; it has no order and no example |
| Translator.AliasedFieldSchema | internal/swagger/writer.go:285-292 | an aliased non-map field keeps the alias type, and the alias format unless the two are equal |
| Translator.FieldSchema | internal/swagger/writer.go:275-399 | `addField`'s schema for one field at its position; stated by FieldSchemaShape, AliasedMapSchema, AliasedFieldSchema and FieldExamplePlacement |
| Translator.FieldExamplePlacement | internal/swagger/writer.go:318-398 | the example lands on the item of a repeated primitive and on the schema of a reference, and no written example, on the schema or on its item, has empty text |
| Translator.DottedTypeRefsDiffer | internal/swagger/writer.go:223 | an RPC whose request type is dotted refers to a different target than a field of the same type |
| Translator.OneofMembersContains | internal/swagger/writer.go:260-273 | every member of every one-of block is among the flattened members |
| Translator.AllFields | internal/swagger/writer.go:260-273 | the flattened list starts with the message's own elements |
| Translator.OneofMembersFollow | internal/swagger/writer.go:260-273 | every one-of member sits after all of the message's direct elements |
| Translator.FlattenFields | internal/swagger/writer.go:260-273 | the loop builds the elements followed by the one-of members |
| Translator.FieldOrderNames | internal/swagger/writer.go:313 | the field order has at most one name per element, and names exactly the fields of the flattened list |
| Translator.PropertiesKeys | internal/swagger/writer.go:313-316 | the properties are named exactly by the field order |
| Translator.Properties | internal/swagger/writer.go:313-316 | `schemaProps`: each field's schema under its name, a later field overwriting an earlier one; stated by PropertiesKeys and PropertyOfField |
| Translator.PropertyOfField | internal/swagger/writer.go:401-415 | a field no later field shadows has its own schema, numbered with its index in the flattened list, so comments and one-of blocks leave gaps in `x-order` |
| Translator.AddFields | internal/swagger/writer.go:401-415 | the loop produces the field order and the properties |
| Translator.MessageDescriptionListsFields | internal/swagger/writer.go:417-432 | with at least one field, the trimmed description ends with "Fields: " and the field names joined by ", " |
| Translator.MessageDescription | internal/swagger/writer.go:417-432 | the trimmed description with the field list appended when there are fields; stated by MessageDescriptionListsFields |
| Translator.MessageDefinition | internal/swagger/writer.go:417-432 | a message definition is an object with the comment's title, the description that lists the field order of the flattened fields, and their properties |
| Translator.RouteSegments | internal/swagger/writer.go:188-189 | a route splits on `/` into "", the lower-cased service name without "service", `pkg.Service` and the RPC name |
| Translator.RoutePath | internal/swagger/writer.go:188-189 | the route of an RPC; stated by RouteSegments and RouteOfServiceNamed |
| Translator.RouteOfServiceNamed | internal/swagger/writer.go:188-189 | `<Stem>Service` is served under the lower-cased stem whenever that stem does not itself hold "service", so `OrderService` in `orders` gives `/order/orders.OrderService/<Rpc>` and `UserService` gives `/user/...` |
| Translator.ElementsReady | internal/swagger/writer.go:50-91 | without a panic, the document exists after a walk exactly when it existed before or the walk passed a package declaration |
| Translator.ImportStep | internal/swagger/writer.go:93-130 | `Import` from a state, `None` for a panic: skipped and unloadable files change nothing, nesting past the bound panics, and a walked file keeps ready, header, paths and tags, loses no definition key and gets the package name back |
| Translator.HandleStep | internal/swagger/writer.go:484-493 | the handlers of the main walk on one declaration, `None` for a panic; stated through the Writer.Handle row and the lemmas below |
| Translator.ElementsStep | internal/swagger/writer.go:511 | the walk over a list of declarations, in order, stopping at the first panic; stated by ElementsReady, ElementsKeep, ElementsDefine, ElementsWithoutRpc, ElementsWithRpc and FileRegistersPaths |
| Translator.ElementsSkipInert | internal/swagger/writer.go:511 | declarations no handler looks at (`syntax`, options, comments) leave the walk's state as it is |
| Translator.ElementsKeep | internal/swagger/writer.go:484-493 | a walk without a package declaration keeps the package name and whether the document exists, and loses no definition or path key |
| Translator.ElementsDefine | internal/swagger/writer.go:235-236 | after a walk without a package declaration that does not panic, every message and enum among the elements is defined under the current package |
| Translator.ElementsWithoutRpc | internal/swagger/writer.go:181-233 | a walk over declarations without an RPC registers no new path |
| Translator.ElementsWithRpc | internal/swagger/writer.go:181-233 | a walk without a package declaration over declarations holding an RPC, which does not panic, leaves at least one path |
| Translator.FileRegistersPaths | internal/swagger/writer.go:505-518 | for a file that declares its package once, after any `syntax`, option and comment declarations, the walk leaves no path, the `ErrNoServiceDefinition` case, exactly when the file holds no RPC |
| Translator.ImportedElementsDefine | internal/swagger/writer.go:121-127 | the nested walk without a package declaration defines every message and enum among the elements under the current package |
| Translator.ImportDefinesFile | internal/swagger/writer.go:93-130 | importing a file that declares its package `p` once, after any `syntax`, option and comment declarations, defines each of its top-level messages and enums as `p.Name` and restores the importer's package name |
| Translator.Writer.constructor | internal/swagger/writer.go:34-48 | an empty path prefix becomes "/twirp", the SDK list is split at commas, and the document starts empty, with unique tag names |
| Translator.Writer.Package | internal/swagger/writer.go:50-91 | the header is set, the definitions, paths and tags are reset, and the package name is set |
| Translator.Writer.Message | internal/swagger/writer.go:235-433 | exactly the key `pkg.Name` is written, with the message definition, replacing an earlier entry; it panics before `Package` |
| Translator.Writer.Enum | internal/swagger/writer.go:435-459 | exactly the key `pkg.Name` is written, with the enum definition |
| Translator.Writer.Service | internal/swagger/writer.go:461-482 | the tags become `AddTag` of the old tags, and unique names stay unique |
| Translator.Writer.RPC | internal/swagger/writer.go:181-233 | exactly the route of the RPC is (re)written with its operation; a parent that is not a service panics |
| Translator.Writer.Import | internal/swagger/writer.go:93-130 | the result and the new state are those of `ImportStep`: it panics exactly when the file is neither skipped nor unloadable and its nested walk panics or exceeds the nesting bound; skipped and unloadable files change nothing; otherwise the package name is restored, no definition key is lost, and paths and tags are untouched |
| Translator.Writer.WalkImportedElements | internal/swagger/writer.go:127 | the result and the new state are those of `ImportedElementsStep`: the declarations in order, stopping at the first panic; no definition key is lost |
| Translator.Writer.HandleImported | internal/swagger/writer.go:121-127 | the result and the new state are those of `ImportedHandleStep`: a package declaration only sets the package name, an import nests, a message or enum writes its definition and panics exactly when the document does not exist, and nothing else changes anything |
| Translator.Writer.WalkImportedDecl | internal/swagger/writer.go:127 | the result and the new state are those of `ImportedDeclStep`: the declaration's handler, then its children; no definition key is lost |
| Translator.Writer.WalkElements | internal/swagger/writer.go:484-493 | the result and the new state are those of `ElementsStep`: each element in turn from the state the earlier ones left, stopping at the first panic; tag names stay unique and an existing document stays |
| Translator.Writer.Handle | internal/swagger/writer.go:484-493 | the result and the new state are those of `HandleStep`: a package declaration starts a fresh document; an RPC outside a service or before the document panics, and otherwise writes its route; a message or enum before the document panics, and otherwise writes its definition; a service adds its tag; an import nests; only a package declaration makes the document exist; tag names stay unique |
| Translator.Writer.WalkDecl | internal/swagger/writer.go:484-493 | the result and the new state are those of `DeclStep`: the handler, then the children, which belong to the declaration when it is a service; tag names stay unique |
| Translator.Writer.WalkFile | internal/swagger/writer.go:505-518 | it fails to load exactly when the file is missing; it crashes exactly when the walk of the file panics or the file declares no package; otherwise the new state is that walk's, and `ErrNoServiceDefinition` is returned exactly when no path was registered; tag names stay unique |
| Translator.Writer.MapSdkFiles | internal/swagger/compassiot.go:89-101 | the loop builds the SDK map of the writer's files under the label of its file name |
| Legacy.ScalarTypeOfBool | main.go:324-327 | bool becomes boolean with format "boolean" |
| Legacy.ScalarType | main.go:322-343 | the inline type mapping of a normal field; stated by the ScalarTypeOf… lemmas below |
| Legacy.ScalarTypeOfInt64 | main.go:328-330 | int64 and uint64 become string and keep their name as format |
| Legacy.ScalarTypeOfIntPrefix | main.go:331-333 | any other type starting with "int" or "uint" becomes integer with its name as format |
| Legacy.ScalarTypeOfFloat | main.go:334-336 | double and float become number |
| Legacy.ScalarTypeOfTimestamp | main.go:340-343 | the timestamp becomes string without a format |
| Legacy.ScalarTypeUnmapped | main.go:337-339 | any other type keeps its name, and loses its format unless it is "boolean" |
| Legacy.LegacyFieldSchemaShape | main.go:316-435 | every property carries `x-order`; the timestamp's description is the RFC 3339 link; a non-repeated primitive carries the example; a repeated primitive's item keeps type, example and `x-order` while title, description and format go to the array; other types are `$ref`s to the qualified type |
| Legacy.LegacyFieldSchema | main.go:316-435 | the property schema of one normal field at its index; stated by LegacyFieldSchemaShape and UnmappedTypeIsReference |
| Legacy.UnmappedTypeIsReference | main.go:387-391 | a type outside {boolean, integer, number, object, string} that the mapping leaves alone, such as `bytes`, is a `$ref` to `pkg.<type>` |
| Legacy.LegacyPropertiesKeys | main.go:314-316 | the properties are named exactly by the normal fields; map and one-of elements give none |
| Legacy.LegacyProperties | main.go:314-346 | each normal field's schema under its name, a later field overwriting an earlier one; stated by LegacyPropertiesKeys and LegacyPropertyOfField |
| Legacy.LegacyPropertyOfField | main.go:314-346 | a normal field no later one shadows has its own schema, numbered with its index among the message's elements |
| Legacy.LegacyAddFields | main.go:314-436 | the loop produces the properties |
| Legacy.LegacyDefinition | main.go:438-446 | the definition is an object whose description is the plain comment description, with no list of fields |
| Legacy.LegacyRoute | main.go:219 | every route starts with "/twirp/" |
| Legacy.LegacyRouteSegments | main.go:219 | a route splits on `/` into "", "twirp", `pkg.Service` and the RPC name |
| Legacy.WithoutVersionPanics | main.go:41-46 | without the VERSION variable, a walk over declarations holding a package declaration panics |
| Legacy.LegacyImportStep | main.go:113-139 | `Import` from a state, `None` for a panic: annotations imports change nothing, an unloadable import or one past the nesting bound panics, and a walked file keeps ready, header, paths and tags, writes only object definitions and gets the package name back |
| Legacy.LegacyHandleStep | main.go:448-458 | the handlers of the main walk on one declaration, `None` for a panic; stated through the SwaggerWriter.Handle row and the lemmas below |
| Legacy.LegacyElementsKeep | main.go:449-458 | a walk without a package declaration keeps the package name and whether the document exists, and loses no definition or path key |
| Legacy.LegacyElementsDefine | main.go:265-292 | after a walk without a package declaration that does not panic, every message and enum among the elements is defined under the current package |
| Legacy.ParseDefinesFile | main.go:480-496 | for a file that declares its package `p` once, after any `syntax`, option and comment declarations, a walk that does not panic defines each top-level message and enum as `p.Name` |
| Legacy.LegacyImportedElementsDefine | main.go:129-136 | the nested walk without a package declaration defines every message among the elements under the current package |
| Legacy.LegacyImportDefinesFile | main.go:113-139 | importing a file that declares its package `p` once, after any `syntax`, option and comment declarations, defines each of its top-level messages as `p.Name` and restores the importer's package name |
| Legacy.SwaggerWriter.constructor | main.go:33-39 | the document starts empty, with routes under "/twirp/" and unique tags |
| Legacy.SwaggerWriter.Package | main.go:41-111 | without the VERSION variable it panics and changes nothing; otherwise the header is set, the document is reset and the package name is set |
| Legacy.SwaggerWriter.Service | main.go:190-211 | the tags become `AddTag` of the old tags, and unique names stay unique |
| Legacy.SwaggerWriter.RPC | main.go:213-263 | exactly the route "/twirp/pkg.Service/Rpc" is (re)written with its operation, and routes stay under "/twirp/" |
| Legacy.SwaggerWriter.Enum | main.go:265-290 | exactly the key `pkg.Name` is written, with the enum definition |
| Legacy.SwaggerWriter.Message | main.go:292-447 | exactly the key `pkg.Name` is written, with an object definition |
| Legacy.SwaggerWriter.Import | main.go:113-139 | the result and the new state are those of `LegacyImportStep`: only annotations imports are skipped; an unloadable import, or one past the nesting bound, panics; otherwise the package name is restored, and only object definitions are added or changed |
| Legacy.SwaggerWriter.WalkImportedElements | main.go:136 | the result and the new state are those of `LegacyImportedElementsStep`: the declarations in order, stopping at the first panic; only object definitions are added or changed |
| Legacy.SwaggerWriter.HandleImported | main.go:129-136 | the result and the new state are those of `LegacyImportedHandleStep`: a package declaration only sets the package name, an import nests, a message writes its definition and panics exactly when the document does not exist, and enums and everything else are ignored |
| Legacy.SwaggerWriter.WalkImportedDecl | main.go:129-136 | the result and the new state are those of `LegacyImportedDeclStep`: the package, import and message handlers, then the children; enums of imported files are never written |
| Legacy.SwaggerWriter.WalkElements | main.go:449-458 | the result and the new state are those of `LegacyElementsStep`: each element in turn, stopping at the first panic; routes stay under "/twirp/" and tag names unique |
| Legacy.SwaggerWriter.Handle | main.go:448-458 | the result and the new state are those of `LegacyHandleStep`: a package declaration panics without the VERSION variable and otherwise starts a fresh document; an RPC outside a service or before the document panics, and otherwise writes its "/twirp/" route; a message or enum before the document panics, and otherwise writes its definition; a service adds its tag; an import nests; routes stay under "/twirp/" and tag names unique |
| Legacy.SwaggerWriter.WalkDecl | main.go:449-458 | the result and the new state are those of `LegacyDeclStep`: the handler, then the children, which belong to the declaration when it is a service; routes stay under "/twirp/" and tag names unique |
| Legacy.Parse | main.go:480-496 | an output equal to the input is an error exactly when the names are equal; otherwise an unloadable input is an error exactly when the file is missing; otherwise it panics exactly when the walk of the file from an empty writer does, and the saved document is that walk's header, definitions, paths and tags, with routes under "/twirp/" and unique tag names |

## Left out

- File I/O is not modelled: loading, saving, `json.MarshalIndent` and `text/template`. The loader is the `files` map.
- `MakeDescription`, `MakeLogo`, `parseTemplate` and `makeGcsUrl` are not modelled. A storage URL is kept as the bucket and segments it is made from (`GcsUrl`).
- The join under `templateDir` in `getTemplateFile` is not modelled. Only the file name is.
- Package (both writers) models the header as host, title and version only. It leaves out the schemes, media types, security definitions, token URL and logo.
- Legacy.SwaggerWriter.Package takes the VERSION environment variable as the writer's `version`. It does not model reading overview.html or running its template. Both can panic in the source.
- `strconv.ParseFloat` is the parameter `isFloat`. A float example keeps its text, not its float64 value. `isFloat` is asked only about non-empty text, since ParseFloat rejects the empty string.
- `typeAliases` (aliases.go) is the parameter `aliases`. The aliases.go file is not part of this model.
- Translator.Writer.Import and Legacy.SwaggerWriter.Import bound nested imports by `fuel`. Running out counts as a panic. The source has no cycle guard: a cyclic import recurses through `Walk` and `Import` until the Go runtime stops the program with a stack overflow, which the panic models.
- Translator.Writer.WalkFile: a walk that panics is reported as `Crashed`. In the source the panic escapes instead.
- The walk functions give `None` for a panic. The state a panic leaves behind is not modelled, because the panic ends the program.
- Logging is not modelled.
- Text: ToLower and TrimSpace handle ASCII only. Unicode case folding and Unicode white space are not modelled.
- Translator.Writer.Message: a repeated primitive's item is a value. In the source it is a pointer to the schema that `WithExample` updates after the item is stored. The model gives the item the value the pointer ends up with. In Legacy.SwaggerWriter.Message the example is attached before the item is copied, so there a value is exact.
- The two command-line programs under cmd/ are not part of this model. They only hold flag handling and plugin transport.
