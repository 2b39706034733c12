/** The declaration tree the protobuf parser yields. Only the node kinds the
    translator looks at are distinguished; every other kind (syntax, option,
    reserved, extensions, ...) is `OtherDecl`. */
module Proto {
  import opened Text

  /** A documentation comment: its lines, without the comment markers. */
  datatype Comment = Comment(lines: seq<string>)

  /** The part shared by normal, map and one-of fields. */
  datatype Field = Field(name: string, typ: string, comment: Option<Comment>)

  datatype Decl =
    | PackageDecl(name: string)
    | ImportDecl(filename: string)
    | MessageDecl(name: string, comment: Option<Comment>, elements: seq<Decl>)
    | EnumDecl(name: string, comment: Option<Comment>, elements: seq<Decl>)
    | EnumFieldDecl(name: string)
    | ServiceDecl(name: string, comment: Option<Comment>, elements: seq<Decl>)
    | RpcDecl(name: string, comment: Option<Comment>, requestType: string, returnsType: string)
    | NormalFieldDecl(field: Field, repeated: bool)
    | MapFieldDecl(keyType: string, field: Field)
    | OneofDecl(name: string, elements: seq<Decl>)
    | OneOfFieldDecl(field: Field)
    | CommentDecl(remark: Comment)
    | OtherDecl
  {
    /** Messages, enums, services and one-of blocks hold elements that the
        walk visits after the element itself. */
    predicate IsContainer() {
      MessageDecl? || EnumDecl? || ServiceDecl? || OneofDecl?
    }
  }

  /** The loader: a file name maps to its declarations, and a name that is
      absent is a file that cannot be opened or parsed. */
  type Files = map<string, seq<Decl>>

  /** A package declaration anywhere in the declaration or below it: once
      the walk has passed one, the document exists. */
  predicate PackageIn(d: Decl)
    decreases d, 1
  {
    d.PackageDecl? || (d.IsContainer() && PackageInAny(d.elements))
  }

  predicate PackageInAny(elements: seq<Decl>)
    decreases elements, 0
  {
    exists j :: 0 <= j < |elements| && PackageIn(elements[j])
  }

  /** Declarations no handler looks at, such as the `syntax` statement,
      options and comments, which a file may hold before its package
      declaration. */
  predicate Inert(pre: seq<Decl>) {
    forall j :: 0 <= j < |pre| ==> pre[j].OtherDecl? || pre[j].CommentDecl?
  }

  /** The service the children of `d` belong to, if `d` is one. */
  function ChildParent(d: Decl): (r: Option<string>)
    ensures r.Some? <==> d.ServiceDecl?
  {
    if d.ServiceDecl? then Some(d.name) else None
  }

  /** An RPC declaration anywhere in the declaration or below it. */
  predicate RpcIn(d: Decl)
    decreases d, 1
  {
    d.RpcDecl? || (d.IsContainer() && RpcInAny(d.elements))
  }

  predicate RpcInAny(elements: seq<Decl>)
    decreases elements, 0
  {
    exists j :: 0 <= j < |elements| && RpcIn(elements[j])
  }

  /** The first element holds an RPC or one of the others does. */
  lemma RpcInAnyCons(elements: seq<Decl>)
    requires elements != []
    ensures RpcInAny(elements) == (RpcIn(elements[0]) || RpcInAny(elements[1..]))
  {
    if RpcInAny(elements) && !RpcIn(elements[0]) {
      var j :| 0 <= j < |elements| && RpcIn(elements[j]);
      assert elements[1..][j - 1] == elements[j];
    }
    if RpcInAny(elements[1..]) {
      var j :| 0 <= j < |elements| - 1 && RpcIn(elements[1..][j]);
      assert elements[j + 1] == elements[1..][j];
    }
  }

  /** The first element holds a package declaration or one of the others
      does. */
  lemma PackageInAnyCons(elements: seq<Decl>)
    requires elements != []
    ensures PackageInAny(elements) == (PackageIn(elements[0]) || PackageInAny(elements[1..]))
  {
    if PackageInAny(elements) && !PackageIn(elements[0]) {
      var j :| 0 <= j < |elements| && PackageIn(elements[j]);
      assert elements[1..][j - 1] == elements[j];
    }
    if PackageInAny(elements[1..]) {
      var j :| 0 <= j < |elements| - 1 && PackageIn(elements[1..][j]);
      assert elements[j + 1] == elements[1..][j];
    }
  }
}
