/** The declared schema. In the original it is discovered by reflection over
    the list class and its attributes; here it is an explicit value. */
module Declarations {
  import opened Results
  import opened Text
  import opened FieldSchema
  import FieldXml

  /** One public member of the list class and the attributes on it. */
  datatype FieldDecl = FieldDecl(
    name: string,                 // the member name: the field's static/internal name
    displayName: Option<string>,  // [DisplayName], absent when not declared
    fieldType: Option<string>,    // [FieldType]; a member without one is not a field
    innerXml: string,             // [InternalFieldXml], "" when not declared
    extras: seq<Attr>,            // every [AdditionalFieldAttr], in declaration order
    inDefaultView: bool,          // [DefaultView]
    required: bool)               // [Required]

  /** The list-level attributes (each "" when not declared) and the members. */
  datatype ListSchema = ListSchema(
    displayName: string,          // [DisplayName] on the class
    internalName: string,         // [InternalName]
    description: string,          // [Description]
    contentTypeId: string,        // [ContentType]; non-empty switches to content-type mode
    fields: seq<FieldDecl>)

  predicate IsTyped(d: FieldDecl) {
    d.fieldType.Some?
  }

  /** The names of the members that carry a field type, in declaration order:
      the `propNames` list the reconciliation builds. */
  function TypedNames(ds: seq<FieldDecl>): (r: seq<string>)
    ensures forall n :: n in r <==> exists i :: 0 <= i < |ds| && IsTyped(ds[i]) && ds[i].name == n
    decreases |ds|
  {
    if ds == [] then []
    else
      var init := ds[..|ds| - 1];
      var last := ds[|ds| - 1];
      assert forall i :: 0 <= i < |init| ==> init[i] == ds[i];
      TypedNames(init) + (if IsTyped(last) then [last.name] else [])
  }

  /** Member names of one class are distinct. */
  predicate DistinctMembers(ds: seq<FieldDecl>) {
    forall i, j :: 0 <= i < j < |ds| ==> ds[i].name != ds[j].name
  }

  /** The field XML built for a typed member. */
  function DeclXml(d: FieldDecl, id: Guid): string
    requires IsTyped(d)
  {
    FieldXml.FieldXml(d.fieldType.value, d.name, d.displayName, FieldXml.AttrText(d.extras), d.innerXml, id, d.required)
  }

  /** The attributes that XML is meant to carry. */
  function DeclAttrs(d: FieldDecl, id: Guid): seq<Attr>
    requires IsTyped(d)
  {
    FieldXml.FieldAttrs(d.fieldType.value, d.name, d.displayName, d.extras, id, d.required)
  }

  function ShownName(d: FieldDecl): string {
    FieldXml.ShownName(d.displayName, d.name)
  }

  /** The attributes the update path patches on an existing field: the display
      name, the type, then every extra attribute in order. */
  function SyncAttrs(d: FieldDecl): seq<Attr>
    requires IsTyped(d)
  {
    [Attr("DisplayName", ShownName(d)), Attr("Type", d.fieldType.value)] + d.extras
  }

  /** A typed member whose XML the host reads back as meant (see
      `FieldXml.RoundTrips`: no apostrophe in a value, no repeated name). */
  predicate WellFormed(d: FieldDecl) {
    IsTyped(d) ==> FieldXml.RoundTrips(d.fieldType.value, d.name, d.displayName, d.extras, d.required)
  }

  predicate WellFormedFields(ds: seq<FieldDecl>) {
    DistinctMembers(ds) && forall i :: 0 <= i < |ds| ==> WellFormed(ds[i])
  }

  /** For a well-formed member, the built XML reads back as its attribute
      list with the inner XML as body; in particular its static name is the
      member name. */
  lemma DeclXmlReadsBack(d: FieldDecl, id: Guid)
    requires IsTyped(d) && WellFormed(d)
    ensures FieldXml.ParseElement(DeclXml(d, id)) == Some(Element(DeclAttrs(d, id), d.innerXml))
    ensures DistinctNames(DeclAttrs(d, id))
    ensures Lookup(DeclAttrs(d, id), "StaticName") == Some(d.name)
  {
    var a := DeclAttrs(d, id);
    assert DistinctNames(a) by {
      FieldXml.FieldAttrsDistinct(d.fieldType.value, d.name, d.displayName, d.extras, id, d.required);
    }
    FieldXml.FieldXmlRoundTrip(d.fieldType.value, d.name, d.displayName, d.extras, d.innerXml, id, d.required);
    assert a[1] == Attr("StaticName", d.name);
    LookupDistinct(a, 1);
  }

  /** Where the `j`-th update patch sits in the built attribute list: the
      display name first, the type fifth, the extras after the fixed five. */
  function SyncPos(j: nat): nat {
    if j == 0 then 0 else if j == 1 then 4 else j + 3
  }

  lemma SyncAttrsAt(d: FieldDecl, id: Guid, j: nat)
    requires IsTyped(d) && j < |SyncAttrs(d)|
    ensures SyncPos(j) < |DeclAttrs(d, id)| && SyncAttrs(d)[j] == DeclAttrs(d, id)[SyncPos(j)]
  {
    var a := DeclAttrs(d, id);
    var fixed := FieldXml.FixedAttrs(d.fieldType.value, d.name, d.displayName, id);
    var req := if d.required then [Attr("Required", "TRUE")] else [];
    assert a == fixed + d.extras + req;
    if j >= 2 {
      assert a[j + 3] == (fixed + d.extras)[j + 3] == d.extras[j - 2];
    }
  }

  /** The update patches have distinct names, and on a freshly built field
      they all already hold. */
  lemma SyncAttrsAgree(d: FieldDecl, id: Guid)
    requires IsTyped(d) && WellFormed(d)
    ensures DistinctNames(SyncAttrs(d))
    ensures forall j :: 0 <= j < |SyncAttrs(d)| ==> Lookup(DeclAttrs(d, id), SyncAttrs(d)[j].name) == Some(SyncAttrs(d)[j].value)
  {
    var a := DeclAttrs(d, id);
    var ps := SyncAttrs(d);
    DeclXmlReadsBack(d, id);
    forall j | 0 <= j < |ps|
      ensures Lookup(a, ps[j].name) == Some(ps[j].value)
    {
      SyncAttrsAt(d, id, j);
      LookupDistinct(a, SyncPos(j));
    }
    forall i, j | 0 <= i < j < |ps| ensures ps[i].name != ps[j].name {
      SyncAttrsAt(d, id, i);
      SyncAttrsAt(d, id, j);
    }
  }

  /** Every update patch of a well-formed member has a name the XML
      attribute constructor accepts, so none of them is skipped. */
  lemma SyncAttrsValid(d: FieldDecl)
    requires IsTyped(d) && WellFormed(d)
    ensures forall j :: 0 <= j < |SyncAttrs(d)| ==> ValidAttrName(SyncAttrs(d)[j].name)
  {
    var ps := SyncAttrs(d);
    assert ValidAttrName("DisplayName") && ValidAttrName("Type");
    assert forall j :: 2 <= j < |ps| ==> ps[j] == d.extras[j - 2];
  }
}
