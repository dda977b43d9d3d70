/** The operations of `SPListExtention<T>` on a site: each method changes
    the site's lists step by step as the code does, and its postcondition
    ties the new state to the functions of `Reconcile`, `FieldPatch`,
    `Deletion` and `ContentTypeSync`, whose properties are proved there. */
module ListExtension {
  import opened Results
  import opened Text
  import opened FieldSchema
  import opened Declarations
  import opened SiteModel
  import opened CustomFields
  import opened FieldPatch
  import opened Deletion
  import opened Reconcile
  import opened ContentTypeSync
  import FieldXml

  // ---- Field operations on one list ----

  /** `AddFieldToList`: build the field XML (with `Required` appended when
      asked) and add it to the list through the host. */
  method AddFieldToList(site: Site, li: nat, fieldType: string, internalName: string,
                        displayName: Option<string>, additionalAttr: string, innerXml: string,
                        defaultView: bool, isRequired: bool, id: Guid)
    returns (r: Result<string>)
    requires li < |site.lists|
    modifies site
    ensures match ListAddFieldAsXml(old(site.lists[li]),
                FieldXml.FieldXml(fieldType, internalName, displayName, additionalAttr, innerXml, id, isRequired),
                defaultView)
            case Err(e) => r == Err(e) && site.lists == old(site.lists)
            case Ok((l, name)) => r == Ok(name) && site.lists == old(site.lists)[li := l]
    ensures site.contentTypes == old(site.contentTypes) && site.templates == old(site.templates)
    ensures old(site.Valid()) ==> site.Valid()
  {
    var xml := FieldXml.FieldXml(fieldType, internalName, displayName, additionalAttr, innerXml, id, isRequired);
    r := site.AddFieldAsXml(li, xml, defaultView);
  }

  /** `AddFieldAttribute(list, name, key, value)`: set one attribute of the
      field with that static name; a missing field or an attribute name the
      XML parser refuses is returned as the error and changes nothing. */
  method AddFieldAttribute(site: Site, li: nat, name: string, key: string, value: string)
    returns (r: Option<Error>)
    requires li < |site.lists|
    modifies site
    ensures r == if !HasField(old(site.lists[li]).fields, name) then Some(FieldNotFound(name))
                 else if !ValidAttrName(key) then Some(InvalidAttributeName(key))
                 else None
    ensures site.lists == old(site.lists)[li := PatchEach(old(site.lists[li]), name, [Attr(key, value)])]
    ensures site.contentTypes == old(site.contentTypes) && site.templates == old(site.templates)
    ensures old(site.Valid()) ==> site.Valid()
  {
    PatchEachOne(site.lists[li], name, key, value);
    var fi := FindField(site.lists[li].fields, name);
    if fi.None? {
      return Some(FieldNotFound(name));
    }
    var i := fi.value;
    match PatchElement(site.lists[li].fields[i].schema, key, value)
    case Err(e) =>
      r := Some(e);
    case Ok(e) =>
      site.SetFieldSchema(li, i, e);
      r := None;
  }

  /** `AddFieldAttribute(list, name, attrs)`: a missing field is returned as
      the error; otherwise every attribute is set in order and the error of
      each single patch is dropped. */
  method AddFieldAttributes(site: Site, li: nat, name: string, attrs: seq<Attr>)
    returns (r: Option<Error>)
    requires li < |site.lists|
    modifies site
    ensures r == (if HasField(old(site.lists[li]).fields, name) then None else Some(FieldNotFound(name)))
    ensures site.lists == old(site.lists)[li := PatchEach(old(site.lists[li]), name, attrs)]
    ensures site.contentTypes == old(site.contentTypes) && site.templates == old(site.templates)
    ensures old(site.Valid()) ==> site.Valid()
  {
    ghost var l0 := site.lists[li];
    if FindField(site.lists[li].fields, name).None? {
      PatchEachMissing(l0, name, attrs);
      return Some(FieldNotFound(name));
    }
    ghost var ok0 := site.Valid();
    for j := 0 to |attrs|
      invariant |site.lists| == |old(site.lists)|
      invariant site.lists == old(site.lists)[li := PatchEach(l0, name, attrs[..j])]
      invariant site.contentTypes == old(site.contentTypes) && site.templates == old(site.templates)
      invariant ok0 ==> site.Valid()
    {
      assert attrs[..j + 1][..j] == attrs[..j];
      var _ := AddFieldAttribute(site, li, name, attrs[j].name, attrs[j].value);
    }
    assert attrs[..|attrs|] == attrs;
    r := None;
  }

  /** `DeleteFields`: delete the field with that static name. */
  method DeleteFields(site: Site, li: nat, name: string) returns (r: Option<Error>)
    requires li < |site.lists|
    modifies site
    ensures match ListDeleteField(old(site.lists[li]), name)
            case Err(e) => r == Some(e) && site.lists == old(site.lists)
            case Ok(l) => r == None && site.lists == old(site.lists)[li := l]
    ensures site.contentTypes == old(site.contentTypes) && site.templates == old(site.templates)
    ensures old(site.Valid()) ==> site.Valid()
  {
    r := site.DeleteField(li, name);
  }

  /** The body of the loop of `AddFieldsToList` for one member: a member
      without a field type is skipped, the others are created. */
  method AddMember(site: Site, li: nat, d: FieldDecl, id: Guid) returns (err: Option<Error>)
    requires li < |site.lists|
    modifies site
    ensures !IsTyped(d) ==> err == None && site.lists == old(site.lists)
    ensures IsTyped(d) ==>
      match CreateField(old(site.lists[li]), d, id)
      case Err(e) => err == Some(e) && site.lists == old(site.lists)
      case Ok(l) => err == None && site.lists == old(site.lists)[li := l]
    ensures site.contentTypes == old(site.contentTypes) && site.templates == old(site.templates)
    ensures old(site.Valid()) ==> site.Valid()
  {
    var parsed := FieldXml.ParseAdditionalAttributes(Some(d.extras));
    if d.fieldType.None? {
      return None;
    }
    var r := AddFieldToList(site, li, d.fieldType.value, d.name, d.displayName, parsed,
                            d.innerXml, d.inDefaultView, d.required, id);
    assert FieldXml.FieldXml(d.fieldType.value, d.name, d.displayName, parsed, d.innerXml, id, d.required)
        == DeclXml(d, id);
    err := if r.Err? then Some(r.error) else None;
  }

  /** `AddFieldsToList`: create every typed member, with the member at
      position `k` given `guids(k)`; the first error ends the loop and is
      returned, the fields created before it stay. */
  method AddFieldsToList(site: Site, li: nat, ds: seq<FieldDecl>, guids: nat -> Guid)
    returns (err: Option<Error>)
    requires li < |site.lists|
    modifies site
    ensures site.lists == old(site.lists)[li := CreateFields(old(site.lists[li]), ds, guids).list]
    ensures err == CreateFields(old(site.lists[li]), ds, guids).failure
    ensures site.contentTypes == old(site.contentTypes) && site.templates == old(site.templates)
    ensures old(site.Valid()) ==> site.Valid()
  {
    ghost var l0 := site.lists[li];
    ghost var base := site.lists;
    ghost var ok0 := site.Valid();
    err := None;
    var i := 0;
    while i < |ds| && err.None?
      invariant i <= |ds|
      invariant ok0 ==> site.Valid()
      invariant site.lists == base[li := CreateFields(l0, ds[..i], guids).list]
      invariant err == CreateFields(l0, ds[..i], guids).failure
      invariant site.contentTypes == old(site.contentTypes) && site.templates == old(site.templates)
    {
      CreateFieldsNext(l0, ds, guids, i);
      err := AddMember(site, li, ds[i], guids(i));
      i := i + 1;
    }
    if err.Some? {
      CreateFieldsStops(l0, ds, guids, i);
    } else {
      assert ds[..i] == ds;
    }
  }

  /** The update of one existing field inside `UpdateListInstanceFields`:
      display name, type, then the extra attributes when there are any. This
      is the corrected update: the display name set is the one creation
      writes (the declared one, or the member name when none or an empty one
      is declared). The code as written sets the declared display name
      unchecked; `Reconcile.SyncFieldAsWritten` models that step. */
  method SyncExisting(site: Site, li: nat, d: FieldDecl)
    requires li < |site.lists| && IsTyped(d)
    modifies site
    ensures site.lists == old(site.lists)[li := SyncField(old(site.lists[li]), d)]
    ensures site.contentTypes == old(site.contentTypes) && site.templates == old(site.templates)
  {
    ghost var base := site.lists;
    ghost var l1 := PatchEach(base[li], d.name, [Attr("DisplayName", ShownName(d))]);
    ghost var l2 := PatchEach(l1, d.name, [Attr("Type", d.fieldType.value)]);
    SyncFieldSteps(base[li], d);
    var _ := AddFieldAttribute(site, li, d.name, "DisplayName", ShownName(d));
    assert site.lists == base[li := l1];
    var _ := AddFieldAttribute(site, li, d.name, "Type", d.fieldType.value);
    assert site.lists == base[li := l2];
    if d.extras != [] {
      var _ := AddFieldAttributes(site, li, d.name, d.extras);
    }
    assert site.lists == base[li := PatchEach(l2, d.name, d.extras)];
  }

  /** The body of the member loop of `UpdateListInstanceFields` for one
      member. */
  method UpdateMember(site: Site, li: nat, d: FieldDecl, existFields: seq<string>, id: Guid)
    returns (err: Option<Error>)
    requires li < |site.lists|
    modifies site
    ensures match Step(old(site.lists[li]), d, existFields, id)
            case Err(e) => err == Some(e) && site.lists == old(site.lists)
            case Ok(l) => err == None && site.lists == old(site.lists)[li := l]
    ensures site.contentTypes == old(site.contentTypes) && site.templates == old(site.templates)
  {
    if d.fieldType.None? {
      return None;
    }
    if d.name in existFields {
      SyncExisting(site, li, d);
      return None;
    }
    var attributes := FieldXml.ParseAdditionalAttributes(Some(d.extras));
    var r := AddFieldToList(site, li, d.fieldType.value, d.name, d.displayName, attributes,
                            d.innerXml, d.inDefaultView, d.required, id);
    assert FieldXml.FieldXml(d.fieldType.value, d.name, d.displayName, attributes, d.innerXml, id, d.required)
        == DeclXml(d, id);
    err := if r.Err? then Some(r.error) else None;
  }

  /** The member loop of `UpdateListInstanceFields`: update the members
      among `existFields`, create the other typed ones, and collect the
      names of the typed members; the first error ends the loop. */
  method UpdateMembers(site: Site, li: nat, ds: seq<FieldDecl>, existFields: seq<string>, guids: nat -> Guid)
    returns (err: Option<Error>, propNames: seq<string>)
    requires li < |site.lists|
    modifies site
    ensures site.lists == old(site.lists)[li := Run(old(site.lists[li]), ds, existFields, guids).list]
    ensures err == Run(old(site.lists[li]), ds, existFields, guids).failure
    ensures err.None? ==> propNames == TypedNames(ds)
    ensures site.contentTypes == old(site.contentTypes) && site.templates == old(site.templates)
  {
    ghost var l0 := site.lists[li];
    ghost var base := site.lists;
    propNames := [];
    for i := 0 to |ds|
      invariant |site.lists| == |base|
      invariant site.lists == base[li := Run(l0, ds[..i], existFields, guids).list]
      invariant Run(l0, ds[..i], existFields, guids).failure.None?
      invariant propNames == TypedNames(ds[..i])
      invariant site.contentTypes == old(site.contentTypes) && site.templates == old(site.templates)
    {
      RunNext(l0, ds, existFields, guids, i);
      assert ds[..i + 1][..i] == ds[..i];
      var r := UpdateMember(site, li, ds[i], existFields, guids(i));
      if r.Some? {
        RunStops(l0, ds, existFields, guids, i + 1);
        return r, propNames;
      }
      if ds[i].fieldType.Some? {
        propNames := propNames + [ds[i].name];
      }
    }
    assert ds[..|ds|] == ds;
    err := None;
  }

  /** The deletion loop of `UpdateListInstanceFields`; the first failed
      delete ends it. */
  method DeleteOrphans(site: Site, li: nat, orphans: seq<string>) returns (err: Option<Error>)
    requires li < |site.lists|
    modifies site
    ensures site.lists == old(site.lists)[li := DeleteAll(old(site.lists[li]), orphans).list]
    ensures err == DeleteAll(old(site.lists[li]), orphans).failure
    ensures site.contentTypes == old(site.contentTypes) && site.templates == old(site.templates)
  {
    ghost var l1 := site.lists[li];
    ghost var base := site.lists;
    for j := 0 to |orphans|
      invariant |site.lists| == |base|
      invariant site.lists == base[li := DeleteAll(l1, orphans[..j]).list]
      invariant DeleteAll(l1, orphans[..j]).failure.None?
      invariant site.contentTypes == old(site.contentTypes) && site.templates == old(site.templates)
    {
      DeleteAllNext(l1, orphans, j);
      var r := DeleteFields(site, li, orphans[j]);
      if r.Some? {
        DeleteAllStops(l1, orphans, j + 1);
        return r;
      }
    }
    assert orphans[..|orphans|] == orphans;
    err := None;
  }

  /** `UpdateListInstanceFields`: update the existing custom fields the
      members name, create the other typed members, and then, when asked,
      delete the custom fields no typed member names; the first error
      ends the work and is returned. */
  method UpdateListInstanceFields(site: Site, li: nat, ds: seq<FieldDecl>, removeOld: bool, guids: nat -> Guid)
    returns (err: Option<Error>)
    requires li < |site.lists|
    modifies site
    ensures site.lists == old(site.lists)[li := Reconcile.Reconcile(old(site.lists[li]), ds, removeOld, guids).list]
    ensures err == Reconcile.Reconcile(old(site.lists[li]), ds, removeOld, guids).failure
    ensures site.contentTypes == old(site.contentTypes) && site.templates == old(site.templates)
    ensures old(site.Valid()) ==> site.Valid()
  {
    ghost var base := site.lists;
    var existFields := CustomFieldNames(site.lists[li].fields);
    var propNames;
    if site.Valid() {
      ReconcileKeepsAllUnique(base, li, ds, removeOld, guids);
    }
    err, propNames := UpdateMembers(site, li, ds, existFields, guids);
    if err.Some? || !removeOld {
      return;
    }
    err := DeleteOrphans(site, li, Orphans(existFields, propNames));
  }

  // ---- Content-type operations on one list ----

  /** The first loop of `UpdateContentTypeListFields`: for every field of
      the site content type, delete its link and add it back at the end. */
  method RelinkFields(site: Site, li: nat, c: nat, fields: seq<LiveField>)
    requires li < |site.lists| && c < |site.lists[li].contentTypes|
    modifies site
    ensures site.lists == old(site.lists)[li := SetLinks(old(site.lists[li]), c, Relink(old(site.lists[li]).contentTypes[c].links, Names(fields)))]
    ensures site.contentTypes == old(site.contentTypes) && site.templates == old(site.templates)
  {
    ghost var l0 := site.lists[li];
    ghost var links0 := l0.contentTypes[c].links;
    var ns := Names(fields);
    assert SetLinks(l0, c, Relink(links0, ns[..0])) == l0 by {
      assert ns[..0] == [];
      assert l0.contentTypes[c := l0.contentTypes[c].(links := links0)] == l0.contentTypes;
    }
    ghost var base := site.lists;
    for k := 0 to |fields|
      invariant |site.lists| == |base|
      invariant site.lists == base[li := SetLinks(l0, c, Relink(links0, ns[..k]))]
      invariant site.contentTypes == old(site.contentTypes) && site.templates == old(site.templates)
    {
      RelinkNext(links0, ns, k);
      ghost var cur := Relink(links0, ns[..k]);
      var name := fields[k].staticName;
      var l := site.lists[li];
      assert l == SetLinks(l0, c, cur);
      var dropped := Minus(l.contentTypes[c].links, [name]);
      SetLinksTwice(l0, c, cur, dropped);
      site.SetList(li, SetLinks(l, c, dropped));
      assert site.lists == base[li := SetLinks(l0, c, dropped)];
      l := site.lists[li];
      var added := l.contentTypes[c].links + [name];
      SetLinksTwice(l0, c, dropped, added);
      site.SetList(li, SetLinks(l, c, added));
      assert site.lists == base[li := SetLinks(l0, c, added)];
    }
    assert ns[..|fields|] == ns;
    assert site.lists == base[li := SetLinks(l0, c, Relink(links0, ns))];
  }

  /** The body of the second loop of `UpdateContentTypeListFields` for a
      link whose field the site content type lacks. */
  method DropStaleLink(site: Site, li: nat, c: nat, x: string, removeOld: bool) returns (err: Option<Error>)
    requires li < |site.lists| && c < |site.lists[li].contentTypes|
    modifies site
    ensures site.lists == old(site.lists)[li := DropLink(old(site.lists[li]), c, x, removeOld).list]
    ensures err == DropLink(old(site.lists[li]), c, x, removeOld).failure
    ensures site.contentTypes == old(site.contentTypes) && site.templates == old(site.templates)
  {
    var l := site.lists[li];
    site.SetList(li, SetLinks(l, c, Minus(l.contentTypes[c].links, [x])));
    err := None;
    if removeOld {
      err := DeleteFields(site, li, x);
    }
  }

  /** The second loop of `UpdateContentTypeListFields`, over the links `xs`
      taken after relinking. */
  method PruneLinks(site: Site, li: nat, c: nat, xs: seq<string>, ns: seq<string>, removeOld: bool)
    returns (err: Option<Error>)
    requires li < |site.lists| && c < |site.lists[li].contentTypes|
    modifies site
    ensures site.lists == old(site.lists)[li := Prune(old(site.lists[li]), c, xs, ns, removeOld).list]
    ensures err == Prune(old(site.lists[li]), c, xs, ns, removeOld).failure
    ensures site.contentTypes == old(site.contentTypes) && site.templates == old(site.templates)
  {
    ghost var l1 := site.lists[li];
    ghost var base := site.lists;
    for k := 0 to |xs|
      invariant |site.lists| == |base|
      invariant site.lists == base[li := Prune(l1, c, xs[..k], ns, removeOld).list]
      invariant Prune(l1, c, xs[..k], ns, removeOld).failure.None?
      invariant site.contentTypes == old(site.contentTypes) && site.templates == old(site.templates)
    {
      ghost var o := Prune(l1, c, xs[..k], ns, removeOld);
      assert site.lists[li] == o.list;
      PruneNext(l1, c, xs, ns, removeOld, k);
      if xs[k] !in ns {
        var r := DropStaleLink(site, li, c, xs[k], removeOld);
        assert site.lists == base[li := DropLink(o.list, c, xs[k], removeOld).list];
        if r.Some? {
          PruneStops(l1, c, xs, ns, removeOld, k + 1);
          return r;
        }
      }
    }
    assert xs[..|xs|] == xs;
    err := None;
  }

  /** `UpdateContentTypeListFields`: when the site content type and a list
      content type derived from it both exist, relink every field of the
      site content type, then drop every link whose field the site content
      type lacks and, when asked, delete that list field; a failed delete
      is returned. */
  method UpdateContentTypeListFields(site: Site, li: nat, ctId: string, removeOld: bool)
    returns (err: Option<Error>)
    requires li < |site.lists|
    modifies site
    ensures site.lists == old(site.lists)[li := SyncContentType(old(site.lists[li]), old(site.contentTypes), ctId, removeOld).list]
    ensures err == SyncContentType(old(site.lists[li]), old(site.contentTypes), ctId, removeOld).failure
    ensures site.contentTypes == old(site.contentTypes) && site.templates == old(site.templates)
    ensures old(site.Valid()) ==> site.Valid()
  {
    if site.Valid() {
      SyncContentTypeKeepsAllUnique(site.lists, li, site.contentTypes, ctId, removeOld);
    }
    var s := FindSiteContentType(site.contentTypes, ctId);
    var found := FindListContentType(site.lists[li].contentTypes, ctId);
    if s.None? || found.None? {
      return None;
    }
    var c := found.value;
    var fields := site.contentTypes[s.value].fields;
    RelinkFields(site, li, c, fields);
    var xs := site.lists[li].contentTypes[c].links;
    err := PruneLinks(site, li, c, xs, Names(fields), removeOld);
  }

  /** `AddContentTypeToList`: refuse an unset id or a content type the site
      lacks; otherwise enable content types and, unless a content type of
      that name is already on the list, add it (the host also adds the
      fields it links that the list lacks). */
  method AddContentTypeToList(site: Site, li: nat, ctId: string, suffix: Guid)
    returns (err: Option<Error>)
    requires li < |site.lists|
    modifies site
    ensures match BindContentType(old(site.lists[li]), old(site.contentTypes), ctId, suffix)
            case Err(e) => err == Some(e) && site.lists == old(site.lists)
            case Ok(l) => err == None && site.lists == old(site.lists)[li := l]
    ensures site.contentTypes == old(site.contentTypes) && site.templates == old(site.templates)
    ensures old(site.Valid()) ==> site.Valid()
  {
    if ctId == "" {
      return Some(ContentTypeIdNotSet);
    }
    var s := FindSiteContentType(site.contentTypes, ctId);
    if s.None? {
      return Some(ContentTypeNotFound(ctId));
    }
    var ct := site.contentTypes[s.value];
    var l := site.lists[li];
    site.SetList(li, l.(contentTypesEnabled := true));
    if exists i :: 0 <= i < |l.contentTypes| && l.contentTypes[i].name == ct.name {
      return None;
    }
    l := site.lists[li];
    if site.Valid() {
      AllUniqueAt(site.lists, li);
    }
    site.SetList(li, l.(contentTypes := l.contentTypes + [ListContentType(ctId + "00" + suffix, ct.name, Names(ct.fields))],
                        fields := AddMissing(l.fields, ct.fields)));
    err := None;
  }

  /** What `UpdateListFields` does to one list: the content-type path when
      the schema names a content type, the field path otherwise. */
  function UpdateList(l: ListInfo, siteCts: seq<SiteContentType>, schema: ListSchema, removeOld: bool, guids: nat -> Guid): Outcome {
    if schema.contentTypeId == "" then Reconcile.Reconcile(l, schema.fields, removeOld, guids)
    else SyncContentType(l, siteCts, schema.contentTypeId, removeOld)
  }

  /** `UpdateListFields`. */
  method UpdateListFields(site: Site, li: nat, schema: ListSchema, removeOld: bool, guids: nat -> Guid)
    returns (err: Option<Error>)
    requires li < |site.lists|
    modifies site
    ensures site.lists == old(site.lists)[li := UpdateList(old(site.lists[li]), old(site.contentTypes), schema, removeOld, guids).list]
    ensures err == UpdateList(old(site.lists[li]), old(site.contentTypes), schema, removeOld, guids).failure
    ensures site.contentTypes == old(site.contentTypes) && site.templates == old(site.templates)
    ensures old(site.Valid()) ==> site.Valid()
  {
    if schema.contentTypeId == "" {
      err := UpdateListInstanceFields(site, li, schema.fields, removeOld, guids);
    } else {
      err := UpdateContentTypeListFields(site, li, schema.contentTypeId, removeOld);
    }
  }

  // ---- Finding a list ----

  /** The first list that `p` accepts. */
  function FirstList(ls: seq<ListInfo>, p: ListInfo -> bool): (r: Option<nat>)
    ensures r.Some? ==> r.value < |ls| && p(ls[r.value])
    ensures r.Some? ==> forall j :: 0 <= j < r.value ==> !p(ls[j])
    ensures r.None? ==> forall i :: 0 <= i < |ls| ==> !p(ls[i])
  {
    if ls == [] then None
    else if p(ls[0]) then Some(0)
    else match FirstList(ls[1..], p)
      case None => None
      case Some(i) => Some(i + 1)
  }

  /** `GetSPListByInternalName`: the first list whose root folder carries the
      internal name; none when the internal name is not set. */
  function GetSPListByInternalName(lists: seq<ListInfo>, schema: ListSchema): (r: Option<nat>)
    ensures schema.internalName == "" ==> r.None?
    ensures r.Some? ==> r.value < |lists| && lists[r.value].rootName == schema.internalName
    ensures r.Some? ==> forall j :: 0 <= j < r.value ==> lists[j].rootName != schema.internalName
    ensures r.None? && schema.internalName != "" ==>
      forall i :: 0 <= i < |lists| ==> lists[i].rootName != schema.internalName
  {
    if schema.internalName == "" then None
    else FirstList(lists, (l: ListInfo) => l.rootName == schema.internalName)
  }

  /** `GetSPListByDisplayName`: a list titled with the display name; none
      when the display name is not set. */
  function GetSPListByDisplayName(lists: seq<ListInfo>, schema: ListSchema): (r: Option<nat>)
    ensures schema.displayName == "" ==> r.None?
    ensures r.Some? ==> r.value < |lists| && lists[r.value].title == schema.displayName
    ensures r.None? && schema.displayName != "" ==>
      forall i :: 0 <= i < |lists| ==> lists[i].title != schema.displayName
  {
    if schema.displayName == "" then None
    else FirstList(lists, (l: ListInfo) => l.title == schema.displayName)
  }

  /** `GetSPList`: no list without a site; a list found by internal name
      wins over one found by display name. */
  function GetSPList(web: Site?, schema: ListSchema): (r: Option<nat>)
    reads web
    ensures web == null ==> r.None?
    ensures r.Some? ==> web != null && r.value < |web.lists|
    ensures r.Some? ==>
      (schema.internalName != "" && web.lists[r.value].rootName == schema.internalName)
      || (schema.displayName != "" && web.lists[r.value].title == schema.displayName)
    ensures web != null && schema.internalName != "" && r.Some?
            && (exists i :: 0 <= i < |web.lists| && web.lists[i].rootName == schema.internalName) ==>
      web.lists[r.value].rootName == schema.internalName
    ensures web != null && r.None? ==>
      forall i :: 0 <= i < |web.lists| ==>
        (schema.internalName == "" || web.lists[i].rootName != schema.internalName)
        && (schema.displayName == "" || web.lists[i].title != schema.displayName)
  {
    if web == null then None
    else match GetSPListByInternalName(web.lists, schema)
      case Some(i) => Some(i)
      case None => GetSPListByDisplayName(web.lists, schema)
  }

  /** `GetCustomFields`: the custom fields of the list the schema names, or
      nothing when there is no such list. */
  function GetCustomFields(web: Site?, schema: ListSchema): (r: Option<seq<LiveField>>)
    reads web
    ensures r.Some? <==> GetSPList(web, schema).Some?
    ensures r.Some? ==>
      forall f :: f in r.value <==> f in web.lists[GetSPList(web, schema).value].fields && IsCustom(f)
  {
    match GetSPList(web, schema)
    case None => None
    case Some(i) => Some(CustomFieldList(web.lists[i].fields))
  }

  // ---- Creating a list ----

  /** The list `Lists.Add(internalName, description, GenericList)` creates,
      once its title is set to the display name. */
  function FreshList(listId: Guid, schema: ListSchema, genericFields: seq<LiveField>): ListInfo {
    ListInfo(listId, schema.internalName, schema.displayName, schema.description, genericFields, [], false)
  }

  /** Filling a new list: the content type when the schema names one, the
      typed members otherwise. */
  function Populate(l: ListInfo, siteCts: seq<SiteContentType>, schema: ListSchema, guids: nat -> Guid, suffix: Guid): Outcome {
    if schema.contentTypeId != "" then
      match BindContentType(l, siteCts, schema.contentTypeId, suffix)
      case Err(e) => Outcome(l, Some(e))
      case Ok(l1) => Outcome(l1, None)
    else CreateFields(l, schema.fields, guids)
  }

  /** What `AddListToWeb` leaves: the lists of the site and the result. A
      title or root folder name already taken is refused and changes
      nothing; otherwise the new list is appended, and it stays even when
      filling it fails. */
  function AddListToWebResult(lists: seq<ListInfo>, siteCts: seq<SiteContentType>, genericFields: seq<LiveField>,
                              schema: ListSchema, listId: Guid, guids: nat -> Guid, suffix: Guid): (r: (seq<ListInfo>, Result<nat>))
    ensures GetSPListByDisplayName(lists, schema).Some? ==> r == (lists, Err(DisplayNameExists(schema.displayName)))
    ensures GetSPListByDisplayName(lists, schema).None? && GetSPListByInternalName(lists, schema).Some? ==>
      r == (lists, Err(InternalNameExists(schema.internalName)))
    ensures GetSPListByDisplayName(lists, schema).None? && GetSPListByInternalName(lists, schema).None? ==>
      |r.0| == |lists| + 1 && r.0[..|lists|] == lists
      && r.0[|lists|].id == listId
      && r.0[|lists|].rootName == schema.internalName && r.0[|lists|].title == schema.displayName
      && (r.1.Ok? ==> r.1.value == |lists|)
  {
    if GetSPListByDisplayName(lists, schema).Some? then (lists, Err(DisplayNameExists(schema.displayName)))
    else if GetSPListByInternalName(lists, schema).Some? then (lists, Err(InternalNameExists(schema.internalName)))
    else
      var o := Populate(FreshList(listId, schema, genericFields), siteCts, schema, guids, suffix);
      assert (lists + [o.list])[..|lists|] == lists;
      (lists + [o.list], if o.failure.Some? then Err(o.failure.value) else Ok(|lists|))
  }

  /** `AddListToWeb`. */
  method AddListToWeb(site: Site, schema: ListSchema, listId: Guid, guids: nat -> Guid, suffix: Guid)
    returns (r: Result<nat>)
    modifies site
    ensures (site.lists, r) == AddListToWebResult(old(site.lists), old(site.contentTypes), site.genericListFields,
                                                  schema, listId, guids, suffix)
    ensures site.contentTypes == old(site.contentTypes) && site.templates == old(site.templates)
    ensures old(site.Valid()) ==> site.Valid()
  {
    if GetSPListByDisplayName(site.lists, schema).Some? {
      return Err(DisplayNameExists(schema.displayName));
    }
    if GetSPListByInternalName(site.lists, schema).Some? {
      return Err(InternalNameExists(schema.internalName));
    }
    var index := site.AddList(listId, schema.internalName, schema.description);
    site.SetTitle(index, schema.displayName);
    ghost var created := FreshList(listId, schema, site.genericListFields);
    ghost var o := Populate(created, site.contentTypes, schema, guids, suffix);
    assert site.lists == old(site.lists) + [created];
    var e: Option<Error>;
    if schema.contentTypeId != "" {
      e := AddContentTypeToList(site, index, schema.contentTypeId, suffix);
    } else {
      e := AddFieldsToList(site, index, schema.fields, guids);
    }
    assert site.lists == (old(site.lists) + [created])[index := o.list] == old(site.lists) + [o.list];
    assert e == o.failure;
    if e.Some? {
      return Err(e.value);
    }
    r := Ok(index);
  }

  /** `Create`: no site, or a display or internal name not set, is refused
      before anything happens. */
  method Create(web: Site?, schema: ListSchema, listId: Guid, guids: nat -> Guid, suffix: Guid)
    returns (r: Result<nat>)
    modifies web
    ensures web == null ==> r == Err(WebNotDefined)
    ensures web != null && (schema.displayName == "" || schema.internalName == "") ==>
      r == Err(NamesNotDefined) && web.lists == old(web.lists)
    ensures web != null && schema.displayName != "" && schema.internalName != "" ==>
      (web.lists, r) == AddListToWebResult(old(web.lists), old(web.contentTypes), web.genericListFields,
                                           schema, listId, guids, suffix)
    ensures web != null ==> web.contentTypes == old(web.contentTypes) && web.templates == old(web.templates)
    ensures web != null && old(web.Valid()) ==> web.Valid()
  {
    if web == null {
      return Err(WebNotDefined);
    }
    if schema.displayName == "" || schema.internalName == "" {
      return Err(NamesNotDefined);
    }
    r := AddListToWeb(web, schema, listId, guids, suffix);
  }

  /** A list added under names that were free is found again by its
      internal name, by its display name and so by `GetSPList`, whether or
      not filling it succeeded. */
  lemma AddedListIsFound(lists: seq<ListInfo>, siteCts: seq<SiteContentType>, genericFields: seq<LiveField>,
                         schema: ListSchema, listId: Guid, guids: nat -> Guid, suffix: Guid)
    requires schema.displayName != "" && schema.internalName != ""
    requires GetSPListByDisplayName(lists, schema).None? && GetSPListByInternalName(lists, schema).None?
    ensures var after := AddListToWebResult(lists, siteCts, genericFields, schema, listId, guids, suffix).0;
      GetSPListByInternalName(after, schema) == Some(|lists|)
      && GetSPListByDisplayName(after, schema) == Some(|lists|)
  {
    var after := AddListToWebResult(lists, siteCts, genericFields, schema, listId, guids, suffix).0;
    forall i | 0 <= i < |lists| ensures after[i] == lists[i] {
      assert after[..|lists|][i] == after[i];
    }
    var a := GetSPListByInternalName(after, schema);
    var b := GetSPListByDisplayName(after, schema);
    assert a.Some? && a.value == |lists|;
    assert b.Some? && b.value == |lists|;
  }

  /** Creating the same list a second time is refused because its display
      name is now taken, and leaves the lists as they are. */
  lemma SecondAddRefused(lists: seq<ListInfo>, siteCts: seq<SiteContentType>, genericFields: seq<LiveField>,
                         schema: ListSchema, listId: Guid, listId2: Guid, guids: nat -> Guid, suffix: Guid)
    requires schema.displayName != "" && schema.internalName != ""
    requires GetSPListByDisplayName(lists, schema).None? && GetSPListByInternalName(lists, schema).None?
    ensures var after := AddListToWebResult(lists, siteCts, genericFields, schema, listId, guids, suffix).0;
      AddListToWebResult(after, siteCts, genericFields, schema, listId2, guids, suffix)
        == (after, Err(DisplayNameExists(schema.displayName)))
  {
    AddedListIsFound(lists, siteCts, genericFields, schema, listId, guids, suffix);
  }

  // ---- Updating a list and saving it as a template ----

  /** `UpdateFields`: names not set are refused, a list that cannot be
      found is reported; otherwise `UpdateListFields` on the list found. */
  method UpdateFields(web: Site?, schema: ListSchema, removeOld: bool, guids: nat -> Guid)
    returns (err: Option<Error>)
    modifies web
    ensures schema.displayName == "" || schema.internalName == "" ==>
      err == Some(NamesNotDefined) && (web != null ==> web.lists == old(web.lists))
    ensures schema.displayName != "" && schema.internalName != "" && old(GetSPList(web, schema)).None? ==>
      err == Some(ListNotFound) && (web != null ==> web.lists == old(web.lists))
    ensures schema.displayName != "" && schema.internalName != "" && old(GetSPList(web, schema)).Some? ==>
      var i := old(GetSPList(web, schema)).value;
      var o := UpdateList(old(web.lists[i]), old(web.contentTypes), schema, removeOld, guids);
      web.lists == old(web.lists)[i := o.list] && err == o.failure
    ensures web != null ==> web.contentTypes == old(web.contentTypes) && web.templates == old(web.templates)
    ensures web != null && old(web.Valid()) ==> web.Valid()
  {
    if schema.displayName == "" || schema.internalName == "" {
      return Some(NamesNotDefined);
    }
    var found := GetSPList(web, schema);
    if found.None? {
      return Some(ListNotFound);
    }
    err := UpdateListFields(web, found.value, schema, removeOld, guids);
  }

  /** The template file name: the template name without spaces, then ".stp". */
  function TemplateFileName(templateName: string): (r: string)
    ensures |r| >= 4 && r[|r| - 4..] == ".stp"
    ensures ' ' !in r[..|r| - 4]
    ensures r[..|r| - 4] == RemoveSpaces(templateName)
  {
    RemoveSpaces(templateName) + ".stp"
  }

  /** Two template names give the same file name exactly when they agree
      once their spaces are dropped. */
  lemma TemplateFileNameCollides(a: string, b: string)
    ensures TemplateFileName(a) == TemplateFileName(b) <==> RemoveSpaces(a) == RemoveSpaces(b)
  {
    if TemplateFileName(a) == TemplateFileName(b) {
      var fa := TemplateFileName(a);
      assert RemoveSpaces(a) == fa[..|fa| - 4];
      assert RemoveSpaces(b) == TemplateFileName(b)[..|fa| - 4];
    }
  }

  /** `SaveAsTemplate`: a list that cannot be found is reported; otherwise
      the host saves it under the derived file name, refusing a file name
      already in the gallery. */
  method SaveAsTemplate(web: Site?, schema: ListSchema, templateName: string, description: string, saveData: bool)
    returns (r: Option<Error>)
    modifies web
    ensures old(GetSPList(web, schema)).None? ==>
      r == Some(ListNotFound) && (web != null ==> web.templates == old(web.templates))
    ensures old(GetSPList(web, schema)).Some? ==>
      var file := TemplateFileName(templateName);
      if exists t :: t in old(web.templates) && t.fileName == file then
        r == Some(TemplateExists(file)) && web.templates == old(web.templates)
      else
        r == None
        && web.templates == old(web.templates)
             + [Template(old(web.lists)[old(GetSPList(web, schema)).value].id, file, templateName, description, saveData)]
    ensures web != null ==> web.lists == old(web.lists) && web.contentTypes == old(web.contentTypes)
  {
    var found := GetSPList(web, schema);
    if found.None? {
      return Some(ListNotFound);
    }
    var fileName := TemplateFileName(templateName);
    r := web.SaveAsTemplate(found.value, fileName, templateName, description, saveData);
  }
}
