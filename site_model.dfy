/** The host platform as an in-memory site: lists, their fields and content
    types, the site's content types and saved list templates. The host's own
    operations (`Lists.Add`, `Fields.AddFieldAsXml`, `SPField.SchemaXml`
    plus `Update()`, `Fields.Delete`, content-type binding, field links,
    `SaveAsTemplate`) are functions on list values here, and the `Site`
    class applies them in place. */
module SiteModel {
  import opened Results
  import opened Text
  import opened FieldSchema
  import FieldXml

  /** A field of a list. `builtIn` stands for membership of the field's id in
      the platform's built-in field ids; `sourceId` is where the field was
      defined (a list GUID in braces for list-created fields, a schema URL
      for platform fields). */
  datatype LiveField = LiveField(
    staticName: string,
    schema: Element,
    builtIn: bool,
    sourceId: string,
    inDefaultView: bool)

  /** A content type bound to a list, with its field links by static name. */
  datatype ListContentType = ListContentType(id: string, name: string, links: seq<string>)

  /** A content type available on the site and the fields it defines. */
  datatype SiteContentType = SiteContentType(id: string, name: string, fields: seq<LiveField>)

  datatype ListInfo = ListInfo(
    id: Guid,
    rootName: string,              // RootFolder.Name: the internal name
    title: string,                 // the display name
    description: string,
    fields: seq<LiveField>,
    contentTypes: seq<ListContentType>,
    contentTypesEnabled: bool)

  datatype Template = Template(listId: Guid, fileName: string, name: string, description: string, saveData: bool)

  predicate UniqueFieldNames(fs: seq<LiveField>) {
    forall i, j :: 0 <= i < j < |fs| ==> fs[i].staticName != fs[j].staticName
  }

  predicate HasField(fs: seq<LiveField>, name: string) {
    exists i :: 0 <= i < |fs| && fs[i].staticName == name
  }

  /** `TryGetFieldByStaticName` / `GetFieldByInternalName`: the first field
      with that static name. */
  function FindField(fs: seq<LiveField>, name: string): (r: Option<nat>)
    ensures r.Some? ==> r.value < |fs| && fs[r.value].staticName == name
    ensures r.Some? ==> forall j :: 0 <= j < r.value ==> fs[j].staticName != name
    ensures r.None? <==> !HasField(fs, name)
  {
    if fs == [] then None
    else if fs[0].staticName == name then Some(0)
    else match FindField(fs[1..], name)
      case None =>
        assert forall j :: 1 <= j < |fs| ==> fs[j] == fs[1..][j - 1];
        None
      case Some(i) => Some(i + 1)
  }

  lemma FindFieldUnique(fs: seq<LiveField>, i: nat)
    requires UniqueFieldNames(fs) && i < |fs|
    ensures FindField(fs, fs[i].staticName) == Some(i)
  {
    var r := FindField(fs, fs[i].staticName);
    assert r.Some? && !(r.value < i) && !(r.value > i);
  }

  /** A field created from XML on list `listId`. */
  function NewField(listId: Guid, name: string, schema: Element, inDefaultView: bool): LiveField {
    LiveField(name, schema, false, "{" + listId + "}", inDefaultView)
  }

  /** `Fields.AddFieldAsXml(xml, addToDefaultView, AddFieldInternalNameHint)`:
      the host reads the XML; unreadable XML, a missing `StaticName` or a
      static name already in the list is an error. On success the new field
      is appended and its static name returned. */
  function ListAddFieldAsXml(l: ListInfo, xml: string, addToDefaultView: bool): (r: Result<(ListInfo, string)>)
    ensures var p := FieldXml.ParseElement(xml);
      r.Ok? <==> p.Some? && Lookup(p.value.attrs, "StaticName").Some?
                 && !HasField(l.fields, Lookup(p.value.attrs, "StaticName").value)
    ensures r.Ok? ==> var e := FieldXml.ParseElement(xml).value;
      r.value.1 == Lookup(e.attrs, "StaticName").value
      && r.value.0 == l.(fields := l.fields + [NewField(l.id, r.value.1, e, addToDefaultView)])
    ensures r.Ok? && UniqueFieldNames(l.fields) ==> UniqueFieldNames(r.value.0.fields)
  {
    match FieldXml.ParseElement(xml)
    case None => Err(MalformedFieldXml)
    case Some(e) =>
      match Lookup(e.attrs, "StaticName")
      case None => Err(MalformedFieldXml)
      case Some(name) =>
        if FindField(l.fields, name).Some? then Err(DuplicateField(name))
        else Ok((l.(fields := l.fields + [NewField(l.id, name, e, addToDefaultView)]), name))
  }

  /** Writing a field's schema back (`SPField.SchemaXml = ...; Update()`). */
  function ListSetFieldSchema(l: ListInfo, i: nat, e: Element): (r: ListInfo)
    requires i < |l.fields|
    ensures |r.fields| == |l.fields|
    ensures r.fields[i].schema == e
    ensures forall j :: 0 <= j < |l.fields| ==> r.fields[j].staticName == l.fields[j].staticName
    ensures UniqueFieldNames(l.fields) ==> UniqueFieldNames(r.fields)
  {
    l.(fields := l.fields[i := l.fields[i].(schema := e)])
  }

  /** `Fields.Delete(name)`: removes the field with that static name; an
      unknown name is an error. */
  function ListDeleteField(l: ListInfo, name: string): (r: Result<ListInfo>)
    ensures r.Err? <==> !HasField(l.fields, name)
    ensures r.Err? ==> r.error == FieldNotFound(name)
    ensures r.Ok? ==> var i := FindField(l.fields, name).value;
      r.value == l.(fields := l.fields[..i] + l.fields[i + 1..])
  {
    match FindField(l.fields, name)
    case None => Err(FieldNotFound(name))
    case Some(i) => Ok(l.(fields := l.fields[..i] + l.fields[i + 1..]))
  }

  /** Deleting a field from a list with unique names removes exactly the
      field of that name and keeps the names unique. */
  lemma DeleteFieldRemoves(l: ListInfo, name: string)
    requires UniqueFieldNames(l.fields) && HasField(l.fields, name)
    ensures var r := ListDeleteField(l, name).value.fields;
      UniqueFieldNames(r) && !HasField(r, name)
      && forall f :: f in r <==> f in l.fields && f.staticName != name
  {
    var i := FindField(l.fields, name).value;
    SliceOutUnique(l.fields, i);
    SliceOutMembers(l.fields, i);
    var r := l.fields[..i] + l.fields[i + 1..];
    forall j | 0 <= j < |r| ensures r[j].staticName != name {
      assert r[j] in r;
    }
  }

  /** Cutting one field out of a list with unique names keeps them unique. */
  lemma SliceOutUnique(fs: seq<LiveField>, i: nat)
    requires UniqueFieldNames(fs) && i < |fs|
    ensures UniqueFieldNames(fs[..i] + fs[i + 1..])
  {
    var r := fs[..i] + fs[i + 1..];
    forall a, b | 0 <= a < b < |r| ensures r[a].staticName != r[b].staticName {
      var a' := if a < i then a else a + 1;
      var b' := if b < i then b else b + 1;
      assert r[a] == fs[a'] && r[b] == fs[b'];
    }
  }

  /** With unique names, cutting out the field at `i` leaves exactly the
      fields with another name. */
  lemma SliceOutMembers(fs: seq<LiveField>, i: nat)
    requires UniqueFieldNames(fs) && i < |fs|
    ensures forall f :: f in fs[..i] + fs[i + 1..] <==> f in fs && f.staticName != fs[i].staticName
  {
    var r := fs[..i] + fs[i + 1..];
    forall j | 0 <= j < |r| ensures r[j].staticName != fs[i].staticName && r[j] in fs {
      var j' := if j < i then j else j + 1;
      assert r[j] == fs[j'];
    }
    forall f | f in fs && f.staticName != fs[i].staticName
      ensures f in r
    {
      var k :| 0 <= k < |fs| && fs[k] == f;
      if k < i { assert r[k] == f; } else { assert r[k - 1] == f; }
    }
  }

  /** Every list of `ls` keeps its static names unique. */
  predicate AllUnique(ls: seq<ListInfo>)
    decreases |ls|
  {
    ls == [] || (AllUnique(ls[..|ls| - 1]) && UniqueFieldNames(ls[|ls| - 1].fields))
  }

  lemma {:induction false} AllUniqueAt(ls: seq<ListInfo>, i: nat)
    requires AllUnique(ls) && i < |ls|
    ensures UniqueFieldNames(ls[i].fields)
    decreases |ls|
  {
    if i < |ls| - 1 {
      AllUniqueAt(ls[..|ls| - 1], i);
    }
  }

  lemma {:induction false} AllUniqueOf(ls: seq<ListInfo>)
    requires forall i :: 0 <= i < |ls| ==> UniqueFieldNames(ls[i].fields)
    ensures AllUnique(ls)
    decreases |ls|
  {
    if ls != [] {
      var init := ls[..|ls| - 1];
      assert forall i :: 0 <= i < |init| ==> init[i] == ls[i];
      AllUniqueOf(init);
    }
  }

  lemma AllUniqueAppend(ls: seq<ListInfo>, l: ListInfo)
    requires AllUnique(ls) && UniqueFieldNames(l.fields)
    ensures AllUnique(ls + [l])
  {
    assert (ls + [l])[..|ls|] == ls;
  }

  lemma {:induction false} AllUniqueUpdate(ls: seq<ListInfo>, i: nat, l: ListInfo)
    requires AllUnique(ls) && i < |ls| && UniqueFieldNames(l.fields)
    ensures AllUnique(ls[i := l])
    decreases |ls|
  {
    var init := ls[..|ls| - 1];
    if i == |ls| - 1 {
      assert ls[i := l][..|ls| - 1] == init;
    } else {
      AllUniqueUpdate(init, i, l);
      assert ls[i := l][..|ls| - 1] == init[i := l];
    }
  }

  class Site {
    var lists: seq<ListInfo>
    var contentTypes: seq<SiteContentType>
    var templates: seq<Template>
    /** The built-in fields every new generic list starts with. */
    const genericListFields: seq<LiveField>

    /** The host keeps static names unique within a list. */
    ghost predicate Valid()
      reads this
    {
      UniqueFieldNames(genericListFields) && AllUnique(lists)
    }

    constructor (lists: seq<ListInfo>, contentTypes: seq<SiteContentType>, genericListFields: seq<LiveField>)
      requires UniqueFieldNames(genericListFields)
      requires forall i :: 0 <= i < |lists| ==> UniqueFieldNames(lists[i].fields)
      ensures Valid()
      ensures this.lists == lists && this.contentTypes == contentTypes && templates == []
      ensures this.genericListFields == genericListFields
    {
      this.lists := lists;
      this.contentTypes := contentTypes;
      this.genericListFields := genericListFields;
      templates := [];
      AllUniqueOf(lists);
    }

    /** `Lists.Add(title, description, GenericList)`: a new list holding the
        generic list's fields, whose root folder is named after the title;
        returns its index. */
    method AddList(id: Guid, title: string, description: string) returns (index: nat)
      modifies this
      ensures lists == old(lists) + [ListInfo(id, title, title, description, genericListFields, [], false)]
      ensures index == |old(lists)|
      ensures contentTypes == old(contentTypes) && templates == old(templates)
      ensures old(Valid()) ==> Valid()
    {
      index := |lists|;
      if Valid() {
        AllUniqueAppend(lists, ListInfo(id, title, title, description, genericListFields, [], false));
      }
      lists := lists + [ListInfo(id, title, title, description, genericListFields, [], false)];
    }

    /** `list.Title = title; list.Update()`. */
    method SetTitle(li: nat, title: string)
      requires li < |lists|
      modifies this
      ensures lists == old(lists)[li := old(lists[li]).(title := title)]
      ensures contentTypes == old(contentTypes) && templates == old(templates)
      ensures old(Valid()) ==> Valid()
    {
      if Valid() {
        AllUniqueAt(lists, li);
        AllUniqueUpdate(lists, li, lists[li].(title := title));
      }
      lists := lists[li := lists[li].(title := title)];
    }

    method AddFieldAsXml(li: nat, xml: string, addToDefaultView: bool) returns (r: Result<string>)
      requires li < |lists|
      modifies this
      ensures match ListAddFieldAsXml(old(lists[li]), xml, addToDefaultView)
              case Err(e) => r == Err(e) && lists == old(lists)
              case Ok((l, name)) => r == Ok(name) && lists == old(lists)[li := l]
      ensures contentTypes == old(contentTypes) && templates == old(templates)
      ensures old(Valid()) ==> Valid()
    {
      match ListAddFieldAsXml(lists[li], xml, addToDefaultView)
      case Err(e) =>
        r := Err(e);
      case Ok((l, name)) =>
        if Valid() {
          AllUniqueAt(lists, li);
          AllUniqueUpdate(lists, li, l);
        }
        lists := lists[li := l];
        r := Ok(name);
    }

    method SetFieldSchema(li: nat, fi: nat, e: Element)
      requires li < |lists| && fi < |lists[li].fields|
      modifies this
      ensures lists == old(lists)[li := ListSetFieldSchema(old(lists[li]), fi, e)]
      ensures contentTypes == old(contentTypes) && templates == old(templates)
      ensures old(Valid()) ==> Valid()
    {
      if Valid() {
        AllUniqueAt(lists, li);
        AllUniqueUpdate(lists, li, ListSetFieldSchema(lists[li], fi, e));
      }
      lists := lists[li := ListSetFieldSchema(lists[li], fi, e)];
    }

    method DeleteField(li: nat, name: string) returns (r: Option<Error>)
      requires li < |lists|
      modifies this
      ensures match ListDeleteField(old(lists[li]), name)
              case Err(e) => r == Some(e) && lists == old(lists)
              case Ok(l) => r == None && lists == old(lists)[li := l]
      ensures contentTypes == old(contentTypes) && templates == old(templates)
      ensures old(Valid()) ==> Valid()
    {
      match ListDeleteField(lists[li], name)
      case Err(e) =>
        r := Some(e);
      case Ok(l) =>
        if Valid() {
          AllUniqueAt(lists, li);
          DeleteFieldRemoves(lists[li], name);
          AllUniqueUpdate(lists, li, l);
        }
        lists := lists[li := l];
        r := None;
    }

    /** Replace a list wholesale; used for host operations on content types. */
    method SetList(li: nat, l: ListInfo)
      requires li < |lists|
      modifies this
      ensures lists == old(lists)[li := l]
      ensures contentTypes == old(contentTypes) && templates == old(templates)
      ensures old(Valid()) && UniqueFieldNames(l.fields) ==> Valid()
      ensures old(Valid()) && l.fields == old(lists[li]).fields ==> Valid()
    {
      if Valid() {
        AllUniqueAt(lists, li);
        if UniqueFieldNames(l.fields) {
          AllUniqueUpdate(lists, li, l);
        }
      }
      lists := lists[li := l];
    }

    /** `SPList.SaveAsTemplate(fileName, name, description, saveData)`: the
        host refuses a file name already in the template gallery. */
    method SaveAsTemplate(li: nat, fileName: string, name: string, description: string, saveData: bool)
      returns (r: Option<Error>)
      requires li < |lists|
      modifies this
      ensures (exists t :: t in old(templates) && t.fileName == fileName) ==>
                r == Some(TemplateExists(fileName)) && templates == old(templates)
      ensures !(exists t :: t in old(templates) && t.fileName == fileName) ==>
                r == None && templates == old(templates) + [Template(old(lists)[li].id, fileName, name, description, saveData)]
      ensures lists == old(lists) && contentTypes == old(contentTypes)
    {
      if exists t :: t in templates && t.fileName == fileName {
        r := Some(TemplateExists(fileName));
      } else {
        templates := templates + [Template(lists[li].id, fileName, name, description, saveData)];
        r := None;
      }
    }
  }
}
