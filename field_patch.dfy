/** The attribute patch applied to a field of a list, found by static name
    (`AddFieldAttribute(SPList, name, key, value)` and the overload taking a
    list of extra attributes). */
module FieldPatch {
  import opened Results
  import opened FieldSchema
  import opened SiteModel

  /** `FindField` looks at names only. */
  lemma FindFieldByNames(fs: seq<LiveField>, gs: seq<LiveField>, n: string)
    requires |fs| == |gs| && forall j :: 0 <= j < |fs| ==> fs[j].staticName == gs[j].staticName
    ensures FindField(fs, n) == FindField(gs, n)
  {
    var a := FindField(fs, n);
    var b := FindField(gs, n);
    if a.Some? { assert HasField(gs, n) by { assert gs[a.value].staticName == n; } }
    if b.Some? { assert HasField(fs, n) by { assert fs[b.value].staticName == n; } }
    if a.Some? && b.Some? {
      assert !(a.value < b.value) && !(b.value < a.value);
    }
  }

  /** The field at `i` with its schema replaced by `e`. */
  function WithSchema(l: ListInfo, i: nat, e: Element): ListInfo
    requires i < |l.fields|
  {
    l.(fields := l.fields[i := l.fields[i].(schema := e)])
  }

  /** Patch one attribute of the field named `name`. A missing field and a
      key the XML attribute constructor refuses are errors that leave the
      list alone; otherwise only that field's schema changes, and in it only
      `key`, which is set to `value` whether or not it was there. */
  function PatchField(l: ListInfo, name: string, key: string, value: string): (r: Result<ListInfo>)
    ensures r.Err? <==> !HasField(l.fields, name) || !ValidAttrName(key)
    ensures !HasField(l.fields, name) ==> r == Err(FieldNotFound(name))
    ensures r.Ok? ==>
      var i := FindField(l.fields, name).value;
      var e := l.fields[i].schema;
      r.value == WithSchema(l, i, Element(SetAttribute(e.attrs, key, value), e.body))
      && Lookup(r.value.fields[i].schema.attrs, key) == Some(value)
      && (forall k :: k != key ==> Lookup(r.value.fields[i].schema.attrs, k) == Lookup(e.attrs, k))
  {
    match FindField(l.fields, name)
    case None => Err(FieldNotFound(name))
    case Some(i) =>
      match PatchElement(l.fields[i].schema, key, value)
      case Err(err) => Err(err)
      case Ok(e) => Ok(ListSetFieldSchema(l, i, e))
  }

  /** A run of patches on one field, each failure ignored, as the extension
      does when it patches `DisplayName`, `Type` and the extra attributes. */
  function PatchEach(l: ListInfo, name: string, ps: seq<Attr>): ListInfo
    decreases |ps|
  {
    if ps == [] then l
    else
      var l0 := PatchEach(l, name, ps[..|ps| - 1]);
      match PatchField(l0, name, ps[|ps| - 1].name, ps[|ps| - 1].value)
      case Ok(l1) => l1
      case Err(_) => l0
  }

  /** On an existing field, a run of patches rewrites that field's attribute
      list exactly as `ApplyAll` says and touches nothing else. */
  lemma {:induction false} PatchEachIs(l: ListInfo, name: string, ps: seq<Attr>, i: nat)
    requires FindField(l.fields, name) == Some(i)
    ensures PatchEach(l, name, ps)
         == WithSchema(l, i, Element(ApplyAll(l.fields[i].schema.attrs, ps), l.fields[i].schema.body))
    decreases |ps|
  {
    if ps == [] {
      assert l.fields[i].(schema := Element(l.fields[i].schema.attrs, l.fields[i].schema.body)) == l.fields[i];
    } else {
      var init := ps[..|ps| - 1];
      var p := ps[|ps| - 1];
      var e0 := Element(ApplyAll(l.fields[i].schema.attrs, init), l.fields[i].schema.body);
      PatchEachIs(l, name, init, i);
      PatchFieldAt(l, i, e0, name, p.name, p.value);
    }
  }

  /** A patch on a field whose schema was already replaced replaces it again. */
  lemma PatchFieldAt(l: ListInfo, i: nat, e: Element, name: string, key: string, value: string)
    requires FindField(l.fields, name) == Some(i)
    ensures PatchField(WithSchema(l, i, e), name, key, value)
         == if ValidAttrName(key) then Ok(WithSchema(l, i, Element(SetAttribute(e.attrs, key, value), e.body)))
            else Err(InvalidAttributeName(key))
  {
    var l0 := WithSchema(l, i, e);
    assert FindField(l0.fields, name) == Some(i) by {
      FindFieldByNames(l.fields, l0.fields, name);
    }
    assert l0.fields[i].schema == e;
    if ValidAttrName(key) {
      var e1 := Element(SetAttribute(e.attrs, key, value), e.body);
      assert PatchElement(e, key, value) == Ok(e1);
      WithSchemaTwice(l, i, e, e1);
    }
  }

  lemma WithSchemaTwice(l: ListInfo, i: nat, e: Element, e1: Element)
    requires i < |l.fields|
    ensures ListSetFieldSchema(WithSchema(l, i, e), i, e1) == WithSchema(l, i, e1)
  {
  }

  /** Patches run one list after another are one run over the concatenation. */
  lemma {:induction false} PatchEachAppend(l: ListInfo, name: string, ps: seq<Attr>, qs: seq<Attr>)
    ensures PatchEach(l, name, ps + qs) == PatchEach(PatchEach(l, name, ps), name, qs)
    decreases |qs|
  {
    if qs == [] {
      assert ps + qs == ps;
    } else {
      assert (ps + qs)[..|ps + qs| - 1] == ps + qs[..|qs| - 1];
      PatchEachAppend(l, name, ps, qs[..|qs| - 1]);
    }
  }

  /** Patches aimed at a field the list does not have change nothing. */
  lemma {:induction false} PatchEachMissing(l: ListInfo, name: string, ps: seq<Attr>)
    requires !HasField(l.fields, name)
    ensures PatchEach(l, name, ps) == l
    decreases |ps|
  {
    if ps != [] {
      PatchEachMissing(l, name, ps[..|ps| - 1]);
    }
  }

  /** A run of one patch is that patch, its failure skipped. */
  lemma PatchEachOne(l: ListInfo, name: string, key: string, value: string)
    ensures PatchEach(l, name, [Attr(key, value)])
         == match PatchField(l, name, key, value) case Ok(l1) => l1 case Err(_) => l
  {
    assert [Attr(key, value)][..0] == [];
  }
}
