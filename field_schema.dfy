/** The root `Field` element of a stored field schema, as the patching code
    sees it after parsing: an ordered list of attributes and a body it does not look into.
    Setting an attribute either overwrites the value of the attribute with
    that name or appends a new one, which is what `XElement.Attribute` /
    `XElement.Add` do. */
module FieldSchema {
  import opened Results

  datatype Attr = Attr(name: string, value: string)

  datatype Element = Element(attrs: seq<Attr>, body: string)

  /** Characters allowed in an attribute name. This is a simplification of
      XML's name production: it only excludes what would end or split an
      attribute in the field XML. */
  predicate IsNameChar(c: char) {
    c != ' ' && c != '=' && c != '>' && c != '<' && c != '/' && c != '\'' && c != '"'
  }

  predicate ValidAttrName(k: string) {
    |k| > 0 && forall i :: 0 <= i < |k| ==> IsNameChar(k[i])
  }

  predicate DistinctNames(attrs: seq<Attr>) {
    forall i, j :: 0 <= i < j < |attrs| ==> attrs[i].name != attrs[j].name
  }

  /** Position of the first attribute named `key`. */
  function IndexOf(attrs: seq<Attr>, key: string): (r: Option<nat>)
    ensures r.Some? ==> r.value < |attrs| && attrs[r.value].name == key
    ensures r.Some? ==> forall j :: 0 <= j < r.value ==> attrs[j].name != key
    ensures r.None? ==> forall j :: 0 <= j < |attrs| ==> attrs[j].name != key
  {
    if attrs == [] then None
    else if attrs[0].name == key then Some(0)
    else match IndexOf(attrs[1..], key)
      case None => None
      case Some(i) => Some(i + 1)
  }

  /** `XElement.Attribute(key)`: the value of the first attribute named `key`. */
  function Lookup(attrs: seq<Attr>, key: string): Option<string> {
    match IndexOf(attrs, key)
    case None => None
    case Some(i) => Some(attrs[i].value)
  }

  /** The first-index characterisation pins `IndexOf` down. */
  lemma IndexOfIs(attrs: seq<Attr>, key: string, i: nat)
    requires i < |attrs| && attrs[i].name == key
    requires forall j :: 0 <= j < i ==> attrs[j].name != key
    ensures IndexOf(attrs, key) == Some(i)
  {
    var k := IndexOf(attrs, key);
    assert k.Some? ==> !(k.value > i);
  }

  /** In a list without repeated names, the value found for a name is the
      value of the one attribute carrying it. */
  lemma LookupDistinct(attrs: seq<Attr>, i: nat)
    requires DistinctNames(attrs) && i < |attrs|
    ensures Lookup(attrs, attrs[i].name) == Some(attrs[i].value)
  {
    IndexOfIs(attrs, attrs[i].name, i);
  }

  /** Set-or-insert: overwrite the value of the first attribute named `key`,
      or append `key=value` when there is none. */
  function SetAttribute(attrs: seq<Attr>, key: string, value: string): (r: seq<Attr>)
    ensures Lookup(r, key) == Some(value)
    ensures forall k :: k != key ==> Lookup(r, k) == Lookup(attrs, k)
    ensures |r| == if IndexOf(attrs, key).Some? then |attrs| else |attrs| + 1
    ensures forall i :: 0 <= i < |attrs| && attrs[i].name != key ==> r[i] == attrs[i]
    ensures forall i :: 0 <= i < |r| ==> r[i].name == if i < |attrs| then attrs[i].name else key
    ensures DistinctNames(attrs) ==> DistinctNames(r)
  {
    match IndexOf(attrs, key)
    case None =>
      var r := attrs + [Attr(key, value)];
      IndexOfIs(r, key, |attrs|);
      forall k | k != key ensures IndexOf(r, k) == IndexOf(attrs, k) {
        if IndexOf(attrs, k).Some? {
          IndexOfIs(r, k, IndexOf(attrs, k).value);
        }
      }
      r
    case Some(i) =>
      var r := attrs[i := Attr(key, value)];
      IndexOfIs(r, key, i);
      forall k | k != key ensures IndexOf(r, k) == IndexOf(attrs, k) {
        if IndexOf(attrs, k).Some? {
          IndexOfIs(r, k, IndexOf(attrs, k).value);
        }
      }
      r
  }

  /** Setting a value the attribute already has changes nothing. */
  lemma SetAttributeUnchanged(attrs: seq<Attr>, key: string, value: string)
    requires Lookup(attrs, key) == Some(value)
    ensures SetAttribute(attrs, key, value) == attrs
  {
    var i := IndexOf(attrs, key).value;
    assert attrs[i] == Attr(key, value);
    assert attrs[i := Attr(key, value)] == attrs;
  }

  /** Patching twice with the same value is patching once. */
  lemma SetAttributeIdempotent(attrs: seq<Attr>, key: string, value: string)
    ensures SetAttribute(SetAttribute(attrs, key, value), key, value) == SetAttribute(attrs, key, value)
  {
    SetAttributeUnchanged(SetAttribute(attrs, key, value), key, value);
  }

  /** The attribute patch on one field schema (`AddFieldAttribute(SPField, key, value)`):
      a key the XML attribute constructor refuses is an error and leaves the
      element alone; otherwise the attribute is set or inserted and the body kept. */
  function PatchElement(e: Element, key: string, value: string): (r: Result<Element>)
    ensures r.Err? <==> !ValidAttrName(key)
    ensures r.Err? ==> r.error == InvalidAttributeName(key)
    ensures r.Ok? ==> r.value.body == e.body && Lookup(r.value.attrs, key) == Some(value)
    ensures r.Ok? ==> forall k :: k != key ==> Lookup(r.value.attrs, k) == Lookup(e.attrs, k)
  {
    if ValidAttrName(key) then Ok(Element(SetAttribute(e.attrs, key, value), e.body))
    else Err(InvalidAttributeName(key))
  }

  /** One patch whose failure is ignored, as every caller in the extension does. */
  function PatchOrKeep(attrs: seq<Attr>, p: Attr): seq<Attr> {
    if ValidAttrName(p.name) then SetAttribute(attrs, p.name, p.value) else attrs
  }

  /** The patches `ps` applied one after the other, each failed one skipped. */
  function ApplyAll(attrs: seq<Attr>, ps: seq<Attr>): seq<Attr>
    decreases |ps|
  {
    if ps == [] then attrs
    else PatchOrKeep(ApplyAll(attrs, ps[..|ps| - 1]), ps[|ps| - 1])
  }

  lemma {:induction false} ApplyAllAppend(attrs: seq<Attr>, ps: seq<Attr>, qs: seq<Attr>)
    ensures ApplyAll(attrs, ps + qs) == ApplyAll(ApplyAll(attrs, ps), qs)
    decreases |qs|
  {
    if qs == [] {
      assert ps + qs == ps;
    } else {
      assert (ps + qs)[..|ps + qs| - 1] == ps + qs[..|qs| - 1];
      ApplyAllAppend(attrs, ps, qs[..|qs| - 1]);
    }
  }

  /** An attribute name that none of the patches mentions keeps its value. */
  lemma {:induction false} ApplyAllOther(attrs: seq<Attr>, ps: seq<Attr>, k: string)
    requires forall j :: 0 <= j < |ps| ==> ps[j].name != k
    ensures Lookup(ApplyAll(attrs, ps), k) == Lookup(attrs, k)
    decreases |ps|
  {
    if ps != [] {
      ApplyAllOther(attrs, ps[..|ps| - 1], k);
    }
  }

  /** When the patch names are distinct, each valid patch is in force afterwards. */
  lemma {:induction false} ApplyAllSets(attrs: seq<Attr>, ps: seq<Attr>, j: nat)
    requires DistinctNames(ps) && j < |ps| && ValidAttrName(ps[j].name)
    ensures Lookup(ApplyAll(attrs, ps), ps[j].name) == Some(ps[j].value)
    decreases |ps|
  {
    var init := ps[..|ps| - 1];
    if j < |ps| - 1 {
      ApplyAllSets(attrs, init, j);
    }
  }

  /** Patches that agree with what is already there change nothing. */
  lemma {:induction false} ApplyAllUnchanged(attrs: seq<Attr>, ps: seq<Attr>)
    requires forall j :: 0 <= j < |ps| && ValidAttrName(ps[j].name) ==> Lookup(attrs, ps[j].name) == Some(ps[j].value)
    ensures ApplyAll(attrs, ps) == attrs
    decreases |ps|
  {
    if ps != [] {
      ApplyAllUnchanged(attrs, ps[..|ps| - 1]);
      var p := ps[|ps| - 1];
      if ValidAttrName(p.name) {
        SetAttributeUnchanged(attrs, p.name, p.value);
      }
    }
  }

  /** Re-applying the same distinct-named patches is a no-op. */
  lemma ApplyAllIdempotent(attrs: seq<Attr>, ps: seq<Attr>)
    requires DistinctNames(ps)
    ensures ApplyAll(ApplyAll(attrs, ps), ps) == ApplyAll(attrs, ps)
  {
    forall j | 0 <= j < |ps| && ValidAttrName(ps[j].name)
      ensures Lookup(ApplyAll(attrs, ps), ps[j].name) == Some(ps[j].value)
    {
      ApplyAllSets(attrs, ps, j);
    }
    ApplyAllUnchanged(ApplyAll(attrs, ps), ps);
  }

  /** Patching never removes an attribute name nor repeats one. */
  lemma {:induction false} ApplyAllKeepsNames(attrs: seq<Attr>, ps: seq<Attr>)
    requires DistinctNames(attrs)
    ensures DistinctNames(ApplyAll(attrs, ps))
    ensures |ApplyAll(attrs, ps)| >= |attrs|
    ensures forall i :: 0 <= i < |attrs| ==> ApplyAll(attrs, ps)[i].name == attrs[i].name
    decreases |ps|
  {
    if ps != [] {
      ApplyAllKeepsNames(attrs, ps[..|ps| - 1]);
    }
  }
}
