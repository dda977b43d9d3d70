/** Which fields of a list the extension treats as its own: those that are
    neither platform built-ins nor defined by a schema URL. */
module CustomFields {
  import opened Text
  import opened SiteModel

  /** Not a built-in field and a `SourceId` that does not start with `http://`. */
  predicate IsCustom(f: LiveField) {
    !f.builtIn && !StartsWith(f.sourceId, "http://")
  }

  /** The static names of the fields, in order. */
  function Names(fs: seq<LiveField>): (r: seq<string>)
    ensures |r| == |fs| && forall i :: 0 <= i < |fs| ==> r[i] == fs[i].staticName
  {
    seq(|fs|, i requires 0 <= i < |fs| => fs[i].staticName)
  }

  /** `GetCustomFieldInternalNameList`: the static names of the custom fields, in list order. */
  function CustomFieldNames(fs: seq<LiveField>): (r: seq<string>)
    ensures forall n :: n in r <==> exists i :: 0 <= i < |fs| && IsCustom(fs[i]) && fs[i].staticName == n
    decreases |fs|
  {
    if fs == [] then []
    else
      var init := fs[..|fs| - 1];
      assert forall i :: 0 <= i < |init| ==> init[i] == fs[i];
      CustomFieldNames(init) + (if IsCustom(fs[|fs| - 1]) then [fs[|fs| - 1].staticName] else [])
  }

  /** `GetCustomFieldList`: the custom fields themselves, in list order. */
  function CustomFieldList(fs: seq<LiveField>): (r: seq<LiveField>)
    ensures forall f :: f in r <==> f in fs && IsCustom(f)
    decreases |fs|
  {
    if fs == [] then []
    else
      var init := fs[..|fs| - 1];
      assert fs == init + [fs[|fs| - 1]];
      CustomFieldList(init) + (if IsCustom(fs[|fs| - 1]) then [fs[|fs| - 1]] else [])
  }

  /** The two queries select the same fields: the name list is exactly the
      names of the field list. */
  lemma {:induction false} CustomNamesAgree(fs: seq<LiveField>)
    ensures CustomFieldNames(fs) == Names(CustomFieldList(fs))
    decreases |fs|
  {
    if fs != [] {
      CustomNamesAgree(fs[..|fs| - 1]);
    }
  }

  predicate Distinct<T(==)>(s: seq<T>) {
    forall i, j :: 0 <= i < j < |s| ==> s[i] != s[j]
  }

  /** With unique static names in the list, no custom name is listed twice. */
  lemma {:induction false} CustomFieldNamesDistinct(fs: seq<LiveField>)
    requires UniqueFieldNames(fs)
    ensures Distinct(CustomFieldNames(fs))
    decreases |fs|
  {
    if fs != [] {
      var init := fs[..|fs| - 1];
      assert forall i :: 0 <= i < |init| ==> init[i] == fs[i];
      CustomFieldNamesDistinct(init);
      var last := fs[|fs| - 1];
      assert last.staticName !in CustomFieldNames(init);
    }
  }
}
