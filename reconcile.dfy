/** Reconciling a list's fields with the declared members
    (`UpdateListInstanceFields`, and `AddFieldsToList` on the create path),
    stated as functions on the list value, with the closed form of what a
    run leaves behind. */
module Reconcile {
  import opened Results
  import opened Text
  import opened FieldSchema
  import opened Declarations
  import opened SiteModel
  import opened CustomFields
  import opened FieldPatch
  import opened Deletion
  import FieldXml

  /** `AddFieldToList` for a typed member: build its XML around `id` and
      hand it to the host. */
  function CreateField(l: ListInfo, d: FieldDecl, id: Guid): Result<ListInfo>
    requires IsTyped(d)
  {
    match ListAddFieldAsXml(l, DeclXml(d, id), d.inDefaultView)
    case Err(e) => Err(e)
    case Ok((l1, _)) => Ok(l1)
  }

  /** The field a well-formed member becomes on list `listId`. */
  function BuiltField(listId: Guid, d: FieldDecl, id: Guid): LiveField
    requires IsTyped(d)
  {
    NewField(listId, d.name, Element(DeclAttrs(d, id), d.innerXml), d.inDefaultView)
  }

  /** Creating a well-formed member appends exactly the field its
      declaration describes, unless that static name is taken. */
  lemma CreateFieldIs(l: ListInfo, d: FieldDecl, id: Guid)
    requires IsTyped(d) && WellFormed(d)
    ensures HasField(l.fields, d.name) ==> CreateField(l, d, id) == Err(DuplicateField(d.name))
    ensures !HasField(l.fields, d.name) ==>
      CreateField(l, d, id) == Ok(l.(fields := l.fields + [BuiltField(l.id, d, id)]))
  {
    DeclXmlReadsBack(d, id);
  }

  /** The corrected update of an existing field: `DisplayName` (the declared
      display name, or the member name when none or an empty one is
      declared, as on creation), `Type`, then every extra attribute, each
      patch that fails skipped. */
  function SyncField(l: ListInfo, d: FieldDecl): ListInfo
    requires IsTyped(d)
  {
    PatchEach(l, d.name, SyncAttrs(d))
  }

  /** The update is the display-name patch, then the type patch, then the
      run of extra attributes. */
  lemma SyncFieldSteps(l: ListInfo, d: FieldDecl)
    requires IsTyped(d)
    ensures SyncField(l, d)
         == PatchEach(PatchEach(PatchEach(l, d.name, [Attr("DisplayName", ShownName(d))]),
                                d.name, [Attr("Type", d.fieldType.value)]),
                      d.name, d.extras)
  {
    var dn := [Attr("DisplayName", ShownName(d))];
    var ty := [Attr("Type", d.fieldType.value)];
    assert SyncAttrs(d) == (dn + ty) + d.extras;
    PatchEachAppend(l, d.name, dn + ty, d.extras);
    PatchEachAppend(l, d.name, dn, ty);
  }

  /** The update of an existing field as the code is written: the display
      name patched is the declared one read without a check, so a member
      with no declared display name fails with a null dereference (which
      the surrounding handler turns into the run's error), and a declared
      empty one overwrites the display name with "". */
  function SyncFieldAsWritten(l: ListInfo, d: FieldDecl): Result<ListInfo>
    requires IsTyped(d)
  {
    match d.displayName
    case None => Err(NullDisplayName(d.name))
    case Some(shown) => Ok(PatchEach(l, d.name, [Attr("DisplayName", shown), Attr("Type", d.fieldType.value)] + d.extras))
  }

  /** One member of the update loop: untyped members are skipped, members
      among the existing custom fields are updated, the others created. */
  function Step(l: ListInfo, d: FieldDecl, exist: seq<string>, id: Guid): Result<ListInfo> {
    if !IsTyped(d) then Ok(l)
    else if d.name in exist then Ok(SyncField(l, d))
    else CreateField(l, d, id)
  }

  /** The update loop over the members; the member at position `k` uses
      `guids(k)` if it is created; the first error ends the run and is
      returned with the list as far as it got. */
  function Run(l: ListInfo, ds: seq<FieldDecl>, exist: seq<string>, guids: nat -> Guid): Outcome
    decreases |ds|
  {
    if ds == [] then Outcome(l, None)
    else
      var o := Run(l, ds[..|ds| - 1], exist, guids);
      if o.failure.Some? then o
      else match Step(o.list, ds[|ds| - 1], exist, guids(|ds| - 1))
        case Err(e) => Outcome(o.list, Some(e))
        case Ok(l1) => Outcome(l1, None)
  }

  /** The loop of `AddFieldsToList`: every typed member is created. */
  function CreateFields(l: ListInfo, ds: seq<FieldDecl>, guids: nat -> Guid): (r: Outcome)
    ensures r.list.id == l.id && r.list.rootName == l.rootName && r.list.title == l.title
    decreases |ds|
  {
    if ds == [] then Outcome(l, None)
    else
      var o := CreateFields(l, ds[..|ds| - 1], guids);
      var d := ds[|ds| - 1];
      if o.failure.Some? || !IsTyped(d) then o
      else match CreateField(o.list, d, guids(|ds| - 1))
        case Err(e) => Outcome(o.list, Some(e))
        case Ok(l1) => Outcome(l1, None)
  }

  /** Creating every member is the update run against a list with no
      existing custom field. */
  lemma {:induction false} CreateFieldsIsRun(l: ListInfo, ds: seq<FieldDecl>, guids: nat -> Guid)
    ensures CreateFields(l, ds, guids) == Run(l, ds, [], guids)
    decreases |ds|
  {
    if ds != [] {
      CreateFieldsIsRun(l, ds[..|ds| - 1], guids);
    }
  }

  /** Once a run has failed, the remaining members change nothing. */
  lemma {:induction false} RunStops(l: ListInfo, ds: seq<FieldDecl>, exist: seq<string>, guids: nat -> Guid, k: nat)
    requires k <= |ds| && Run(l, ds[..k], exist, guids).failure.Some?
    ensures Run(l, ds, exist, guids) == Run(l, ds[..k], exist, guids)
    decreases |ds|
  {
    if k == |ds| {
      assert ds[..k] == ds;
    } else {
      assert ds[..|ds| - 1][..k] == ds[..k];
      RunStops(l, ds[..|ds| - 1], exist, guids, k);
    }
  }

  /** One more member of the creation loop. */
  lemma CreateFieldsNext(l: ListInfo, ds: seq<FieldDecl>, guids: nat -> Guid, i: nat)
    requires i < |ds| && CreateFields(l, ds[..i], guids).failure.None?
    ensures var o := CreateFields(l, ds[..i], guids);
      CreateFields(l, ds[..i + 1], guids)
        == if !IsTyped(ds[i]) then o
           else match CreateField(o.list, ds[i], guids(i))
             case Err(e) => Outcome(o.list, Some(e))
             case Ok(l1) => Outcome(l1, None)
  {
    assert ds[..i + 1][..i] == ds[..i];
  }

  /** One more member of the update loop. */
  lemma RunNext(l: ListInfo, ds: seq<FieldDecl>, exist: seq<string>, guids: nat -> Guid, i: nat)
    requires i < |ds| && Run(l, ds[..i], exist, guids).failure.None?
    ensures var o := Run(l, ds[..i], exist, guids);
      Run(l, ds[..i + 1], exist, guids)
        == match Step(o.list, ds[i], exist, guids(i))
           case Err(e) => Outcome(o.list, Some(e))
           case Ok(l1) => Outcome(l1, None)
  {
    assert ds[..i + 1][..i] == ds[..i];
  }

  lemma CreateFieldsStops(l: ListInfo, ds: seq<FieldDecl>, guids: nat -> Guid, k: nat)
    requires k <= |ds| && CreateFields(l, ds[..k], guids).failure.Some?
    ensures CreateFields(l, ds, guids) == CreateFields(l, ds[..k], guids)
  {
    CreateFieldsIsRun(l, ds, guids);
    CreateFieldsIsRun(l, ds[..k], guids);
    RunStops(l, ds, [], guids, k);
  }

  /** The existing custom names not among the names `keep` that the run
      went through. */
  function Orphans(exist: seq<string>, keep: seq<string>): (r: seq<string>)
    ensures forall n :: n in r <==> n in exist && n !in keep
    ensures Distinct(exist) ==> Distinct(r)
    decreases |exist|
  {
    if exist == [] then []
    else
      var init := exist[..|exist| - 1];
      var n := exist[|exist| - 1];
      assert exist == init + [n];
      var r0 := Orphans(init, keep);
      assert Distinct(exist) ==> Distinct(init) && n !in r0;
      r0 + (if n in keep then [] else [n])
  }

  /** `UpdateListInstanceFields`: the update run against the custom fields
      that exist at the start, then, only when asked and only after a run
      without error, the deletion of the orphans. */
  function Reconcile(l: ListInfo, ds: seq<FieldDecl>, removeOld: bool, guids: nat -> Guid): Outcome {
    var exist := CustomFieldNames(l.fields);
    var o := Run(l, ds, exist, guids);
    if o.failure.Some? || !removeOld then o
    else DeleteAll(o.list, Orphans(exist, TypedNames(ds)))
  }

  // ---- Closed form of a run ----

  /** Updating an existing field keeps every static name where it was. */
  lemma SyncFieldUnique(l: ListInfo, d: FieldDecl)
    requires IsTyped(d) && UniqueFieldNames(l.fields)
    ensures UniqueFieldNames(SyncField(l, d).fields)
  {
    match FindField(l.fields, d.name)
    case None => PatchEachMissing(l, d.name, SyncAttrs(d));
    case Some(i) => PatchEachIs(l, d.name, SyncAttrs(d), i);
  }

  /** A run keeps the static names of the list unique. */
  lemma {:induction false} RunUnique(l: ListInfo, ds: seq<FieldDecl>, exist: seq<string>, guids: nat -> Guid)
    requires UniqueFieldNames(l.fields)
    ensures UniqueFieldNames(Run(l, ds, exist, guids).list.fields)
    decreases |ds|
  {
    if ds != [] {
      var init := ds[..|ds| - 1];
      var d := ds[|ds| - 1];
      RunUnique(l, init, exist, guids);
      var o := Run(l, init, exist, guids);
      if o.failure.None? && IsTyped(d) && d.name in exist {
        SyncFieldUnique(o.list, d);
      }
    }
  }

  /** Reconciling a list of a site keeps every list's static names unique. */
  lemma ReconcileKeepsAllUnique(base: seq<ListInfo>, li: nat, ds: seq<FieldDecl>, removeOld: bool, guids: nat -> Guid)
    requires AllUnique(base) && li < |base|
    ensures AllUnique(base[li := Reconcile(base[li], ds, removeOld, guids).list])
  {
    var l := base[li];
    var exist := CustomFieldNames(l.fields);
    AllUniqueAt(base, li);
    RunUnique(l, ds, exist, guids);
    DeleteAllUnique(Run(l, ds, exist, guids).list, Orphans(exist, TypedNames(ds)));
    AllUniqueUpdate(base, li, Reconcile(l, ds, removeOld, guids).list);
  }

  /** The typed member named `n`, the first one if there were several. */
  function FindDecl(ds: seq<FieldDecl>, n: string): (r: Option<FieldDecl>)
    ensures r.Some? ==> IsTyped(r.value) && r.value.name == n && r.value in ds
    ensures r.None? <==> n !in TypedNames(ds)
    decreases |ds|
  {
    if ds == [] then None
    else
      var init := ds[..|ds| - 1];
      var d := ds[|ds| - 1];
      assert ds == init + [d];
      match FindDecl(init, n)
      case Some(x) => Some(x)
      case None => if IsTyped(d) && d.name == n then Some(d) else None
  }

  /** An existing field after the run: patched with its member's update
      attributes when it is an existing custom field that a typed member
      declares, unchanged otherwise. */
  function SyncedField(f: LiveField, ds: seq<FieldDecl>, exist: seq<string>): LiveField {
    if f.staticName !in exist then f
    else match FindDecl(ds, f.staticName)
      case None => f
      case Some(d) => f.(schema := Element(ApplyAll(f.schema.attrs, SyncAttrs(d)), f.schema.body))
  }

  function Synced(fs: seq<LiveField>, ds: seq<FieldDecl>, exist: seq<string>): (r: seq<LiveField>)
    ensures |r| == |fs|
  {
    seq(|fs|, i requires 0 <= i < |fs| => SyncedField(fs[i], ds, exist))
  }

  /** The fields the run appends: one per typed member that is not an
      existing custom field, in declaration order. */
  function Created(listId: Guid, ds: seq<FieldDecl>, exist: seq<string>, guids: nat -> Guid): seq<LiveField>
    decreases |ds|
  {
    if ds == [] then []
    else
      var d := ds[|ds| - 1];
      Created(listId, ds[..|ds| - 1], exist, guids)
        + (if IsTyped(d) && d.name !in exist then [BuiltField(listId, d, guids(|ds| - 1))] else [])
  }

  /** No member to be created has the name of a field already in the list. */
  predicate NoCollision(fs: seq<LiveField>, ds: seq<FieldDecl>, exist: seq<string>) {
    forall i :: 0 <= i < |ds| && IsTyped(ds[i]) && ds[i].name !in exist ==> !HasField(fs, ds[i].name)
  }

  /** What the closed form needs: unique field names, well-formed members,
      no collision, and existing names that are in the list. */
  predicate Ready(l: ListInfo, ds: seq<FieldDecl>, exist: seq<string>) {
    UniqueFieldNames(l.fields) && WellFormedFields(ds) && NoCollision(l.fields, ds, exist)
    && forall n :: n in exist ==> HasField(l.fields, n)
  }

  function Closed(l: ListInfo, ds: seq<FieldDecl>, exist: seq<string>, guids: nat -> Guid): ListInfo {
    l.(fields := Synced(l.fields, ds, exist) + Created(l.id, ds, exist, guids))
  }

  lemma ReadyPrefix(l: ListInfo, ds: seq<FieldDecl>, exist: seq<string>)
    requires Ready(l, ds, exist) && ds != []
    ensures Ready(l, ds[..|ds| - 1], exist)
  {
    var init := ds[..|ds| - 1];
    assert forall i :: 0 <= i < |init| ==> init[i] == ds[i];
  }

  /** Each appended field is built from a typed member that is not among
      the existing names, with that member's GUID. */
  lemma {:induction false} CreatedAt(listId: Guid, ds: seq<FieldDecl>, exist: seq<string>, guids: nat -> Guid, j: nat)
      returns (m: nat)
    requires j < |Created(listId, ds, exist, guids)|
    ensures m < |ds| && IsTyped(ds[m]) && ds[m].name !in exist
    ensures Created(listId, ds, exist, guids)[j] == BuiltField(listId, ds[m], guids(m))
    decreases |ds|
  {
    var init := ds[..|ds| - 1];
    var c0 := Created(listId, init, exist, guids);
    if j < |c0| {
      m := CreatedAt(listId, init, exist, guids, j);
      assert init[m] == ds[m];
    } else {
      m := |ds| - 1;
    }
  }

  /** Every appended field is a custom field named after a typed member
      that is not among the existing names. */
  lemma CreatedField(listId: Guid, ds: seq<FieldDecl>, exist: seq<string>, guids: nat -> Guid, j: nat)
    requires j < |Created(listId, ds, exist, guids)|
    ensures var f := Created(listId, ds, exist, guids)[j];
      f.staticName in TypedNames(ds) && f.staticName !in exist && IsCustom(f)
  {
    var m := CreatedAt(listId, ds, exist, guids, j);
    var f := BuiltField(listId, ds[m], guids(m));
    assert f.sourceId[0] == '{';
    assert ds[m].name in TypedNames(ds);
  }

  lemma CreatedFacts(listId: Guid, ds: seq<FieldDecl>, exist: seq<string>, guids: nat -> Guid)
    ensures forall j :: 0 <= j < |Created(listId, ds, exist, guids)| ==>
      var f := Created(listId, ds, exist, guids)[j];
      f.staticName in TypedNames(ds) && f.staticName !in exist && IsCustom(f)
  {
    forall j | 0 <= j < |Created(listId, ds, exist, guids)|
      ensures var f := Created(listId, ds, exist, guids)[j];
        f.staticName in TypedNames(ds) && f.staticName !in exist && IsCustom(f)
    {
      CreatedField(listId, ds, exist, guids, j);
    }
  }

  /** Distinct members give appended fields with distinct names. */
  lemma {:induction false} CreatedUnique(listId: Guid, ds: seq<FieldDecl>, exist: seq<string>, guids: nat -> Guid)
    requires DistinctMembers(ds)
    ensures UniqueFieldNames(Created(listId, ds, exist, guids))
    decreases |ds|
  {
    if ds != [] {
      var init := ds[..|ds| - 1];
      var d := ds[|ds| - 1];
      assert forall m :: 0 <= m < |init| ==> init[m] == ds[m];
      CreatedUnique(listId, init, exist, guids);
      CreatedFacts(listId, init, exist, guids);
      assert d.name !in TypedNames(init) by {
        assert forall m :: 0 <= m < |init| ==> ds[m].name != ds[|ds| - 1].name;
      }
    }
  }

  /** The closed form keeps static names unique. */
  lemma ClosedUnique(l: ListInfo, ds: seq<FieldDecl>, exist: seq<string>, guids: nat -> Guid)
    requires Ready(l, ds, exist)
    ensures UniqueFieldNames(Closed(l, ds, exist, guids).fields)
  {
    var fs := l.fields;
    var s0 := Synced(fs, ds, exist);
    var c0 := Created(l.id, ds, exist, guids);
    assert UniqueFieldNames(s0) && forall k :: 0 <= k < |c0| ==> !HasField(s0, c0[k].staticName) by {
      SyncedNames(fs, ds, exist);
      forall k | 0 <= k < |c0| ensures !HasField(fs, c0[k].staticName) {
        CreatedNotInList(l, ds, exist, guids, k);
      }
    }
    CreatedUnique(l.id, ds, exist, guids);
    AppendUnique(s0, c0);
  }

  lemma SyncedNames(fs: seq<LiveField>, ds: seq<FieldDecl>, exist: seq<string>)
    requires UniqueFieldNames(fs)
    ensures UniqueFieldNames(Synced(fs, ds, exist))
    ensures forall n :: HasField(Synced(fs, ds, exist), n) <==> HasField(fs, n)
  {
    var s0 := Synced(fs, ds, exist);
    assert forall i :: 0 <= i < |fs| ==> s0[i].staticName == fs[i].staticName;
  }

  /** An appended field does not collide with a field already in the list. */
  lemma CreatedNotInList(l: ListInfo, ds: seq<FieldDecl>, exist: seq<string>, guids: nat -> Guid, k: nat)
    requires Ready(l, ds, exist) && k < |Created(l.id, ds, exist, guids)|
    ensures !HasField(l.fields, Created(l.id, ds, exist, guids)[k].staticName)
  {
    var m := CreatedAt(l.id, ds, exist, guids, k);
    assert !HasField(l.fields, ds[m].name);
  }

  lemma AppendUnique(a: seq<LiveField>, b: seq<LiveField>)
    requires UniqueFieldNames(a) && UniqueFieldNames(b)
    requires forall k :: 0 <= k < |b| ==> !HasField(a, b[k].staticName)
    ensures UniqueFieldNames(a + b)
  {
    var all := a + b;
    forall i, j | 0 <= i < j < |all| ensures all[i].staticName != all[j].staticName {
      if j < |a| {
        assert all[i] == a[i] && all[j] == a[j];
      } else if i >= |a| {
        assert all[i] == b[i - |a|] && all[j] == b[j - |a|];
      } else {
        assert all[i] == a[i] && all[j] == b[j - |a|];
      }
    }
  }

  /** A run fails exactly when a member to be created collides with a field
      already in the list; it then stops at the first such member with
      `DuplicateField`, leaving the list as the members before it made it:
      nothing already changed is undone. */
  lemma RunFailure(l: ListInfo, ds: seq<FieldDecl>, exist: seq<string>, guids: nat -> Guid)
    requires UniqueFieldNames(l.fields) && WellFormedFields(ds)
    requires forall n :: n in exist ==> HasField(l.fields, n)
    ensures Run(l, ds, exist, guids).failure.None? <==> NoCollision(l.fields, ds, exist)
    ensures Run(l, ds, exist, guids).failure.Some? ==>
      exists k :: 0 <= k < |ds| && IsTyped(ds[k]) && ds[k].name !in exist && HasField(l.fields, ds[k].name)
        && Run(l, ds, exist, guids) == Outcome(Closed(l, ds[..k], exist, guids), Some(DuplicateField(ds[k].name)))
  {
    if NoCollision(l.fields, ds, exist) {
      RunClosedForm(l, ds, exist, guids);
    } else {
      var k := RunCollision(l, ds, exist, guids);
    }
  }

  /** The first member that collides ends the run with `DuplicateField`. */
  lemma RunCollision(l: ListInfo, ds: seq<FieldDecl>, exist: seq<string>, guids: nat -> Guid) returns (k: nat)
    requires UniqueFieldNames(l.fields) && WellFormedFields(ds)
    requires forall n :: n in exist ==> HasField(l.fields, n)
    requires !NoCollision(l.fields, ds, exist)
    ensures k < |ds| && IsTyped(ds[k]) && ds[k].name !in exist && HasField(l.fields, ds[k].name)
    ensures Run(l, ds, exist, guids) == Outcome(Closed(l, ds[..k], exist, guids), Some(DuplicateField(ds[k].name)))
  {
    k := FirstCollision(l.fields, ds, exist);
    var pre := ds[..k];
    assert Ready(l, pre, exist) by {
      assert forall i :: 0 <= i < |pre| ==> pre[i] == ds[i];
    }
    RunClosedForm(l, pre, exist, guids);
    assert WellFormed(ds[k]);
    StepCollides(l, pre, ds[k], exist, guids, guids(k));
    RunNext(l, ds, exist, guids, k);
    RunStops(l, ds, exist, guids, k + 1);
  }

  /** The position of the first member to be created whose name is already
      a field of the list. */
  lemma {:induction false} FirstCollision(fs: seq<LiveField>, ds: seq<FieldDecl>, exist: seq<string>) returns (k: nat)
    requires !NoCollision(fs, ds, exist)
    ensures k < |ds| && IsTyped(ds[k]) && ds[k].name !in exist && HasField(fs, ds[k].name)
    ensures NoCollision(fs, ds[..k], exist)
    decreases |ds|
  {
    var init := ds[..|ds| - 1];
    if NoCollision(fs, init, exist) {
      k := |ds| - 1;
      assert forall i :: 0 <= i < |init| ==> init[i] == ds[i];
    } else {
      k := FirstCollision(fs, init, exist);
      assert init[k] == ds[k] && init[..k] == ds[..k];
    }
  }

  lemma StepCollides(l: ListInfo, init: seq<FieldDecl>, d: FieldDecl, exist: seq<string>, guids: nat -> Guid, id: Guid)
    requires IsTyped(d) && WellFormed(d) && d.name !in exist && HasField(l.fields, d.name)
    ensures Step(Closed(l, init, exist, guids), d, exist, id) == Err(DuplicateField(d.name))
  {
    var cur := Closed(l, init, exist, guids);
    assert HasField(cur.fields, d.name) by {
      var i :| 0 <= i < |l.fields| && l.fields[i].staticName == d.name;
      assert cur.fields[i].staticName == d.name;
    }
    CreateFieldIs(cur, d, id);
  }

  lemma FindFieldPrefix(fs: seq<LiveField>, gs: seq<LiveField>, n: string, i: nat)
    requires FindField(fs, n) == Some(i)
    ensures FindField(fs + gs, n) == Some(i)
  {
    var r := FindField(fs + gs, n);
    assert (fs + gs)[i] == fs[i];
    assert r.Some? && !(r.value < i) && !(r.value > i);
  }

  /** The run as a closed form: each existing custom field a typed member
      declares is patched, every other typed member is appended as a new
      field in declaration order, and the run ends without error. */
  lemma {:induction false} RunClosedForm(l: ListInfo, ds: seq<FieldDecl>, exist: seq<string>, guids: nat -> Guid)
    requires Ready(l, ds, exist)
    ensures Run(l, ds, exist, guids) == Outcome(Closed(l, ds, exist, guids), None)
    decreases |ds|
  {
    var fs := l.fields;
    if ds == [] {
      assert Synced(fs, ds, exist) == fs;
    } else {
      var init := ds[..|ds| - 1];
      var d := ds[|ds| - 1];
      var k := |ds| - 1;
      ReadyPrefix(l, ds, exist);
      RunClosedForm(l, init, exist, guids);
      assert d.name !in TypedNames(init) by {
        assert forall i :: 0 <= i < |init| ==> init[i] == ds[i] && ds[i].name != ds[k].name;
      }
      if !IsTyped(d) {
        SyncedUnchanged(fs, ds, exist);
        CreatedUnchanged(l.id, ds, exist, guids);
      } else if d.name in exist {
        StepSync(l, ds, exist, guids);
      } else {
        assert WellFormed(ds[k]) && !HasField(fs, ds[k].name);
        StepCreate(l, ds, exist, guids);
      }
    }
  }

  /** Patching the field named after the last member changes the closed
      form at that field only. */
  lemma SyncedAfterSync(fs: seq<LiveField>, ds: seq<FieldDecl>, exist: seq<string>, i: nat)
    requires UniqueFieldNames(fs) && ds != [] && i < |fs|
    requires IsTyped(ds[|ds| - 1]) && fs[i].staticName == ds[|ds| - 1].name && ds[|ds| - 1].name in exist
    requires ds[|ds| - 1].name !in TypedNames(ds[..|ds| - 1])
    ensures var d := ds[|ds| - 1];
      Synced(fs, ds, exist)
      == Synced(fs, ds[..|ds| - 1], exist)[i := fs[i].(schema := Element(ApplyAll(fs[i].schema.attrs, SyncAttrs(d)), fs[i].schema.body))]
  {
    var init := ds[..|ds| - 1];
    var d := ds[|ds| - 1];
    assert FindDecl(init, d.name) == None;
    assert FindDecl(ds, d.name) == Some(d);
    forall j | 0 <= j < |fs| && j != i
      ensures SyncedField(fs[j], ds, exist) == SyncedField(fs[j], init, exist)
    {
      assert fs[j].staticName != d.name;
      assert FindDecl(ds, fs[j].staticName) == FindDecl(init, fs[j].staticName);
    }
  }

  lemma StepSync(l: ListInfo, ds: seq<FieldDecl>, exist: seq<string>, guids: nat -> Guid)
    requires UniqueFieldNames(l.fields) && ds != [] && IsTyped(ds[|ds| - 1]) && ds[|ds| - 1].name in exist
    requires HasField(l.fields, ds[|ds| - 1].name)
    requires ds[|ds| - 1].name !in TypedNames(ds[..|ds| - 1])
    ensures Step(Closed(l, ds[..|ds| - 1], exist, guids), ds[|ds| - 1], exist, guids(|ds| - 1))
         == Ok(Closed(l, ds, exist, guids))
  {
    var fs := l.fields;
    var init := ds[..|ds| - 1];
    var d := ds[|ds| - 1];
    var s0 := Synced(fs, init, exist);
    var c0 := Created(l.id, init, exist, guids);
    var cur := Closed(l, init, exist, guids);
    var i := FindField(fs, d.name).value;
    assert FindDecl(init, d.name) == None;
    assert forall j :: 0 <= j < |fs| ==> s0[j].staticName == fs[j].staticName;
    FindFieldByNames(fs, s0, d.name);
    FindFieldPrefix(s0, c0, d.name, i);
    assert s0[i] == fs[i];
    PatchEachIs(cur, d.name, SyncAttrs(d), i);
    var patched := fs[i].(schema := Element(ApplyAll(fs[i].schema.attrs, SyncAttrs(d)), fs[i].schema.body));
    SyncedAfterSync(fs, ds, exist, i);
    CreatedUnchanged(l.id, ds, exist, guids);
    UpdateLeft(s0, c0, i, patched);
    calc {
      Step(cur, d, exist, guids(|ds| - 1));
      Ok(SyncField(cur, d));
      Ok(WithSchema(cur, i, Element(ApplyAll(fs[i].schema.attrs, SyncAttrs(d)), fs[i].schema.body)));
      Ok(cur.(fields := (s0 + c0)[i := patched]));
      Ok(Closed(l, ds, exist, guids));
    }
  }

  lemma StepCreate(l: ListInfo, ds: seq<FieldDecl>, exist: seq<string>, guids: nat -> Guid)
    requires ds != [] && IsTyped(ds[|ds| - 1]) && WellFormed(ds[|ds| - 1]) && ds[|ds| - 1].name !in exist
    requires !HasField(l.fields, ds[|ds| - 1].name)
    requires ds[|ds| - 1].name !in TypedNames(ds[..|ds| - 1])
    ensures Step(Closed(l, ds[..|ds| - 1], exist, guids), ds[|ds| - 1], exist, guids(|ds| - 1))
         == Ok(Closed(l, ds, exist, guids))
  {
    var fs := l.fields;
    var init := ds[..|ds| - 1];
    var d := ds[|ds| - 1];
    var s0 := Synced(fs, init, exist);
    var c0 := Created(l.id, init, exist, guids);
    var cur := Closed(l, init, exist, guids);
    ClosedLacks(l, init, exist, guids, d.name);
    var bf := BuiltField(l.id, d, guids(|ds| - 1));
    CreateFieldIs(cur, d, guids(|ds| - 1));
    assert Created(l.id, ds, exist, guids) == c0 + [bf];
    SyncedUnchanged(fs, ds, exist);
    assert (s0 + c0) + [bf] == s0 + (c0 + [bf]);
    calc {
      Step(cur, d, exist, guids(|ds| - 1));
      CreateField(cur, d, guids(|ds| - 1));
      Ok(cur.(fields := cur.fields + [bf]));
      Ok(Closed(l, ds, exist, guids));
    }
  }

  /** A name neither in the list nor declared by a typed member is not in
      the closed form. */
  lemma ClosedLacks(l: ListInfo, ds: seq<FieldDecl>, exist: seq<string>, guids: nat -> Guid, n: string)
    requires !HasField(l.fields, n) && n !in TypedNames(ds)
    ensures !HasField(Closed(l, ds, exist, guids).fields, n)
  {
    var fs := l.fields;
    var cur := Closed(l, ds, exist, guids);
    var c0 := Created(l.id, ds, exist, guids);
    forall j | 0 <= j < |cur.fields| ensures cur.fields[j].staticName != n {
      if j < |fs| {
        assert cur.fields[j].staticName == fs[j].staticName;
      } else {
        assert cur.fields[j] == c0[j - |fs|];
        CreatedField(l.id, ds, exist, guids, j - |fs|);
      }
    }
  }

  lemma CreatedUnchanged(listId: Guid, ds: seq<FieldDecl>, exist: seq<string>, guids: nat -> Guid)
    requires ds != [] && (!IsTyped(ds[|ds| - 1]) || ds[|ds| - 1].name in exist)
    ensures Created(listId, ds, exist, guids) == Created(listId, ds[..|ds| - 1], exist, guids)
  {
  }

  lemma UpdateLeft<T>(a: seq<T>, b: seq<T>, i: nat, x: T)
    requires i < |a|
    ensures (a + b)[i := x] == a[i := x] + b
  {
  }

  /** A last member that is untyped or not an existing name leaves the
      patched existing fields as they were. */
  lemma SyncedUnchanged(fs: seq<LiveField>, ds: seq<FieldDecl>, exist: seq<string>)
    requires ds != [] && (!IsTyped(ds[|ds| - 1]) || ds[|ds| - 1].name !in exist)
    ensures Synced(fs, ds, exist) == Synced(fs, ds[..|ds| - 1], exist)
  {
    var init := ds[..|ds| - 1];
    var d := ds[|ds| - 1];
    forall j | 0 <= j < |fs| ensures SyncedField(fs[j], ds, exist) == SyncedField(fs[j], init, exist) {
      var n := fs[j].staticName;
      if n in exist {
        assert !IsTyped(d) || d.name != n;
        assert FindDecl(ds, n) == FindDecl(init, n);
      }
    }
  }

  // ---- Reconciliation as a whole ----

  /** The inputs under which reconciliation cannot fail: unique names in the
      list, well-formed members, and no member to be created whose name is
      already taken by a field that is not custom. */
  predicate Consistent(l: ListInfo, ds: seq<FieldDecl>) {
    UniqueFieldNames(l.fields) && WellFormedFields(ds) && NoCollision(l.fields, ds, CustomFieldNames(l.fields))
  }

  /** What reconciliation leaves: the run's closed form, without the orphans
      when deletion was asked for. */
  function Final(l: ListInfo, ds: seq<FieldDecl>, removeOld: bool, guids: nat -> Guid): ListInfo {
    var exist := CustomFieldNames(l.fields);
    var c := Closed(l, ds, exist, guids);
    if removeOld then c.(fields := Without(c.fields, Orphans(exist, TypedNames(ds)))) else c
  }

  lemma ConsistentReady(l: ListInfo, ds: seq<FieldDecl>)
    requires Consistent(l, ds)
    ensures Ready(l, ds, CustomFieldNames(l.fields))
  {
  }

  lemma {:induction false} ReconcileClosedForm(l: ListInfo, ds: seq<FieldDecl>, removeOld: bool, guids: nat -> Guid)
    requires Consistent(l, ds)
    ensures Reconcile(l, ds, removeOld, guids) == Outcome(Final(l, ds, removeOld, guids), None)
    ensures UniqueFieldNames(Final(l, ds, removeOld, guids).fields)
  {
    var exist := CustomFieldNames(l.fields);
    ConsistentReady(l, ds);
    RunClosedForm(l, ds, exist, guids);
    ClosedUnique(l, ds, exist, guids);
    if removeOld {
      var c := Closed(l, ds, exist, guids);
      var orphans := Orphans(exist, TypedNames(ds));
      CustomFieldNamesDistinct(l.fields);
      forall n | n in orphans ensures HasField(c.fields, n) {
        var i :| 0 <= i < |l.fields| && IsCustom(l.fields[i]) && l.fields[i].staticName == n;
        assert c.fields[i].staticName == n;
      }
      DeleteAllRemoves(c, orphans);
    }
  }

  /** Every attribute of `ps` is in force in `attrs`. */
  predicate AttrsHold(attrs: seq<Attr>, ps: seq<Attr>) {
    forall j :: 0 <= j < |ps| ==> Lookup(attrs, ps[j].name) == Some(ps[j].value)
  }

  /** A typed member that is not an existing name gets its built field among
      the appended ones. */
  lemma {:induction false} CreatedContains(listId: Guid, ds: seq<FieldDecl>, exist: seq<string>, guids: nat -> Guid, m: nat)
    requires m < |ds| && IsTyped(ds[m]) && ds[m].name !in exist
    ensures BuiltField(listId, ds[m], guids(m)) in Created(listId, ds, exist, guids)
    decreases |ds|
  {
    if m < |ds| - 1 {
      var init := ds[..|ds| - 1];
      assert init[m] == ds[m];
      CreatedContains(listId, init, exist, guids, m);
    }
  }

  /** When every typed member is an existing name nothing is appended. */
  lemma {:induction false} CreatedNone(listId: Guid, ds: seq<FieldDecl>, exist: seq<string>, guids: nat -> Guid)
    requires forall m :: 0 <= m < |ds| && IsTyped(ds[m]) ==> ds[m].name in exist
    ensures Created(listId, ds, exist, guids) == []
    decreases |ds|
  {
    if ds != [] {
      var init := ds[..|ds| - 1];
      assert forall m :: 0 <= m < |init| ==> init[m] == ds[m];
      CreatedNone(listId, init, exist, guids);
    }
  }

  /** The member is the only typed one with its name. */
  lemma FindDeclIs(ds: seq<FieldDecl>, m: nat)
    requires DistinctMembers(ds) && m < |ds| && IsTyped(ds[m])
    ensures FindDecl(ds, ds[m].name) == Some(ds[m])
  {
    var r := FindDecl(ds, ds[m].name);
    assert ds[m].name in TypedNames(ds);
    var k :| 0 <= k < |ds| && ds[k] == r.value;
    assert k == m;
  }

  /** Which field of the list, if any, carries the name `n`. */
  lemma CustomIndex(fs: seq<LiveField>, n: string) returns (i: nat)
    requires UniqueFieldNames(fs) && n in CustomFieldNames(fs)
    ensures i < |fs| && fs[i].staticName == n && IsCustom(fs[i])
    ensures forall j :: 0 <= j < |fs| && fs[j].staticName == n ==> j == i
  {
    i :| 0 <= i < |fs| && IsCustom(fs[i]) && fs[i].staticName == n;
  }

  /** After reconciliation every typed member has a custom field of its name
      that carries its display name, type and extra attributes; one created
      by this run is exactly the field its declaration describes. */
  lemma DeclaredField(l: ListInfo, ds: seq<FieldDecl>, removeOld: bool, guids: nat -> Guid, m: nat)
      returns (g: LiveField)
    requires Consistent(l, ds) && m < |ds| && IsTyped(ds[m])
    ensures g in Final(l, ds, removeOld, guids).fields && g.staticName == ds[m].name && IsCustom(g)
    ensures AttrsHold(g.schema.attrs, SyncAttrs(ds[m]))
    ensures ds[m].name !in CustomFieldNames(l.fields) ==> g == BuiltField(l.id, ds[m], guids(m))
  {
    var exist := CustomFieldNames(l.fields);
    if ds[m].name in exist {
      g := DeclaredExisting(l, ds, exist, guids, m);
    } else {
      g := DeclaredCreated(l, ds, exist, guids, m);
    }
    FinalHas(l, ds, removeOld, guids, g);
  }

  /** A field of the closed form whose name is declared is still there
      after the orphans are deleted. */
  lemma FinalHas(l: ListInfo, ds: seq<FieldDecl>, removeOld: bool, guids: nat -> Guid, g: LiveField)
    requires g in Closed(l, ds, CustomFieldNames(l.fields), guids).fields && g.staticName in TypedNames(ds)
    ensures g in Final(l, ds, removeOld, guids).fields
  {
  }

  /** The field of an existing custom name a member declares is patched
      with that member's attributes. */
  lemma DeclaredExisting(l: ListInfo, ds: seq<FieldDecl>, exist: seq<string>, guids: nat -> Guid, m: nat)
      returns (g: LiveField)
    requires UniqueFieldNames(l.fields) && WellFormedFields(ds) && m < |ds| && IsTyped(ds[m])
    requires exist == CustomFieldNames(l.fields) && ds[m].name in exist
    ensures g in Closed(l, ds, exist, guids).fields && g.staticName == ds[m].name && IsCustom(g)
    ensures g.staticName in TypedNames(ds)
    ensures AttrsHold(g.schema.attrs, SyncAttrs(ds[m]))
  {
    var fs := l.fields;
    var d := ds[m];
    var c := Closed(l, ds, exist, guids);
    assert WellFormed(d);
    assert DistinctNames(SyncAttrs(d)) by {
      SyncAttrsAgree(d, "");
    }
    SyncAttrsValid(d);
    var i := CustomIndex(fs, d.name);
    FindDeclIs(ds, m);
    g := c.fields[i];
    assert g == SyncedField(fs[i], ds, exist);
    forall j | 0 <= j < |SyncAttrs(d)| ensures Lookup(g.schema.attrs, SyncAttrs(d)[j].name) == Some(SyncAttrs(d)[j].value) {
      ApplyAllSets(fs[i].schema.attrs, SyncAttrs(d), j);
    }
    assert g in c.fields;
    assert d.name in TypedNames(ds);
  }

  /** A member that is not an existing custom name gets exactly its built field. */
  lemma DeclaredCreated(l: ListInfo, ds: seq<FieldDecl>, exist: seq<string>, guids: nat -> Guid, m: nat)
      returns (g: LiveField)
    requires WellFormedFields(ds) && m < |ds| && IsTyped(ds[m]) && ds[m].name !in exist
    ensures g in Closed(l, ds, exist, guids).fields && g.staticName == ds[m].name && IsCustom(g)
    ensures g.staticName in TypedNames(ds)
    ensures AttrsHold(g.schema.attrs, SyncAttrs(ds[m]))
    ensures g == BuiltField(l.id, ds[m], guids(m))
  {
    var d := ds[m];
    assert WellFormed(d);
    SyncAttrsAgree(d, guids(m));
    g := BuiltField(l.id, d, guids(m));
    CreatedContains(l.id, ds, exist, guids, m);
    assert g.sourceId[0] == '{';
    assert d.name in TypedNames(ds);
  }

  /** Built-in fields and fields defined by a schema URL come through
      reconciliation untouched, whatever the flag. */
  lemma ForeignFieldKept(l: ListInfo, ds: seq<FieldDecl>, removeOld: bool, guids: nat -> Guid, f: LiveField)
    requires Consistent(l, ds) && f in l.fields && !IsCustom(f)
    ensures f in Final(l, ds, removeOld, guids).fields
  {
    var fs := l.fields;
    var exist := CustomFieldNames(fs);
    var i :| 0 <= i < |fs| && fs[i] == f;
    assert f.staticName !in exist by {
      if f.staticName in exist {
        var k := CustomIndex(fs, f.staticName);
      }
    }
    assert Closed(l, ds, exist, guids).fields[i] == f;
  }

  /** A custom field that no typed member declares is left as it is when
      deletion is not asked for, and is gone, name and all, when it is. */
  lemma OrphanGated(l: ListInfo, ds: seq<FieldDecl>, removeOld: bool, guids: nat -> Guid, f: LiveField)
    requires Consistent(l, ds) && f in l.fields && IsCustom(f) && f.staticName !in TypedNames(ds)
    ensures !removeOld ==> f in Final(l, ds, removeOld, guids).fields
    ensures removeOld ==> !HasField(Final(l, ds, removeOld, guids).fields, f.staticName)
  {
    var fs := l.fields;
    var exist := CustomFieldNames(fs);
    var i :| 0 <= i < |fs| && fs[i] == f;
    assert Closed(l, ds, exist, guids).fields[i] == f;
    if removeOld {
      var r := Final(l, ds, removeOld, guids).fields;
      assert f.staticName in Orphans(exist, TypedNames(ds));
      forall j | 0 <= j < |r| ensures r[j].staticName != f.staticName {
        assert r[j] in r;
      }
    }
  }

  /** The fields of the result come from the list (patched or not) or from
      the members. */
  lemma FinalOrigin(l: ListInfo, ds: seq<FieldDecl>, removeOld: bool, guids: nat -> Guid, g: LiveField)
      returns (fromList: bool, i: nat)
    requires g in Final(l, ds, removeOld, guids).fields
    ensures fromList ==> i < |l.fields| && g == SyncedField(l.fields[i], ds, CustomFieldNames(l.fields))
    ensures !fromList ==> g in Created(l.id, ds, CustomFieldNames(l.fields), guids)
    ensures removeOld && fromList && IsCustom(l.fields[i]) ==> g.staticName in TypedNames(ds)
  {
    var exist := CustomFieldNames(l.fields);
    var c := Closed(l, ds, exist, guids);
    assert g in c.fields && (removeOld ==> g.staticName !in Orphans(exist, TypedNames(ds))) by {
      FinalKept(c, removeOld, Orphans(exist, TypedNames(ds)), g);
    }
    var k :| 0 <= k < |c.fields| && c.fields[k] == g;
    if k < |l.fields| {
      fromList, i := true, k;
      assert g.staticName == l.fields[i].staticName;
      if removeOld && IsCustom(l.fields[i]) {
        assert g.staticName in exist;
      }
    } else {
      fromList, i := false, 0;
      assert g == Created(l.id, ds, exist, guids)[k - |l.fields|];
    }
  }

  lemma FinalKept(c: ListInfo, removeOld: bool, orphans: seq<string>, g: LiveField)
    requires g in (if removeOld then c.(fields := Without(c.fields, orphans)) else c).fields
    ensures g in c.fields && (removeOld ==> g.staticName !in orphans)
  {
  }

  lemma DeclaredAfter(l: ListInfo, ds: seq<FieldDecl>, removeOld: bool, guids: nat -> Guid)
    requires Consistent(l, ds)
    ensures var fs := Final(l, ds, removeOld, guids).fields;
      forall m :: 0 <= m < |ds| && IsTyped(ds[m]) ==>
        ds[m].name in CustomFieldNames(fs)
        && forall j :: 0 <= j < |fs| && fs[j].staticName == ds[m].name ==> AttrsHold(fs[j].schema.attrs, SyncAttrs(ds[m]))
  {
    var fs := Final(l, ds, removeOld, guids).fields;
    assert UniqueFieldNames(fs) by {
      ReconcileClosedForm(l, ds, removeOld, guids);
    }
    forall m | 0 <= m < |ds| && IsTyped(ds[m])
      ensures ds[m].name in CustomFieldNames(fs)
      ensures forall j :: 0 <= j < |fs| && fs[j].staticName == ds[m].name ==> AttrsHold(fs[j].schema.attrs, SyncAttrs(ds[m]))
    {
      var g := DeclaredField(l, ds, removeOld, guids, m);
      var k :| 0 <= k < |fs| && fs[k] == g;
      assert IsCustom(fs[k]) && fs[k].staticName == ds[m].name;
      forall j | 0 <= j < |fs| && fs[j].staticName == ds[m].name ensures fs[j] == g {
        assert j == k;
      }
    }
  }

  /** Fields that already carry their members' attributes are left alone
      by the update patches. */
  lemma SyncedIdentity(fs: seq<LiveField>, ds: seq<FieldDecl>, exist: seq<string>)
    requires forall j, d :: 0 <= j < |fs| && FindDecl(ds, fs[j].staticName) == Some(d) ==> AttrsHold(fs[j].schema.attrs, SyncAttrs(d))
    ensures Synced(fs, ds, exist) == fs
  {
    forall j | 0 <= j < |fs| ensures SyncedField(fs[j], ds, exist) == fs[j] {
      match FindDecl(ds, fs[j].staticName)
      case None =>
      case Some(d) =>
        ApplyAllUnchanged(fs[j].schema.attrs, SyncAttrs(d));
    }
  }

  /** After deleting orphans, every custom field is declared. */
  lemma NoOrphansAfter(l: ListInfo, ds: seq<FieldDecl>, guids: nat -> Guid)
    requires Consistent(l, ds)
    ensures var fs := Final(l, ds, true, guids).fields;
      Orphans(CustomFieldNames(fs), TypedNames(ds)) == []
  {
    var fs := Final(l, ds, true, guids).fields;
    var exist2 := CustomFieldNames(fs);
    ReconcileClosedForm(l, ds, true, guids);
    forall n | n in exist2 ensures n in TypedNames(ds) {
      var j := CustomIndex(fs, n);
      var fromList, i := FinalOrigin(l, ds, true, guids, fs[j]);
      if fromList {
        assert IsCustom(l.fields[i]);
      } else {
        var c := Created(l.id, ds, CustomFieldNames(l.fields), guids);
        var k :| 0 <= k < |c| && c[k] == fs[j];
        CreatedField(l.id, ds, CustomFieldNames(l.fields), guids, k);
      }
    }
    OrphansNone(exist2, ds);
  }

  lemma {:induction false} OrphansNone(exist: seq<string>, ds: seq<FieldDecl>)
    requires forall n :: n in exist ==> n in TypedNames(ds)
    ensures Orphans(exist, TypedNames(ds)) == []
    decreases |exist|
  {
    if exist != [] {
      var init := exist[..|exist| - 1];
      assert forall n :: n in init ==> n in exist;
      OrphansNone(init, ds);
    }
  }

  /** Reconciling a second time with the same members changes nothing and
      does not fail, whatever GUIDs it would use: every typed member is now
      an existing custom field that already carries its attributes, and
      with deletion asked for no orphan is left. */
  lemma ReconcileIdempotent(l: ListInfo, ds: seq<FieldDecl>, removeOld: bool, guids: nat -> Guid, guids2: nat -> Guid)
    requires Consistent(l, ds)
    ensures Consistent(Final(l, ds, removeOld, guids), ds)
    ensures var r := Final(l, ds, removeOld, guids);
      Reconcile(r, ds, removeOld, guids2) == Outcome(r, None)
  {
    var r := Final(l, ds, removeOld, guids);
    var fs := r.fields;
    var exist2 := CustomFieldNames(fs);
    ReconcileClosedForm(l, ds, removeOld, guids);
    DeclaredAfter(l, ds, removeOld, guids);
    assert Consistent(r, ds);
    CreatedNone(r.id, ds, exist2, guids2);
    forall j, d | 0 <= j < |fs| && FindDecl(ds, fs[j].staticName) == Some(d)
      ensures AttrsHold(fs[j].schema.attrs, SyncAttrs(d))
    {
      var m :| 0 <= m < |ds| && ds[m] == d;
    }
    SyncedIdentity(fs, ds, exist2);
    ReconcileClosedForm(r, ds, removeOld, guids2);
    if removeOld {
      NoOrphansAfter(l, ds, guids);
    }
    assert fs + [] == fs;
  }

  /** A member with a field type and no display name: the create path names
      its field after the member, and a second reconciliation finds it
      among the existing custom fields. The update as written then fails on
      the missing display name, while the corrected update leaves the list
      as it is. */
  lemma AsWrittenUpdateFails()
    ensures var d := FieldDecl("Price", None, Some("Number"), "", [], false, false);
      var l0 := ListInfo("1", "Items", "Items", "", [], [], false);
      var guids := (k: nat) => "2";
      var l1 := Final(l0, [d], false, guids);
      Reconcile(l0, [d], false, guids) == Outcome(l1, None)
      && "Price" in CustomFieldNames(l1.fields)
      && SyncFieldAsWritten(l1, d) == Err(NullDisplayName("Price"))
      && Reconcile(l1, [d], false, guids) == Outcome(l1, None)
  {
    var d := FieldDecl("Price", None, Some("Number"), "", [], false, false);
    var l0 := ListInfo("1", "Items", "Items", "", [], [], false);
    var guids := (k: nat) => "2";
    assert Consistent(l0, [d]) by {
      PriceWellFormed(d);
    }
    UnnamedMemberAfterCreate(l0, d, guids);
  }

  /** What the example above rests on, for any typed member without a
      display name. */
  lemma UnnamedMemberAfterCreate(l0: ListInfo, d: FieldDecl, guids: nat -> Guid)
    requires Consistent(l0, [d]) && IsTyped(d) && d.displayName.None?
    ensures var l1 := Final(l0, [d], false, guids);
      Reconcile(l0, [d], false, guids) == Outcome(l1, None)
      && d.name in CustomFieldNames(l1.fields)
      && SyncFieldAsWritten(l1, d) == Err(NullDisplayName(d.name))
      && Reconcile(l1, [d], false, guids) == Outcome(l1, None)
  {
    ReconcileClosedForm(l0, [d], false, guids);
    DeclaredAfter(l0, [d], false, guids);
    assert [d][0] == d;
    ReconcileIdempotent(l0, [d], false, guids, guids);
  }

  /** A member named "Price" of type "Number", with no declared or an empty
      display name and nothing else declared, is well formed. */
  lemma PriceWellFormed(d: FieldDecl)
    requires d.name == "Price" && d.fieldType == Some("Number") && IsNullOrEmpty(d.displayName)
    requires d.extras == [] && !d.required
    ensures WellFormed(d)
  {
    var attrs := FieldXml.FieldAttrs("Number", "Price", d.displayName, [], "", false);
    var fixed := FieldXml.FixedAttrs("Number", "Price", d.displayName, "");
    assert attrs == fixed + [] + [];
    assert fixed[0].name == "DisplayName" && fixed[1].name == "StaticName" && fixed[2].name == "Name"
        && fixed[3].name == "ID" && fixed[4].name == "Type" && |fixed| == 5;
    assert DistinctNames(attrs);
  }

  /** A member declaring an empty display name: the create path names its
      field after the member, and the update as written then overwrites that
      display name with "", so the written update undoes what creation did,
      while the corrected update leaves the list as it is. */
  lemma AsWrittenBlanksName()
    ensures var d := FieldDecl("Price", Some(""), Some("Number"), "", [], false, false);
      var l0 := ListInfo("1", "Items", "Items", "", [], [], false);
      var guids := (k: nat) => "2";
      var l1 := Final(l0, [d], false, guids);
      var i := FindField(l1.fields, "Price");
      Reconcile(l0, [d], false, guids) == Outcome(l1, None)
      && i.Some? && Lookup(l1.fields[i.value].schema.attrs, "DisplayName") == Some("Price")
      && SyncFieldAsWritten(l1, d).Ok?
      && i.value < |SyncFieldAsWritten(l1, d).value.fields|
      && Lookup(SyncFieldAsWritten(l1, d).value.fields[i.value].schema.attrs, "DisplayName") == Some("")
      && Reconcile(l1, [d], false, guids) == Outcome(l1, None)
  {
    var d := FieldDecl("Price", Some(""), Some("Number"), "", [], false, false);
    var l0 := ListInfo("1", "Items", "Items", "", [], [], false);
    var guids := (k: nat) => "2";
    assert Consistent(l0, [d]) by {
      PriceWellFormed(d);
    }
    EmptyNameAfterCreate(l0, d, guids);
  }

  /** What the example above rests on, for any typed member with a
      non-empty name that declares an empty display name. */
  lemma EmptyNameAfterCreate(l0: ListInfo, d: FieldDecl, guids: nat -> Guid)
    requires Consistent(l0, [d]) && IsTyped(d) && d.displayName == Some("") && d.name != ""
    ensures var l1 := Final(l0, [d], false, guids);
      var i := FindField(l1.fields, d.name);
      Reconcile(l0, [d], false, guids) == Outcome(l1, None)
      && i.Some? && Lookup(l1.fields[i.value].schema.attrs, "DisplayName") == Some(d.name)
      && SyncFieldAsWritten(l1, d).Ok?
      && i.value < |SyncFieldAsWritten(l1, d).value.fields|
      && Lookup(SyncFieldAsWritten(l1, d).value.fields[i.value].schema.attrs, "DisplayName") == Some("")
      && Reconcile(l1, [d], false, guids) == Outcome(l1, None)
  {
    ReconcileClosedForm(l0, [d], false, guids);
    var k := DisplayNameAfterCreate(l0, d, guids);
    assert WellFormed(d) by {
      assert [d][0] == d;
    }
    WrittenUpdateSets(Final(l0, [d], false, guids), d, "", k);
    ReconcileIdempotent(l0, [d], false, guids, guids);
  }

  /** The update as written sets the declared display name, whatever it is. */
  lemma WrittenUpdateSets(l: ListInfo, d: FieldDecl, shown: string, k: nat)
    requires IsTyped(d) && WellFormed(d) && d.displayName == Some(shown) && FindField(l.fields, d.name) == Some(k)
    ensures SyncFieldAsWritten(l, d).Ok? && k < |SyncFieldAsWritten(l, d).value.fields|
    ensures Lookup(SyncFieldAsWritten(l, d).value.fields[k].schema.attrs, "DisplayName") == Some(shown)
  {
    var ps := [Attr("DisplayName", shown), Attr("Type", d.fieldType.value)] + d.extras;
    WrittenPatchesDistinct(d, shown);
    assert ps[0].name == "DisplayName";
    PatchEachSetsFirst(l, d.name, ps, k);
  }

  /** After a consistent reconciliation, the field of a lone typed member is
      the one found by its name, and its display name is the shown name. */
  lemma DisplayNameAfterCreate(l0: ListInfo, d: FieldDecl, guids: nat -> Guid) returns (k: nat)
    requires Consistent(l0, [d]) && IsTyped(d)
    ensures var fs := Final(l0, [d], false, guids).fields;
      FindField(fs, d.name) == Some(k) && Lookup(fs[k].schema.attrs, "DisplayName") == Some(ShownName(d))
  {
    ghost var fs := Final(l0, [d], false, guids).fields;
    ReconcileClosedForm(l0, [d], false, guids);
    assert [d][0] == d;
    var g := DeclaredField(l0, [d], false, guids, 0);
    k :| 0 <= k < |fs| && fs[k] == g;
    FindFieldUnique(fs, k);
    assert SyncAttrs(d)[0] == Attr("DisplayName", ShownName(d));
  }

  /** The patches the update as written applies have distinct names, whatever
      display name is written. */
  lemma WrittenPatchesDistinct(d: FieldDecl, shown: string)
    requires IsTyped(d) && WellFormed(d)
    ensures DistinctNames([Attr("DisplayName", shown), Attr("Type", d.fieldType.value)] + d.extras)
  {
    var ps := [Attr("DisplayName", shown), Attr("Type", d.fieldType.value)] + d.extras;
    SyncAttrsAgree(d, "");
    assert forall j :: 0 <= j < |ps| ==> ps[j].name == SyncAttrs(d)[j].name;
  }

  /** Patching a field with distinctly named attributes leaves the first of
      them set. */
  lemma PatchEachSetsFirst(l: ListInfo, n: string, ps: seq<Attr>, k: nat)
    requires FindField(l.fields, n) == Some(k) && DistinctNames(ps) && ps != [] && ValidAttrName(ps[0].name)
    ensures k < |PatchEach(l, n, ps).fields|
    ensures Lookup(PatchEach(l, n, ps).fields[k].schema.attrs, ps[0].name) == Some(ps[0].value)
  {
    PatchEachIs(l, n, ps, k);
    ApplyAllSets(l.fields[k].schema.attrs, ps, 0);
  }
}
