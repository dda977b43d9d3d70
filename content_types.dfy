/** Content-type mode: binding a site content type to a list
    (`AddContentTypeToList`) and re-synchronising the list content type's
    field links with the site content type (`UpdateContentTypeListFields`).
    Field links are kept as the static names of the linked fields. */
module ContentTypeSync {
  import opened Results
  import opened Text
  import opened SiteModel
  import opened CustomFields
  import opened Deletion

  /** `s` without the elements of `xs`, order kept. */
  function Minus(s: seq<string>, xs: seq<string>): (r: seq<string>)
    ensures forall x :: x in r <==> x in s && x !in xs
  {
    if s == [] then []
    else (if s[0] in xs then [] else [s[0]]) + Minus(s[1..], xs)
  }

  lemma {:induction false} MinusAppend(a: seq<string>, b: seq<string>, xs: seq<string>)
    ensures Minus(a + b, xs) == Minus(a, xs) + Minus(b, xs)
  {
    if a != [] {
      var h := if a[0] in xs then [] else [a[0]];
      assert (a + b)[0] == a[0];
      assert (a + b)[1..] == a[1..] + b;
      calc {
        Minus(a + b, xs);
        h + Minus(a[1..] + b, xs);
        { MinusAppend(a[1..], b, xs); }
        h + (Minus(a[1..], xs) + Minus(b, xs));
        (h + Minus(a[1..], xs)) + Minus(b, xs);
      }
    } else {
      assert a + b == b;
    }
  }

  lemma {:induction false} MinusNone(s: seq<string>, xs: seq<string>)
    requires forall x :: x in s ==> x !in xs
    ensures Minus(s, xs) == s
  {
    if s != [] {
      MinusNone(s[1..], xs);
    }
  }

  lemma {:induction false} MinusAll(s: seq<string>, xs: seq<string>)
    requires forall x :: x in s ==> x in xs
    ensures Minus(s, xs) == []
  {
    if s != [] {
      MinusAll(s[1..], xs);
    }
  }

  lemma {:induction false} MinusMinus(s: seq<string>, xs: seq<string>, ys: seq<string>)
    ensures Minus(Minus(s, xs), ys) == Minus(s, xs + ys)
  {
    if s != [] {
      MinusMinus(s[1..], xs, ys);
      MinusAppend(if s[0] in xs then [] else [s[0]], Minus(s[1..], xs), ys);
    }
  }

  lemma {:induction false} MinusDistinct(s: seq<string>, xs: seq<string>)
    requires Distinct(s)
    ensures Distinct(Minus(s, xs))
  {
    if s != [] {
      MinusDistinct(s[1..], xs);
      assert s[0] !in s[1..];
    }
  }

  /** The relink loop: for each field of the site content type in turn, its
      link is deleted and added again, so it moves to the end. */
  function Relink(links: seq<string>, ns: seq<string>): seq<string>
    decreases |ns|
  {
    if ns == [] then links
    else Minus(Relink(links, ns[..|ns| - 1]), [ns[|ns| - 1]]) + [ns[|ns| - 1]]
  }

  /** After relinking distinct names, the links are the other old links, in
      their order, followed by the names in the site content type's order. */
  lemma {:induction false} RelinkIs(links: seq<string>, ns: seq<string>)
    requires Distinct(ns)
    ensures Relink(links, ns) == Minus(links, ns) + ns
    decreases |ns|
  {
    if ns == [] {
      MinusNone(links, ns);
    } else {
      var init := ns[..|ns| - 1];
      var n := ns[|ns| - 1];
      assert ns == init + [n];
      RelinkIs(links, init);
      MinusAppend(Minus(links, init), init, [n]);
      MinusMinus(links, init, [n]);
      MinusNone(init, [n]);
    }
  }

  /** `AvailableContentTypes[new SPContentTypeId(id)]`: the site content type with that id. */
  function FindSiteContentType(cts: seq<SiteContentType>, id: string): (r: Option<nat>)
    ensures r.Some? ==> r.value < |cts| && cts[r.value].id == id
    ensures r.None? ==> forall i :: 0 <= i < |cts| ==> cts[i].id != id
  {
    if cts == [] then None
    else if cts[0].id == id then Some(0)
    else match FindSiteContentType(cts[1..], id)
      case None => None
      case Some(i) => Some(i + 1)
  }

  /** The first list content type whose id starts with `id`. */
  function FindListContentType(cts: seq<ListContentType>, id: string): (r: Option<nat>)
    ensures r.Some? ==> r.value < |cts| && StartsWith(cts[r.value].id, id)
    ensures r.Some? ==> forall j :: 0 <= j < r.value ==> !StartsWith(cts[j].id, id)
    ensures r.None? ==> forall i :: 0 <= i < |cts| ==> !StartsWith(cts[i].id, id)
  {
    if cts == [] then None
    else if StartsWith(cts[0].id, id) then Some(0)
    else match FindListContentType(cts[1..], id)
      case None => None
      case Some(i) => Some(i + 1)
  }

  function SetLinks(l: ListInfo, c: nat, links: seq<string>): ListInfo
    requires c < |l.contentTypes|
  {
    l.(contentTypes := l.contentTypes[c := l.contentTypes[c].(links := links)])
  }

  /** Setting a content type's links twice keeps the second setting. */
  lemma SetLinksTwice(l: ListInfo, c: nat, a: seq<string>, b: seq<string>)
    requires c < |l.contentTypes|
    ensures SetLinks(l, c, a).contentTypes[c].links == a
    ensures SetLinks(SetLinks(l, c, a), c, b) == SetLinks(l, c, b)
  {
  }

  /** Dropping one stale link: the link goes and, when asked, so does the
      list field of that name; a failed field delete is returned. */
  function DropLink(l: ListInfo, c: nat, x: string, removeOld: bool): (r: Outcome)
    requires c < |l.contentTypes|
    ensures |r.list.contentTypes| == |l.contentTypes|
  {
    var l1 := SetLinks(l, c, Minus(l.contentTypes[c].links, [x]));
    if !removeOld then Outcome(l1, None)
    else match ListDeleteField(l1, x)
      case Err(e) => Outcome(l1, Some(e))
      case Ok(l2) => Outcome(l2, None)
  }

  /** The removal loop over the links `xs` taken after relinking: a link
      whose field the site content type no longer has is dropped; a failed
      field delete ends the loop. */
  function Prune(l: ListInfo, c: nat, xs: seq<string>, ns: seq<string>, removeOld: bool): (r: Outcome)
    requires c < |l.contentTypes|
    ensures |r.list.contentTypes| == |l.contentTypes|
    decreases |xs|
  {
    if xs == [] then Outcome(l, None)
    else
      var o := Prune(l, c, xs[..|xs| - 1], ns, removeOld);
      var x := xs[|xs| - 1];
      if o.failure.Some? || x in ns then o
      else DropLink(o.list, c, x, removeOld)
  }

  /** One more name of the relinking loop. */
  lemma RelinkNext(links: seq<string>, ns: seq<string>, k: nat)
    requires k < |ns|
    ensures Relink(links, ns[..k + 1]) == Minus(Relink(links, ns[..k]), [ns[k]]) + [ns[k]]
  {
    assert ns[..k + 1][..k] == ns[..k];
  }

  /** One more link of the removal loop. */
  lemma PruneNext(l: ListInfo, c: nat, xs: seq<string>, ns: seq<string>, removeOld: bool, k: nat)
    requires c < |l.contentTypes| && k < |xs| && Prune(l, c, xs[..k], ns, removeOld).failure.None?
    ensures var o := Prune(l, c, xs[..k], ns, removeOld);
      Prune(l, c, xs[..k + 1], ns, removeOld)
        == if xs[k] in ns then o else DropLink(o.list, c, xs[k], removeOld)
  {
    assert xs[..k + 1][..k] == xs[..k];
  }

  /** Once a field delete has failed, the remaining links change nothing. */
  lemma {:induction false} PruneStops(l: ListInfo, c: nat, xs: seq<string>, ns: seq<string>, removeOld: bool, k: nat)
    requires c < |l.contentTypes| && k <= |xs| && Prune(l, c, xs[..k], ns, removeOld).failure.Some?
    ensures Prune(l, c, xs, ns, removeOld) == Prune(l, c, xs[..k], ns, removeOld)
    decreases |xs|
  {
    if k == |xs| {
      assert xs[..k] == xs;
    } else {
      assert xs[..|xs| - 1][..k] == xs[..k];
      PruneStops(l, c, xs[..|xs| - 1], ns, removeOld, k);
    }
  }

  /** `UpdateContentTypeListFields`: nothing happens unless both the site
      content type and a list content type derived from it exist; then the
      links are relinked and the stale ones pruned. */
  function SyncContentType(l: ListInfo, siteCts: seq<SiteContentType>, ctId: string, removeOld: bool): Outcome {
    match FindSiteContentType(siteCts, ctId)
    case None => Outcome(l, None)
    case Some(s) =>
      match FindListContentType(l.contentTypes, ctId)
      case None => Outcome(l, None)
      case Some(c) =>
        var ns := Names(siteCts[s].fields);
        var l1 := SetLinks(l, c, Relink(l.contentTypes[c].links, ns));
        Prune(l1, c, l1.contentTypes[c].links, ns, removeOld)
  }

  /** Pruning links, and deleting their fields, keeps the static names
      unique. */
  lemma {:induction false} PruneUnique(l: ListInfo, c: nat, xs: seq<string>, ns: seq<string>, removeOld: bool)
    requires c < |l.contentTypes| && UniqueFieldNames(l.fields)
    ensures UniqueFieldNames(Prune(l, c, xs, ns, removeOld).list.fields)
    decreases |xs|
  {
    if xs != [] {
      PruneUnique(l, c, xs[..|xs| - 1], ns, removeOld);
      var o := Prune(l, c, xs[..|xs| - 1], ns, removeOld);
      var x := xs[|xs| - 1];
      var l1 := SetLinks(o.list, c, Minus(o.list.contentTypes[c].links, [x]));
      if o.failure.None? && x !in ns && removeOld && HasField(l1.fields, x) {
        DeleteFieldRemoves(l1, x);
      }
    }
  }

  /** Synchronising a list content type keeps the static names unique. */
  lemma SyncContentTypeUnique(l: ListInfo, siteCts: seq<SiteContentType>, ctId: string, removeOld: bool)
    requires UniqueFieldNames(l.fields)
    ensures UniqueFieldNames(SyncContentType(l, siteCts, ctId, removeOld).list.fields)
  {
    match FindSiteContentType(siteCts, ctId)
    case None =>
    case Some(s) =>
      match FindListContentType(l.contentTypes, ctId)
      case None =>
      case Some(c) =>
        var l1 := SetLinks(l, c, Relink(l.contentTypes[c].links, Names(siteCts[s].fields)));
        PruneUnique(l1, c, l1.contentTypes[c].links, Names(siteCts[s].fields), removeOld);
  }

  /** Synchronising a list content type of a site keeps every list's static
      names unique. */
  lemma SyncContentTypeKeepsAllUnique(base: seq<ListInfo>, li: nat, siteCts: seq<SiteContentType>, ctId: string, removeOld: bool)
    requires AllUnique(base) && li < |base|
    ensures AllUnique(base[li := SyncContentType(base[li], siteCts, ctId, removeOld).list])
  {
    AllUniqueAt(base, li);
    SyncContentTypeUnique(base[li], siteCts, ctId, removeOld);
    AllUniqueUpdate(base, li, SyncContentType(base[li], siteCts, ctId, removeOld).list);
  }

  /** What pruning the stale links `stale` leaves. */
  function Pruned(l: ListInfo, c: nat, stale: seq<string>, removeOld: bool): ListInfo
    requires c < |l.contentTypes|
  {
    SetLinks(l, c, Minus(l.contentTypes[c].links, stale)).(fields := if removeOld then Without(l.fields, stale) else l.fields)
  }

  lemma {:induction false} PruneIs(l: ListInfo, c: nat, xs: seq<string>, ns: seq<string>, removeOld: bool)
    requires c < |l.contentTypes| && UniqueFieldNames(l.fields) && Distinct(xs)
    requires removeOld ==> forall x :: x in xs && x !in ns ==> HasField(l.fields, x)
    ensures Prune(l, c, xs, ns, removeOld) == Outcome(Pruned(l, c, Minus(xs, ns), removeOld), None)
    decreases |xs|
  {
    if xs == [] {
      MinusNone(l.contentTypes[c].links, []);
      assert l.contentTypes[c := l.contentTypes[c]] == l.contentTypes;
    } else {
      var init := xs[..|xs| - 1];
      var x := xs[|xs| - 1];
      assert xs == init + [x];
      assert forall i :: 0 <= i < |init| ==> init[i] == xs[i];
      PruneIs(l, c, init, ns, removeOld);
      var stale0 := Minus(init, ns);
      MinusAppend(init, [x], ns);
      if x !in ns {
        assert Minus([x], ns) == [x];
        assert x !in stale0;
        PruneStep(l, c, stale0, x, removeOld);
      } else {
        assert Minus([x], ns) == [];
        assert stale0 + [] == stale0;
      }
    }
  }

  /** Pruning one more stale link `x`. */
  lemma PruneStep(l: ListInfo, c: nat, stale0: seq<string>, x: string, removeOld: bool)
    requires c < |l.contentTypes| && UniqueFieldNames(l.fields) && x !in stale0
    requires removeOld ==> HasField(l.fields, x)
    ensures DropLink(Pruned(l, c, stale0, removeOld), c, x, removeOld)
         == Outcome(Pruned(l, c, stale0 + [x], removeOld), None)
  {
    var links := l.contentTypes[c].links;
    var p0 := Pruned(l, c, stale0, removeOld);
    MinusMinus(links, stale0, [x]);
    var lx := SetLinks(l, c, Minus(links, stale0 + [x]));
    var l1 := SetLinks(p0, c, Minus(p0.contentTypes[c].links, [x]));
    assert l1 == lx.(fields := p0.fields);
    assert (stale0 + [x])[..|stale0 + [x]| - 1] == stale0;
    if removeOld {
      WithoutKeeps(l.fields, stale0, x);
      DeleteFound(l1, x);
    }
  }

  /** Synchronising a list content type with its site content type leaves
      exactly the site content type's fields linked, in its order, and,
      only when asked, deletes the list fields of the links it dropped. */
  lemma SyncContentTypeIs(l: ListInfo, siteCts: seq<SiteContentType>, ctId: string, removeOld: bool, s: nat, c: nat)
    requires FindSiteContentType(siteCts, ctId) == Some(s) && FindListContentType(l.contentTypes, ctId) == Some(c)
    requires UniqueFieldNames(l.fields) && UniqueFieldNames(siteCts[s].fields) && Distinct(l.contentTypes[c].links)
    requires removeOld ==> forall x :: x in l.contentTypes[c].links && x !in Names(siteCts[s].fields) ==> HasField(l.fields, x)
    ensures var ns := Names(siteCts[s].fields);
      var stale := Minus(l.contentTypes[c].links, ns);
      SyncContentType(l, siteCts, ctId, removeOld)
      == Outcome(SetLinks(l, c, ns).(fields := if removeOld then Without(l.fields, stale) else l.fields), None)
  {
    var ns := Names(siteCts[s].fields);
    var links := l.contentTypes[c].links;
    var stale := Minus(links, ns);
    assert Distinct(ns);
    RelinkIs(links, ns);
    RelinkedFacts(links, ns);
    var l1 := SetLinks(l, c, stale + ns);
    PruneIs(l1, c, stale + ns, ns, removeOld);
    assert l1.contentTypes[c].links == stale + ns;
    calc {
      SyncContentType(l, siteCts, ctId, removeOld);
      Prune(l1, c, stale + ns, ns, removeOld);
      Outcome(Pruned(l1, c, stale, removeOld), None);
      Outcome(SetLinks(l, c, ns).(fields := if removeOld then Without(l.fields, stale) else l.fields), None);
    }
  }

  /** The links after relinking are distinct; the stale ones among them are
      the old links outside `ns`, and removing those leaves `ns`. */
  lemma RelinkedFacts(links: seq<string>, ns: seq<string>)
    requires Distinct(links) && Distinct(ns)
    ensures var stale := Minus(links, ns);
      Distinct(stale + ns) && Minus(stale + ns, ns) == stale && Minus(stale + ns, stale) == ns
  {
    var stale := Minus(links, ns);
    var S := stale + ns;
    MinusDistinct(links, ns);
    forall i, j | 0 <= i < j < |S| ensures S[i] != S[j] {
      if i < |stale| && j >= |stale| {
        assert S[i] in stale && S[j] in ns;
      }
    }
    MinusAppend(stale, ns, ns);
    MinusNone(stale, ns);
    MinusAll(ns, ns);
    MinusAppend(stale, ns, stale);
    MinusAll(stale, stale);
    MinusNone(ns, stale);
  }

  /** The fields of a content type being bound that the list lacks, appended
      in the content type's order (the host's side of `ContentTypes.Add`). */
  function AddMissing(fs: seq<LiveField>, news: seq<LiveField>): (r: seq<LiveField>)
    ensures |fs| <= |r| && r[..|fs|] == fs
    ensures forall j :: 0 <= j < |news| ==> HasField(r, news[j].staticName)
    ensures UniqueFieldNames(fs) ==> UniqueFieldNames(r)
    decreases |news|
  {
    if news == [] then fs
    else
      var r0 := AddMissing(fs, news[..|news| - 1]);
      var f := news[|news| - 1];
      assert forall j :: 0 <= j < |news| - 1 ==> news[..|news| - 1][j] == news[j];
      if HasField(r0, f.staticName) then r0
      else
        assert forall n :: HasField(r0, n) ==> HasField(r0 + [f], n) by {
          forall n | HasField(r0, n) ensures HasField(r0 + [f], n) {
            var k :| 0 <= k < |r0| && r0[k].staticName == n;
            assert (r0 + [f])[k] == r0[k];
          }
        }
        assert (r0 + [f])[|r0|] == f;
        r0 + [f]
  }

  /** `AddContentTypeToList`: no content type id is an error, as is an id
      the site does not know; otherwise content types are enabled and,
      unless the list already has a content type of that name, a list
      content type derived from it (its id extended by `00` and `suffix`)
      is added, linking the site content type's fields, and those fields
      join the list. */
  function BindContentType(l: ListInfo, siteCts: seq<SiteContentType>, ctId: string, suffix: Guid): (r: Result<ListInfo>)
    ensures r.Err? <==> ctId == "" || FindSiteContentType(siteCts, ctId).None?
    ensures ctId == "" ==> r == Err(ContentTypeIdNotSet)
    ensures r.Ok? ==> r.value.contentTypesEnabled && l.fields <= r.value.fields
    ensures r.Ok? ==> r.value.id == l.id && r.value.rootName == l.rootName && r.value.title == l.title
    ensures r.Ok? && UniqueFieldNames(l.fields) ==> UniqueFieldNames(r.value.fields)
    ensures r.Ok? ==> var ct := siteCts[FindSiteContentType(siteCts, ctId).value];
      if exists i :: 0 <= i < |l.contentTypes| && l.contentTypes[i].name == ct.name then
        r.value == l.(contentTypesEnabled := true)
      else
        r.value.contentTypes == l.contentTypes + [ListContentType(ctId + "00" + suffix, ct.name, Names(ct.fields))]
        && r.value.description == l.description
        && forall j :: 0 <= j < |ct.fields| ==> HasField(r.value.fields, ct.fields[j].staticName)
  {
    if ctId == "" then Err(ContentTypeIdNotSet)
    else match FindSiteContentType(siteCts, ctId)
      case None => Err(ContentTypeNotFound(ctId))
      case Some(s) =>
        var ct := siteCts[s];
        var l1 := l.(contentTypesEnabled := true);
        if exists i :: 0 <= i < |l.contentTypes| && l.contentTypes[i].name == ct.name then Ok(l1)
        else Ok(l1.(contentTypes := l.contentTypes + [ListContentType(ctId + "00" + suffix, ct.name, Names(ct.fields))],
                    fields := AddMissing(l.fields, ct.fields)))
  }

  /** A freshly bound content type is the one the update path finds, it
      links exactly the site content type's fields, each of which is now a
      list field; so synchronising straight after binding changes nothing. */
  lemma BindThenSync(l: ListInfo, siteCts: seq<SiteContentType>, ctId: string, suffix: Guid, removeOld: bool, s: nat)
    requires ctId != "" && FindSiteContentType(siteCts, ctId) == Some(s)
    requires forall i :: 0 <= i < |l.contentTypes| ==> l.contentTypes[i].name != siteCts[s].name
    requires forall i :: 0 <= i < |l.contentTypes| ==> !StartsWith(l.contentTypes[i].id, ctId)
    requires UniqueFieldNames(l.fields) && UniqueFieldNames(siteCts[s].fields)
    ensures var b := BindContentType(l, siteCts, ctId, suffix);
      b.Ok? && FindListContentType(b.value.contentTypes, ctId) == Some(|l.contentTypes|)
      && b.value.contentTypes[|l.contentTypes|].links == Names(siteCts[s].fields)
      && (forall j :: 0 <= j < |siteCts[s].fields| ==> HasField(b.value.fields, siteCts[s].fields[j].staticName))
      && SyncContentType(b.value, siteCts, ctId, removeOld) == Outcome(b.value, None)
  {
    var b := BindContentType(l, siteCts, ctId, suffix).value;
    var c := |l.contentTypes|;
    var ns := Names(siteCts[s].fields);
    assert StartsWith(ctId + "00" + suffix, ctId) by {
      assert (ctId + "00" + suffix)[..|ctId|] == ctId;
    }
    assert b.contentTypes[c].links == ns;
    var r := FindListContentType(b.contentTypes, ctId);
    assert r.Some? && !(r.value < c);
    assert Distinct(ns);
    SyncContentTypeIs(b, siteCts, ctId, removeOld, s, c);
    MinusAll(ns, ns);
    assert b.contentTypes[c := b.contentTypes[c].(links := ns)] == b.contentTypes;
  }
}
