/** Deleting fields from a list by static name, one after the other
    (`DeleteFields` in a loop), and what the list holds afterwards. */
module Deletion {
  import opened Results
  import opened SiteModel
  import opened CustomFields

  /** Where a run of host calls on one list got to: the list as the calls
      left it and the first error, if any, that ended the run. */
  datatype Outcome = Outcome(list: ListInfo, failure: Option<Error>)

  /** The fields other than those named `n`, in order. */
  function Drop(fs: seq<LiveField>, n: string): (r: seq<LiveField>)
    ensures forall f :: f in r <==> f in fs && f.staticName != n
    ensures UniqueFieldNames(fs) ==> UniqueFieldNames(r)
  {
    if fs == [] then []
    else
      var rest := Drop(fs[1..], n);
      var head := if fs[0].staticName == n then [] else [fs[0]];
      assert fs == [fs[0]] + fs[1..];
      DropHead(fs, rest, head);
      head + rest
  }

  lemma DropHead(fs: seq<LiveField>, rest: seq<LiveField>, head: seq<LiveField>)
    requires fs != [] && head <= [fs[0]]
    requires forall f :: f in rest ==> f in fs[1..]
    requires UniqueFieldNames(fs) ==> UniqueFieldNames(rest)
    ensures UniqueFieldNames(fs) ==> UniqueFieldNames(head + rest)
  {
    if UniqueFieldNames(fs) && head != [] {
      forall g | g in rest ensures g.staticName != fs[0].staticName {
        var j :| 0 <= j < |fs[1..]| && fs[1..][j] == g;
        assert fs[j + 1] == g;
      }
      var r := head + rest;
      forall i, j | 0 <= i < j < |r| ensures r[i].staticName != r[j].staticName {
        if i == 0 {
          assert r[j] == rest[j - 1] && r[j] in rest;
        } else {
          assert r[i] == rest[i - 1] && r[j] == rest[j - 1];
        }
      }
    }
  }

  /** The fields whose name is none of `ns`, in order. */
  function Without(fs: seq<LiveField>, ns: seq<string>): (r: seq<LiveField>)
    ensures forall f :: f in r <==> f in fs && f.staticName !in ns
    ensures UniqueFieldNames(fs) ==> UniqueFieldNames(r)
    decreases |ns|
  {
    if ns == [] then fs
    else
      assert ns == ns[..|ns| - 1] + [ns[|ns| - 1]];
      Drop(Without(fs, ns[..|ns| - 1]), ns[|ns| - 1])
  }

  lemma {:induction false} DropAbsent(fs: seq<LiveField>, n: string)
    requires forall j :: 0 <= j < |fs| ==> fs[j].staticName != n
    ensures Drop(fs, n) == fs
  {
    if fs != [] {
      DropAbsent(fs[1..], n);
    }
  }

  /** Cutting out the one field named `n` is dropping that name. */
  lemma {:induction false} SliceIsDrop(fs: seq<LiveField>, n: string, i: nat)
    requires UniqueFieldNames(fs) && i < |fs| && fs[i].staticName == n
    ensures fs[..i] + fs[i + 1..] == Drop(fs, n)
  {
    if i == 0 {
      DropAbsent(fs[1..], n);
    } else {
      UniqueTail(fs);
      SliceIsDrop(fs[1..], n, i - 1);
      DropKeepsHead(fs, n);
      SliceCons(fs, i);
    }
  }

  lemma UniqueTail(fs: seq<LiveField>)
    requires UniqueFieldNames(fs) && fs != []
    ensures UniqueFieldNames(fs[1..])
  {
    var t := fs[1..];
    forall a, b | 0 <= a < b < |t| ensures t[a].staticName != t[b].staticName {
      assert t[a] == fs[a + 1] && t[b] == fs[b + 1];
    }
  }

  lemma DropKeepsHead(fs: seq<LiveField>, n: string)
    requires fs != [] && fs[0].staticName != n
    ensures Drop(fs, n) == [fs[0]] + Drop(fs[1..], n)
  {
  }

  lemma SliceCons<T>(s: seq<T>, i: nat)
    requires 0 < i < |s|
    ensures s[..i] + s[i + 1..] == [s[0]] + (s[1..][..i - 1] + s[1..][i..])
  {
    assert s[..i] == [s[0]] + s[1..][..i - 1];
    assert s[i + 1..] == s[1..][i..];
  }

  /** `DeleteFields` for each name in turn; the first failure ends the run. */
  function DeleteAll(l: ListInfo, ns: seq<string>): Outcome
    decreases |ns|
  {
    if ns == [] then Outcome(l, None)
    else
      var o := DeleteAll(l, ns[..|ns| - 1]);
      if o.failure.Some? then o
      else match ListDeleteField(o.list, ns[|ns| - 1])
        case Err(e) => Outcome(o.list, Some(e))
        case Ok(l1) => Outcome(l1, None)
  }

  /** Deleting fields one after the other keeps the static names unique. */
  lemma {:induction false} DeleteAllUnique(l: ListInfo, ns: seq<string>)
    requires UniqueFieldNames(l.fields)
    ensures UniqueFieldNames(DeleteAll(l, ns).list.fields)
    decreases |ns|
  {
    if ns != [] {
      DeleteAllUnique(l, ns[..|ns| - 1]);
      var o := DeleteAll(l, ns[..|ns| - 1]);
      if o.failure.None? && HasField(o.list.fields, ns[|ns| - 1]) {
        DeleteFieldRemoves(o.list, ns[|ns| - 1]);
      }
    }
  }

  /** Deleting distinct names that are all present succeeds and leaves
      exactly the other fields, in their order. */
  lemma {:induction false} DeleteAllRemoves(l: ListInfo, ns: seq<string>)
    requires UniqueFieldNames(l.fields) && Distinct(ns)
    requires forall n :: n in ns ==> HasField(l.fields, n)
    ensures DeleteAll(l, ns) == Outcome(l.(fields := Without(l.fields, ns)), None)
    decreases |ns|
  {
    if ns != [] {
      var init := ns[..|ns| - 1];
      var n := ns[|ns| - 1];
      assert forall j :: 0 <= j < |init| ==> init[j] == ns[j];
      DeleteAllRemoves(l, init);
      var fs := Without(l.fields, init);
      assert n !in init by {
        forall j | 0 <= j < |init| ensures init[j] != n { assert ns[j] != ns[|ns| - 1]; }
      }
      WithoutKeeps(l.fields, init, n);
      DeleteFound(l.(fields := fs), n);
    }
  }

  /** Deleting a present name from a list with unique names is dropping it. */
  lemma DeleteFound(l: ListInfo, n: string)
    requires UniqueFieldNames(l.fields) && HasField(l.fields, n)
    ensures ListDeleteField(l, n) == Ok(l.(fields := Drop(l.fields, n)))
  {
    var i := FindField(l.fields, n).value;
    SliceIsDrop(l.fields, n, i);
  }

  /** A name not removed is still there. */
  lemma WithoutKeeps(fs: seq<LiveField>, ns: seq<string>, n: string)
    requires HasField(fs, n) && n !in ns
    ensures HasField(Without(fs, ns), n)
  {
    var k :| 0 <= k < |fs| && fs[k].staticName == n;
    var r := Without(fs, ns);
    assert fs[k] in r;
    var j :| 0 <= j < |r| && r[j] == fs[k];
  }

  /** One more name: the next delete is applied to the list so far. */
  lemma DeleteAllNext(l: ListInfo, ns: seq<string>, j: nat)
    requires j < |ns| && DeleteAll(l, ns[..j]).failure.None?
    ensures var o := DeleteAll(l, ns[..j]);
      DeleteAll(l, ns[..j + 1])
        == match ListDeleteField(o.list, ns[j])
           case Err(e) => Outcome(o.list, Some(e))
           case Ok(l1) => Outcome(l1, None)
  {
    assert ns[..j + 1][..j] == ns[..j];
  }

  /** Once a delete has failed, the remaining names change nothing. */
  lemma {:induction false} DeleteAllStops(l: ListInfo, ns: seq<string>, k: nat)
    requires k <= |ns| && DeleteAll(l, ns[..k]).failure.Some?
    ensures DeleteAll(l, ns) == DeleteAll(l, ns[..k])
    decreases |ns|
  {
    if k == |ns| {
      assert ns[..k] == ns;
    } else {
      assert ns[..|ns| - 1][..k] == ns[..k];
      DeleteAllStops(l, ns[..|ns| - 1], k);
    }
  }
}
