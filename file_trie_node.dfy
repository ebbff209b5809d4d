/** `FileTrieNode` of src/util/fileTrie.ts as an object: its fields are updated in place, each node
    owns its children's objects, and every method is proved against the value function of the same
    name in `FileTrie` on the node's abstract value `model`. */
module FileTrieNodes {
  import opened Wrappers
  import opened Strings
  import opened FileTrie
  import FileTrieLemmas
  import TrieTransformLemmas

  /** No element occurs twice. */
  predicate Distinct<T(==)>(s: seq<T>) {
    forall p, q :: 0 <= p < q < |s| ==> s[p] != s[q]
  }

  /** The abstract values of a list of nodes. */
  ghost function ModelsOf(s: seq<TrieNode>): (r: seq<Node>)
    reads set x | x in s
    ensures |r| == |s|
    ensures forall i :: 0 <= i < |s| ==> r[i] == s[i].model
  {
    if |s| == 0 then [] else [s[0].model] + ModelsOf(s[1..])
  }

  lemma DistinctCons<T>(c: T, s: seq<T>)
    requires Distinct(s) && c !in s
    ensures Distinct([c] + s)
  {
    forall p, q | 0 <= p < q < |[c] + s| ensures ([c] + s)[p] != ([c] + s)[q] {
      if p > 0 {
        assert ([c] + s)[p] == s[p - 1];
      }
      assert ([c] + s)[q] == s[q - 1];
    }
  }

  lemma DistinctTail<T>(s: seq<T>)
    requires Distinct(s) && |s| > 0
    ensures Distinct(s[1..]) && s[0] !in s[1..]
  {
    forall p, q | 0 <= p < q < |s[1..]| ensures s[1..][p] != s[1..][q] {
      assert s[1..][p] == s[p + 1] && s[1..][q] == s[q + 1];
    }
  }

  lemma SliceCons<T>(s: seq<T>, k: nat)
    requires k < |s|
    ensures s[k..] == [s[k]] + s[k + 1..]
  {
  }

  lemma ModelsOfCons(c: TrieNode, s: seq<TrieNode>)
    ensures ModelsOf([c] + s) == [c.model] + ModelsOf(s)
  {
    assert ModelsOf([c] + s)[0] == c.model;
  }

  /** A child object paired with its value: what the sort compares and what it moves. */
  type Entry = (TrieNode, Node)

  function Zip(cs: seq<TrieNode>, ms: seq<Node>): (r: seq<Entry>)
    requires |cs| == |ms|
    ensures |r| == |cs| && forall i :: 0 <= i < |r| ==> r[i] == (cs[i], ms[i])
  {
    if |cs| == 0 then [] else [(cs[0], ms[0])] + Zip(cs[1..], ms[1..])
  }

  function Objects(s: seq<Entry>): (r: seq<TrieNode>)
    ensures |r| == |s| && forall i :: 0 <= i < |r| ==> r[i] == s[i].0
  {
    if |s| == 0 then [] else [s[0].0] + Objects(s[1..])
  }

  function Values(s: seq<Entry>): (r: seq<Node>)
    ensures |r| == |s| && forall i :: 0 <= i < |r| ==> r[i] == s[i].1
  {
    if |s| == 0 then [] else [s[0].1] + Values(s[1..])
  }

  /** `InsertSorted` on the entries' values, moving each entry's object along with its value. */
  function InsertEntry(cmp: (Node, Node) -> int, x: Entry, s: seq<Entry>): seq<Entry> {
    if |s| == 0 then [x]
    else if cmp(x.1, s[0].1) <= 0 then [x] + s
    else [s[0]] + InsertEntry(cmp, x, s[1..])
  }

  /** `SortSeq` on the entries' values, moving each entry's object along with its value. */
  function SortEntries(cmp: (Node, Node) -> int, s: seq<Entry>): seq<Entry> {
    if |s| == 0 then [] else InsertEntry(cmp, s[0], SortEntries(cmp, s[1..]))
  }

  lemma ValuesCons(e: Entry, s: seq<Entry>)
    ensures Values([e] + s) == [e.1] + Values(s)
  {
    assert Values([e] + s)[0] == e.1;
  }

  lemma {:induction false} InsertEntryValues(cmp: (Node, Node) -> int, x: Entry, s: seq<Entry>)
    ensures Values(InsertEntry(cmp, x, s)) == InsertSorted(cmp, x.1, Values(s))
  {
    if |s| > 0 {
      assert s == [s[0]] + s[1..];
      ValuesCons(s[0], s[1..]);
      if cmp(x.1, s[0].1) <= 0 {
        ValuesCons(x, s);
      } else {
        InsertEntryValues(cmp, x, s[1..]);
        ValuesCons(s[0], InsertEntry(cmp, x, s[1..]));
      }
    }
  }

  lemma {:induction false} InsertEntryMembers(cmp: (Node, Node) -> int, x: Entry, s: seq<Entry>)
    ensures multiset(InsertEntry(cmp, x, s)) == multiset(s) + multiset{x}
  {
    if |s| > 0 {
      assert s == [s[0]] + s[1..];
      if cmp(x.1, s[0].1) > 0 {
        InsertEntryMembers(cmp, x, s[1..]);
      }
    }
  }

  lemma {:induction false} InsertEntryDistinct(cmp: (Node, Node) -> int, x: Entry, s: seq<Entry>)
    requires x !in s && Distinct(s)
    ensures Distinct(InsertEntry(cmp, x, s))
  {
    if |s| == 0 {
    } else if cmp(x.1, s[0].1) <= 0 {
      DistinctCons(x, s);
    } else {
      DistinctTail(s);
      InsertEntryDistinct(cmp, x, s[1..]);
      InsertEntryMembers(cmp, x, s[1..]);
      assert s[0] !in multiset(s[1..]);
      assert s[0] !in multiset(InsertEntry(cmp, x, s[1..]));
      DistinctCons(s[0], InsertEntry(cmp, x, s[1..]));
    }
  }

  /** The entries `SortEntries` returns carry the values `SortSeq` returns. */
  lemma {:induction false} SortEntriesValues(cmp: (Node, Node) -> int, s: seq<Entry>)
    ensures Values(SortEntries(cmp, s)) == SortSeq(cmp, Values(s))
  {
    if |s| > 0 {
      assert s == [s[0]] + s[1..];
      ValuesCons(s[0], s[1..]);
      SortEntriesValues(cmp, s[1..]);
      InsertEntryValues(cmp, s[0], SortEntries(cmp, s[1..]));
    }
  }

  /** `SortEntries` returns the entries it was given. */
  lemma {:induction false} SortEntriesMembers(cmp: (Node, Node) -> int, s: seq<Entry>)
    ensures multiset(SortEntries(cmp, s)) == multiset(s)
  {
    if |s| > 0 {
      assert s == [s[0]] + s[1..];
      SortEntriesMembers(cmp, s[1..]);
      InsertEntryMembers(cmp, s[0], SortEntries(cmp, s[1..]));
    }
  }

  /** `SortEntries` returns distinct entries when it was given distinct ones. */
  lemma {:induction false} SortEntriesDistinct(cmp: (Node, Node) -> int, s: seq<Entry>)
    requires Distinct(s)
    ensures Distinct(SortEntries(cmp, s))
  {
    if |s| > 0 {
      var rest := SortEntries(cmp, s[1..]);
      DistinctTail(s);
      SortEntriesDistinct(cmp, s[1..]);
      SortEntriesMembers(cmp, s[1..]);
      assert s[0] !in multiset(s[1..]) by {
        assert s == [s[0]] + s[1..];
      }
      assert s[0] !in multiset(rest);
      InsertEntryDistinct(cmp, s[0], rest);
    }
  }

  lemma ZipValues(cs: seq<TrieNode>, ms: seq<Node>)
    requires |cs| == |ms|
    ensures Values(Zip(cs, ms)) == ms
  {
  }

  lemma ZipDistinct(cs: seq<TrieNode>, ms: seq<Node>)
    requires |cs| == |ms| && Distinct(cs)
    ensures Distinct(Zip(cs, ms))
  {
  }

  /** Every entry of `sorted` pairs some `cs[j]` with its `ms[j]`. */
  ghost predicate Paired(sorted: seq<Entry>, cs: seq<TrieNode>, ms: seq<Node>) {
    |cs| == |ms| && forall i :: 0 <= i < |sorted| ==> exists j :: 0 <= j < |cs| && sorted[i] == (cs[j], ms[j])
  }

  /** Every entry of a rearrangement of `Zip(cs, ms)` pairs some `cs[j]` with `ms[j]`. */
  lemma PickedFromZip(cs: seq<TrieNode>, ms: seq<Node>, sorted: seq<Entry>)
    requires |cs| == |ms| && multiset(sorted) == multiset(Zip(cs, ms))
    ensures Paired(sorted, cs, ms)
  {
    var entries := Zip(cs, ms);
    forall i | 0 <= i < |sorted|
      ensures exists j :: 0 <= j < |cs| && sorted[i] == (cs[j], ms[j])
    {
      assert sorted[i] in multiset(entries);
      var j :| 0 <= j < |entries| && entries[j] == sorted[i];
    }
  }

  /** Distinct entries drawn from `Zip(cs, ms)` with distinct `cs` carry distinct objects. */
  lemma PickedDistinct(cs: seq<TrieNode>, ms: seq<Node>, sorted: seq<Entry>)
    requires |cs| == |ms| && Distinct(sorted)
    requires Paired(sorted, cs, ms)
    requires Distinct(cs)
    ensures Distinct(Objects(sorted))
  {
    var picked := Objects(sorted);
    forall p, q | 0 <= p < q < |picked| ensures picked[p] != picked[q] {
      var a :| 0 <= a < |cs| && sorted[p] == (cs[a], ms[a]);
      var b :| 0 <= b < |cs| && sorted[q] == (cs[b], ms[b]);
      assert (cs[a], ms[a]) != (cs[b], ms[b]);
      assert a != b;
      assert picked[p] == cs[a] && picked[q] == cs[b];
    }
  }

  /** Sorting children paired with their values sorts the values as `SortSeq` does. */
  lemma PickValues(cmp: (Node, Node) -> int, cs: seq<TrieNode>, ms: seq<Node>)
    requires |cs| == |ms|
    ensures Values(SortEntries(cmp, Zip(cs, ms))) == SortSeq(cmp, ms)
  {
    ZipValues(cs, ms);
    SortEntriesValues(cmp, Zip(cs, ms));
  }

  /** Sorting children paired with their values keeps each child next to its own value. */
  lemma PickPairs(cmp: (Node, Node) -> int, cs: seq<TrieNode>, ms: seq<Node>)
    requires |cs| == |ms|
    ensures Paired(SortEntries(cmp, Zip(cs, ms)), cs, ms)
  {
    SortEntriesMembers(cmp, Zip(cs, ms));
    PickedFromZip(cs, ms, SortEntries(cmp, Zip(cs, ms)));
  }

  /** Sorting distinct children paired with their values picks each child once. */
  lemma PickOnce(cmp: (Node, Node) -> int, cs: seq<TrieNode>, ms: seq<Node>)
    requires |cs| == |ms| && Distinct(cs)
    ensures Distinct(Objects(SortEntries(cmp, Zip(cs, ms))))
  {
    var sorted := SortEntries(cmp, Zip(cs, ms));
    assert Distinct(sorted) by {
      ZipDistinct(cs, ms);
      SortEntriesDistinct(cmp, Zip(cs, ms));
    }
    PickPairs(cmp, cs, ms);
    PickedDistinct(cs, ms, sorted);
  }

  lemma ObjectsCons(e: Entry, s: seq<Entry>)
    ensures Objects([e] + s) == [e.0] + Objects(s)
  {
    assert Objects([e] + s)[0] == e.0;
  }

  lemma ObjectsAppend(a: seq<Entry>, b: seq<Entry>)
    ensures Objects(a + b) == Objects(a) + Objects(b)
  {
    forall i | 0 <= i < |a + b| ensures Objects(a + b)[i] == (Objects(a) + Objects(b))[i] {
      if i >= |a| {
        assert (a + b)[i] == b[i - |a|];
      }
    }
  }

  /** Where `InsertEntry` places its entry. */
  function InsertEntryAt(cmp: (Node, Node) -> int, x: Entry, s: seq<Entry>): (j: nat)
    ensures j <= |s|
  {
    if |s| == 0 then 0
    else if cmp(x.1, s[0].1) <= 0 then 0
    else 1 + InsertEntryAt(cmp, x, s[1..])
  }

  lemma {:induction false} InsertEntrySplits(cmp: (Node, Node) -> int, x: Entry, s: seq<Entry>)
    ensures var j := InsertEntryAt(cmp, x, s);
      InsertEntry(cmp, x, s) == s[..j] + [x] + s[j..]
  {
    if |s| > 0 && cmp(x.1, s[0].1) > 0 {
      var rest := s[1..];
      var k := InsertEntryAt(cmp, x, rest);
      InsertEntrySplits(cmp, x, rest);
      assert s[..k + 1] == [s[0]] + rest[..k];
      assert s[k + 1..] == rest[k..];
      TrieTransformLemmas.ConsRegroups(s[0], rest[..k], x, rest[k..]);
    }
  }

  lemma InsertEntryObjects(cmp: (Node, Node) -> int, x: Entry, s: seq<Entry>)
    ensures multiset(Objects(InsertEntry(cmp, x, s))) == multiset(Objects(s)) + multiset{x.0}
  {
    var j := InsertEntryAt(cmp, x, s);
    var a, b := s[..j], s[j..];
    InsertEntrySplits(cmp, x, s);
    ObjectsAppend(a + [x], b);
    ObjectsAppend(a, [x]);
    assert s == a + b;
    ObjectsAppend(a, b);
    assert Objects([x]) == [x.0];
    var oa, ob := Objects(a), Objects(b);
    assert Objects(InsertEntry(cmp, x, s)) == oa + [x.0] + ob;
    assert Objects(s) == oa + ob;
    assert multiset(oa + [x.0] + ob) == multiset(oa) + multiset{x.0} + multiset(ob);
  }

  /** `SortEntries` moves the objects it was given, each as often as it was given. */
  lemma {:induction false} SortEntriesObjects(cmp: (Node, Node) -> int, s: seq<Entry>)
    ensures multiset(Objects(SortEntries(cmp, s))) == multiset(Objects(s))
  {
    if |s| > 0 {
      assert s == [s[0]] + s[1..];
      ObjectsCons(s[0], s[1..]);
      SortEntriesObjects(cmp, s[1..]);
      InsertEntryObjects(cmp, s[0], SortEntries(cmp, s[1..]));
    }
  }

  lemma ZipObjects(cs: seq<TrieNode>, ms: seq<Node>)
    requires |cs| == |ms|
    ensures Objects(Zip(cs, ms)) == cs
  {
  }

  /** Sorting objects paired with their models returns the same objects, each as often. */
  lemma SortedSameObjects(cmp: (Node, Node) -> int, cs: seq<TrieNode>, ms: seq<Node>)
    requires |cs| == |ms|
    ensures multiset(Objects(SortEntries(cmp, Zip(cs, ms)))) == multiset(cs)
  {
    ZipObjects(cs, ms);
    SortEntriesObjects(cmp, Zip(cs, ms));
  }

  /** Sorting objects paired with their models picks each object once, and their models come out
      in the order `SortSeq` gives them. */
  lemma SortedChildren(cmp: (Node, Node) -> int, cs: seq<TrieNode>, ms: seq<Node>)
    requires |cs| == |ms| && Distinct(cs)
    requires forall i :: 0 <= i < |cs| ==> cs[i].model == ms[i]
    ensures var picked := Objects(SortEntries(cmp, Zip(cs, ms)));
      Distinct(picked) && (forall i :: 0 <= i < |picked| ==> picked[i] in cs) &&
      ModelsOf(picked) == SortSeq(cmp, ms)
  {
    var sorted := SortEntries(cmp, Zip(cs, ms));
    var picked := Objects(sorted);
    PickValues(cmp, cs, ms);
    PickPairs(cmp, cs, ms);
    PickOnce(cmp, cs, ms);
    forall i | 0 <= i < |picked| ensures picked[i] in cs && picked[i].model == Values(sorted)[i] {
      var j :| 0 <= j < |cs| && sorted[i] == (cs[j], ms[j]);
    }
  }

  class TrieNode {
    var isFolder: bool
    var children: seq<TrieNode>
    var slugSegments: seq<string>
    var fileSegmentHint: Option<string>
    var displayNameOverride: Option<string>
    var data: Option<FileData>

    /** The value this node stands for, children included. */
    ghost var model: Node
    /** This node and every node below it. */
    ghost var Repr: set<object>

    /** The fields agree with `model`, every child is a valid node of its own, and no two nodes of
        the tree share an object. */
    ghost predicate Valid()
      reads this, Repr
      decreases Repr
    {
      this in Repr &&
      model == Node(slugSegments, isFolder, data, fileSegmentHint, displayNameOverride, model.children) &&
      |model.children| == |children| &&
      (forall i :: 0 <= i < |children| ==>
        children[i] in Repr && children[i].Repr <= Repr && this !in children[i].Repr &&
        children[i].model == model.children[i] && children[i].Valid()) &&
      (forall i, j :: 0 <= i < |children| && 0 <= j < |children| && i != j ==>
        children[i].Repr !! children[j].Repr)
    }

    /** `new FileTrieNode(segments, data)` */
    constructor(segments: seq<string>, data: Option<FileData>)
      ensures Valid() && fresh(Repr)
      ensures model == NewNode(segments, data)
    {
      children := [];
      slugSegments := segments;
      this.data := data;
      isFolder := false;
      fileSegmentHint := None;
      displayNameOverride := None;
      model := NewNode(segments, data);
      Repr := {this};
    }

    /** The value of the node as a callback sees it. */
    function Snapshot(): (r: Node)
      reads this, Repr
      requires Valid()
      ensures r == model
      decreases Repr, 1
    {
      Node(slugSegments, isFolder, data, fileSegmentHint, displayNameOverride, SnapshotFrom(0))
    }

    function SnapshotFrom(k: nat): (r: seq<Node>)
      reads this, Repr
      requires Valid() && k <= |children|
      ensures r == model.children[k..]
      decreases Repr, 0, |children| - k
    {
      if k == |children| then []
      else [children[k].Snapshot()] + SnapshotFrom(k + 1)
    }

    lemma ChildrenDistinct()
      requires Valid()
      ensures Distinct(children)
    {
      forall p, q | 0 <= p < q < |children| ensures children[p] != children[q] {
        assert children[p] in children[p].Repr;
      }
    }

    /** The getter `displayName`. */
    function DisplayName(): (r: string)
      reads this, Repr
      requires Valid()
      ensures r == FileTrie.DisplayName(model)
    {
      FileTrie.DisplayName(Node(slugSegments, isFolder, data, fileSegmentHint, displayNameOverride, []))
    }

    /** The getter `slug`. */
    function Slug(): (r: string)
      reads this, Repr
      requires Valid()
      ensures r == FileTrie.Slug(model)
    {
      FileTrie.Slug(Node(slugSegments, isFolder, data, fileSegmentHint, displayNameOverride, []))
    }

    /** The getter `slugSegment`. */
    function SlugSegment(): (r: string)
      reads this, Repr
      requires Valid()
      ensures r == FileTrie.SlugSegment(model)
    {
      FileTrie.SlugSegment(Node(slugSegments, isFolder, data, fileSegmentHint, displayNameOverride, []))
    }

    /** The setter `displayName`. */
    method SetDisplayName(name: string)
      requires Valid()
      modifies this
      ensures Valid() && Repr == old(Repr)
      ensures model == FileTrie.SetDisplayName(old(model), name)
    {
      displayNameOverride := Some(name);
      model := model.(displayNameOverride := Some(name));
    }

    /** `child.fileSegmentHint = hint` */
    method SetHint(hint: string)
      requires Valid()
      modifies this
      ensures Valid() && Repr == old(Repr)
      ensures model == old(model).(fileSegmentHint := Some(hint))
    {
      fileSegmentHint := Some(hint);
      model := model.(fileSegmentHint := Some(hint));
    }

    /** `this.children.push(child)` for a valid node that shares no object with this tree. */
    method PushChild(child: TrieNode)
      requires Valid() && child.Valid() && Repr !! child.Repr
      modifies this
      ensures Valid() && Repr == old(Repr) + child.Repr
      ensures children == old(children) + [child]
      ensures model == old(model).(children := old(model).children + [child.model])
    {
      children := children + [child];
      model := model.(children := model.children + [child.model]);
      Repr := Repr + child.Repr;
    }

    /** `makeChild(path, file)`: the new child, pushed last, or the error "path is empty". */
    method MakeChild(path: seq<string>, file: Option<FileData>) returns (r: Result<TrieNode, TrieError>)
      requires Valid()
      modifies this
      ensures Valid() && old(Repr) <= Repr && fresh(Repr - old(Repr))
      ensures r.Ok? <==> FileTrie.MakeChild(old(model), path, file).Ok?
      ensures r.Ok? ==> model == FileTrie.MakeChild(old(model), path, file).value
      ensures r.Ok? ==> |children| > 0 && r.value == children[|children| - 1] && fresh(r.value)
      ensures r.Err? ==> model == old(model) && Repr == old(Repr)
    {
      if |path| == 0 || path[0] == "" {
        return Err(PathIsEmpty);
      }
      var child := new TrieNode(slugSegments + [path[0]], file);
      PushChild(child);
      r := Ok(child);
    }

    /** Mark the node as a folder. */
    method MarkFolder()
      requires Valid()
      modifies this
      ensures Valid() && Repr == old(Repr)
      ensures model == old(model).(isFolder := true)
    {
      isFolder := true;
      model := model.(isFolder := true);
    }

    /** `this.data ??= file` */
    method FillData(file: FileData)
      requires Valid()
      modifies this
      ensures Valid() && Repr == old(Repr)
      ensures model == old(model).(data := Some(old(model).data.GetOr(file)))
    {
      if data.None? {
        data := Some(file);
        model := model.(data := data);
      }
    }

    /** The child for `segment`: the first that matches, or a new data-less one pushed last. */
    method ChildFor(segment: string) returns (k: nat)
      requires Valid() && segment != ""
      modifies this
      ensures Valid() && old(Repr) <= Repr && fresh(Repr - old(Repr))
      ensures model == old(model).(children := ChildrenFor(old(model), segment))
      ensures k == FindChild(old(model).children, segment) && k < |children|
    {
      k := FindChild(SnapshotFrom(0), segment);
      if k == |children| {
        var _ := MakeChild([segment], None);
      }
    }

    /** `child.fileSegmentHint = hint` for the child at `k`. */
    method SetHintAt(k: nat, hint: string)
      requires Valid() && k < |children|
      modifies this, children[k]
      ensures Valid() && Repr == old(Repr)
      ensures model == old(model).(children := old(model).children[k := old(model).children[k].(fileSegmentHint := Some(hint))])
    {
      children[k].SetHint(hint);
      model := model.(children := model.children[k := children[k].model]);
    }

    /** `child.insert(path, file)` for the child at `k`. */
    method InsertAt(k: nat, path: seq<string>, file: FileData) returns (ok: bool)
      requires Valid() && k < |children|
      modifies Repr
      ensures Valid() && old(Repr) <= Repr && fresh(Repr - old(Repr))
      ensures var sub := FileTrie.Insert(old(model).children[k], path, file);
        ok == sub.ok && model == old(model).(children := old(model).children[k := sub.node])
      decreases |path|, 3
    {
      var child := children[k];
      ok := child.Insert(path, file);
      model := model.(children := model.children[k := child.model]);
      Repr := Repr + child.Repr;
    }

    /** `insert(path, file)`; `ok` is false where the source throws "path is empty", and the state
        is then what the source leaves behind. */
    method Insert(path: seq<string>, file: FileData) returns (ok: bool)
      requires Valid()
      modifies Repr
      ensures Valid() && old(Repr) <= Repr && fresh(Repr - old(Repr))
      ensures Inserted(model, ok) == FileTrie.Insert(old(model), path, file)
      decreases |path|, 2
    {
      if |path| == 0 {
        return false;
      }
      MarkFolder();
      var segment := path[0];
      if segment == "" {
        return false;
      }
      if |path| == 1 {
        if segment == "index" {
          FillData(file);
        } else {
          var _ := MakeChild(path, Some(file));
        }
        return true;
      }
      ok := InsertDeep(path, file);
    }

    /** The branch of `insert` for two or more segments, on a node already marked as a folder. */
    method InsertDeep(path: seq<string>, file: FileData) returns (ok: bool)
      requires Valid() && |path| >= 2 && path[0] != "" && model.isFolder
      modifies Repr
      ensures Valid() && old(Repr) <= Repr && fresh(Repr - old(Repr))
      ensures var sub := FileTrie.Insert(StepChild(old(model), path, file), path[1..], file);
        ok == sub.ok &&
        model == old(model).(children := ChildrenFor(old(model), path[0])[FindChild(old(model).children, path[0]) := sub.node])
      decreases |path|, 1
    {
      ghost var folder := model;
      var k := ChildFor(path[0]);
      ghost var base := model;
      var hint := HintFor(file, |path|);
      if hint.Some? {
        SetHintAt(k, hint.value);
      }
      ghost var stepped := model;
      assert stepped.children[k] == StepChild(folder, path, file);
      assert stepped == base.(children := base.children[k := stepped.children[k]]);
      ok := InsertAt(k, path[1..], file);
      ghost var sub := FileTrie.Insert(StepChild(folder, path, file), path[1..], file).node;
      TrieTransformLemmas.UpdateOverwrites(base.children, k, stepped.children[k], sub);
    }

    /** `add(file)` */
    method Add(file: FileData) returns (ok: bool)
      requires Valid()
      modifies Repr
      ensures Valid() && old(Repr) <= Repr && fresh(Repr - old(Repr))
      ensures Inserted(model, ok) == FileTrie.Add(old(model), file)
    {
      ok := Insert(Split(file.slug), file);
    }

    // ---- filter ----------------------------------------------------------------------------------

    /** `this.children = cs`, for distinct nodes taken from the current children. */
    method SetChildren(cs: seq<TrieNode>)
      requires Valid() && Distinct(cs) && forall i :: 0 <= i < |cs| ==> cs[i] in children
      modifies this
      ensures Valid() && Repr == old(Repr) && children == cs
      ensures model == old(model).(children := ModelsOf(cs))
    {
      ghost var old_children := children;
      forall p, q | 0 <= p < |cs| && 0 <= q < |cs| && p != q ensures cs[p].Repr !! cs[q].Repr {
        var a :| 0 <= a < |old_children| && old_children[a] == cs[p];
        var b :| 0 <= b < |old_children| && old_children[b] == cs[q];
      }
      forall i | 0 <= i < |cs|
        ensures cs[i] in Repr && cs[i].Repr <= Repr && this !in cs[i].Repr && cs[i].Valid()
      {
        ChildValid(cs[i]);
      }
      children := cs;
      model := model.(children := ModelsOf(cs));
    }

    /** `children.filter(f)` from position `k` on: the children `f` accepts, in their order. */
    function KeptFrom(f: Node -> bool, k: nat): (r: seq<TrieNode>)
      reads this, Repr
      requires Valid() && k <= |children|
      ensures forall x :: x in r ==> x in children[k..]
      ensures Distinct(r)
      ensures ModelsOf(r) == Kept(f, model.children[k..])
      decreases |children| - k
    {
      if k == |children| then []
      else
        var rest := KeptFrom(f, k + 1);
        ChildrenDistinct();
        SliceCons(model.children, k);
        SliceCons(children, k);
        assert children[k] !in children[k + 1..];
        if f(children[k].Snapshot()) then
          DistinctCons(children[k], rest);
          ModelsOfCons(children[k], rest);
          [children[k]] + rest
        else rest
    }

    /** `this.children = this.children.filter(f)` */
    method KeepChildren(f: Node -> bool)
      requires Valid()
      modifies this
      ensures Valid() && Repr == old(Repr)
      ensures forall x :: x in children ==> x in old(children)
      ensures model == old(model).(children := Kept(f, old(model).children))
    {
      var kept := KeptFrom(f, 0);
      assert children[0..] == children;
      assert model.children[0..] == model.children;
      assert forall i :: 0 <= i < |kept| ==> kept[i] in children by {
        forall i | 0 <= i < |kept| ensures kept[i] in children {
          assert kept[i] in kept;
        }
      }
      SetChildren(kept);
    }

    /** `child.filter(f)` for the child at `i`. */
    method FilterAt(i: nat, f: Node -> bool)
      requires Valid() && i < |children|
      modifies Repr
      ensures Valid() && Repr == old(Repr) && children == old(children)
      ensures model == old(model).(children := old(model).children[i := FileTrie.Filter(f, old(model).children[i])])
      decreases Repr, 0
    {
      var child := children[i];
      child.Filter(f);
      model := model.(children := model.children[i := child.model]);
    }

    /** `filter(f)` */
    method Filter(f: Node -> bool)
      requires Valid()
      modifies Repr
      ensures Valid() && Repr == old(Repr)
      ensures forall x :: x in children ==> x in old(children)
      ensures model == FileTrie.Filter(f, old(model))
      decreases Repr, 1
    {
      ghost var n := model;
      ghost var kept := Kept(f, n.children);
      KeepChildren(f);
      var i := 0;
      while i < |children|
        invariant 0 <= i <= |children| == |kept|
        invariant Valid() && Repr == old(Repr)
        invariant forall x :: x in children ==> x in old(children)
        invariant model.(children := n.children) == n && |model.children| == |kept|
        invariant forall j :: 0 <= j < i ==> model.children[j] == FileTrie.Filter(f, kept[j])
        invariant forall j :: i <= j < |kept| ==> model.children[j] == kept[j]
        decreases |children| - i
      {
        FilterAt(i, f);
        i := i + 1;
      }
      assert ChildrenOf(n, kept);
      TrieTransformLemmas.FilterEachByPosition(f, n, kept, model.children);
    }

    // ---- map -------------------------------------------------------------------------------------

    /** `mapFn(this)`: the callback's new values for the node's own fields. */
    method Relabel(fn: Node -> Node)
      requires Valid()
      modifies this
      ensures Valid() && Repr == old(Repr) && children == old(children)
      ensures model == fn(old(model)).(children := old(model).children)
    {
      var m := fn(Snapshot());
      slugSegments := m.segments;
      isFolder := m.isFolder;
      data := m.data;
      fileSegmentHint := m.fileSegmentHint;
      displayNameOverride := m.displayNameOverride;
      model := m.(children := model.children);
    }

    /** `child.map(fn)` for the child at `i`. */
    method MapAt(i: nat, fn: Node -> Node)
      requires Valid() && i < |children|
      modifies Repr
      ensures Valid() && Repr == old(Repr) && children == old(children)
      ensures model == old(model).(children := old(model).children[i := MapTree(fn, old(model).children[i])])
      decreases Repr, 0
    {
      var child := children[i];
      child.Map(fn);
      model := model.(children := model.children[i := child.model]);
    }

    /** `map(fn)` */
    method Map(fn: Node -> Node)
      requires Valid()
      modifies Repr
      ensures Valid() && Repr == old(Repr)
      ensures model == MapTree(fn, old(model))
      decreases Repr, 1
    {
      ghost var n := model;
      Relabel(fn);
      var i := 0;
      while i < |children|
        invariant 0 <= i <= |children| == |n.children|
        invariant Valid() && Repr == old(Repr)
        invariant model.(children := n.children) == fn(n).(children := n.children)
        invariant |model.children| == |n.children|
        invariant forall j :: 0 <= j < i ==> model.children[j] == MapTree(fn, n.children[j])
        invariant forall j :: i <= j < |n.children| ==> model.children[j] == n.children[j]
        decreases |children| - i
      {
        MapAt(i, fn);
        i := i + 1;
      }
      TrieTransformLemmas.MapEachByPosition(fn, n, n.children, model.children);
    }

    // ---- sort ------------------------------------------------------------------------------------

    /** A child of a valid node is a valid node inside its footprint. */
    lemma ChildValid(y: TrieNode)
      requires Valid() && y in children
      ensures y in Repr && y.Repr <= Repr && this !in y.Repr && y.Valid()
    {
      var i :| 0 <= i < |children| && children[i] == y;
    }

    /** `this.children = this.children.sort(cmp)` */
    method SortChildren(cmp: (Node, Node) -> int)
      requires Valid()
      modifies this
      ensures Valid() && Repr == old(Repr)
      ensures multiset(children) == multiset(old(children))
      ensures model == old(model).(children := SortSeq(cmp, old(model).children))
    {
      var ms := SnapshotFrom(0);
      var picked := Objects(SortEntries(cmp, Zip(children, ms)));
      ChildrenDistinct();
      SortedChildren(cmp, children, ms);
      SortedSameObjects(cmp, children, ms);
      SetChildren(picked);
    }

    /** `child.sort(cmp)` for the child at `i`. */
    method SortAt(i: nat, cmp: (Node, Node) -> int)
      requires Valid() && i < |children|
      modifies Repr
      ensures Valid() && Repr == old(Repr) && children == old(children)
      ensures model == old(model).(children := old(model).children[i := FileTrie.Sort(cmp, old(model).children[i])])
      decreases Repr, 0
    {
      var child := children[i];
      child.Sort(cmp);
      model := model.(children := model.children[i := child.model]);
    }

    /** `sort(cmp)` */
    method Sort(cmp: (Node, Node) -> int)
      requires Valid()
      modifies Repr
      ensures Valid() && Repr == old(Repr)
      ensures multiset(children) == multiset(old(children))
      ensures model == FileTrie.Sort(cmp, old(model))
      decreases Repr, 1
    {
      ghost var n := model;
      ghost var sorted := SortSeq(cmp, n.children);
      SortChildren(cmp);
      var i := 0;
      while i < |children|
        invariant 0 <= i <= |children| == |sorted|
        invariant Valid() && Repr == old(Repr)
        invariant multiset(children) == multiset(old(children))
        invariant model.(children := n.children) == n && |model.children| == |sorted|
        invariant forall j :: 0 <= j < i ==> model.children[j] == FileTrie.Sort(cmp, sorted[j])
        invariant forall j :: i <= j < |sorted| ==> model.children[j] == sorted[j]
        decreases |children| - i
      {
        SortAt(i, cmp);
        i := i + 1;
      }
      TrieTransformLemmas.SortSeqMembers(cmp, n, n.children);
      TrieTransformLemmas.SortEachByPosition(cmp, n, sorted, model.children);
    }
  }

  /** The callback of the `forEach` of `trieFromAllFiles`: `add` a file that has frontmatter, with
      its title or "" when it has none; skip any other. */
  method AddFile(trie: TrieNode, file: SourceFile) returns (ok: bool)
    requires trie.Valid()
    requires file.frontmatter.Some? ==> file.slug.Some? && file.filePath.Some?
    modifies trie.Repr
    ensures trie.Valid() && old(trie.Repr) <= trie.Repr && fresh(trie.Repr - old(trie.Repr))
    ensures file.frontmatter.None? ==> ok && trie.model == old(trie.model)
    ensures file.frontmatter.Some? ==> Inserted(trie.model, ok) == Add(old(trie.model), ToFileData(file))
  {
    ok := true;
    if file.frontmatter.Some? {
      ok := trie.Add(ToFileData(file));
    }
  }

  /** The `forEach` of `trieFromAllFiles`: `AddFile` for each file in order; an error thrown by
      `add` ends the loop. */
  method AddFiles(trie: TrieNode, files: seq<SourceFile>) returns (ok: bool)
    requires trie.Valid() && HasPaths(files)
    modifies trie.Repr
    ensures trie.Valid() && old(trie.Repr) <= trie.Repr && fresh(trie.Repr - old(trie.Repr))
    ensures ok <==> AddAll(old(trie.model), files).Ok?
    ensures ok ==> AddAll(old(trie.model), files) == Ok(trie.model)
  {
    var i := 0;
    while i < |files|
      invariant 0 <= i <= |files|
      invariant trie.Valid() && old(trie.Repr) <= trie.Repr && fresh(trie.Repr - old(trie.Repr))
      invariant HasPaths(files[i..]) && AddAll(old(trie.model), files) == AddAll(trie.model, files[i..])
    {
      FileTrieLemmas.AddAllUnfold(trie.model, files[i..]);
      assert files[i..][0] == files[i] && files[i..][1..] == files[i + 1..];
      assert files[i].frontmatter.Some? ==> files[i].slug.Some? && files[i].filePath.Some?;
      ok := AddFile(trie, files[i]);
      if !ok {
        return;
      }
      i := i + 1;
    }
    return true;
  }

  /** `trieFromAllFiles(allFiles)`: a new root, then `add` for every file with frontmatter in order;
      an error thrown by `add` ends the call. */
  method TrieFromAllFiles(files: seq<SourceFile>) returns (r: Result<TrieNode, TrieError>)
    requires HasPaths(files)
    ensures r.Ok? <==> FileTrie.TrieFromAllFiles(files).Ok?
    ensures r.Ok? ==> r.value.Valid() && fresh(r.value.Repr) && r.value.model == FileTrie.TrieFromAllFiles(files).value
  {
    var trie := new TrieNode([], None);
    var ok := AddFiles(trie, files);
    if !ok {
      return Err(PathIsEmpty);
    }
    return Ok(trie);
  }
}
