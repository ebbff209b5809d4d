/** What `filter`, `sort`, `map` and `trieFromAllFiles` of src/util/fileTrie.ts promise, proved about
    the value model. */
module TrieTransformLemmas {
  import opened Wrappers
  import opened Strings
  import opened FileTrie
  import opened FileTrieLemmas

  /** A node with its children dropped: everything a callback that ignores children can see. */
  function Label(n: Node): Node {
    n.(children := [])
  }

  /** A predicate that decides on a node's own fields, not on its children. */
  ghost predicate LabelOnly(f: Node -> bool) {
    forall a: Node :: f(a) == f(Label(a))
  }

  /** A comparator that decides on the two nodes' own fields, not on their children. */
  ghost predicate LabelOnlyCmp(cmp: (Node, Node) -> int) {
    forall a: Node, b: Node :: cmp(a, b) == cmp(Label(a), Label(b))
  }

  /** Every node strictly below `n` satisfies `f`. */
  predicate AllBelow(f: Node -> bool, n: Node) {
    forall i :: 0 <= i < |n.children| ==> f(n.children[i]) && AllBelow(f, n.children[i])
  }

  /** At every depth the children are in `cmp` order. */
  predicate SortedEverywhere(cmp: (Node, Node) -> int, n: Node) {
    Sorted(cmp, n.children) && forall i :: 0 <= i < |n.children| ==> SortedEverywhere(cmp, n.children[i])
  }

  // ---- filter ----------------------------------------------------------------------------------

  /** `Array.prototype.filter` keeps the survivors in their original relative order. */
  lemma {:induction false} KeptAppend(f: Node -> bool, a: seq<Node>, b: seq<Node>)
    ensures Kept(f, a + b) == Kept(f, a) + Kept(f, b)
  {
    if |a| == 0 {
      assert a + b == b;
    } else {
      assert (a + b)[0] == a[0];
      assert (a + b)[1..] == a[1..] + b;
      KeptAppend(f, a[1..], b);
    }
  }

  lemma {:induction false} FilterEachAt(f: Node -> bool, parent: Node, s: seq<Node>, i: nat)
    requires ChildrenOf(parent, s)
    requires i < |s|
    ensures FilterEach(f, parent, s)[i] == Filter(f, s[i])
  {
    if i > 0 {
      FilterEachAt(f, parent, s[1..], i - 1);
    }
  }

  /** `FilterEach`, position by position. */
  lemma FilterEachByPosition(f: Node -> bool, parent: Node, s: seq<Node>, out: seq<Node>)
    requires ChildrenOf(parent, s) && |out| == |s|
    requires forall j :: 0 <= j < |s| ==> out[j] == Filter(f, s[j])
    ensures out == FilterEach(f, parent, s)
  {
    forall j | 0 <= j < |s| ensures out[j] == FilterEach(f, parent, s)[j] {
      FilterEachAt(f, parent, s, j);
    }
  }

  /** After `filter(f)`, no node below the receiver fails `f`, when `f` looks only at a node's own
      fields (the source tests each child before filtering below it). */
  lemma {:induction false} FilterLeavesOnlyAccepted(f: Node -> bool, n: Node)
    requires LabelOnly(f)
    ensures AllBelow(f, Filter(f, n))
    decreases n
  {
    var r := Filter(f, n);
    var kept := Kept(f, n.children);
    forall i | 0 <= i < |r.children|
      ensures f(r.children[i]) && AllBelow(f, r.children[i])
    {
      FilterEachAt(f, n, kept, i);
      var c := kept[i];
      assert c in n.children;
      assert Label(r.children[i]) == Label(c);
      assert f(r.children[i]) == f(Label(c)) == f(c);
      FilterLeavesOnlyAccepted(f, c);
    }
  }

  lemma {:induction false} KeptAll(f: Node -> bool, s: seq<Node>)
    requires forall i :: 0 <= i < |s| ==> f(s[i])
    ensures Kept(f, s) == s
  {
    if |s| > 0 {
      KeptAll(f, s[1..]);
    }
  }

  /** A filter that accepts every node leaves the tree unchanged. */
  lemma {:induction false} FilterAcceptAll(f: Node -> bool, n: Node)
    requires forall x :: f(x)
    ensures Filter(f, n) == n
    decreases n
  {
    KeptAll(f, n.children);
    var r := Filter(f, n);
    forall i | 0 <= i < |n.children|
      ensures r.children[i] == n.children[i]
    {
      FilterEachAt(f, n, n.children, i);
      FilterAcceptAll(f, n.children[i]);
    }
  }

  // ---- sort ------------------------------------------------------------------------------------

  /** `SortEach`, position by position. */
  lemma SortEachByPosition(cmp: (Node, Node) -> int, parent: Node, s: seq<Node>, out: seq<Node>)
    requires ChildrenOf(parent, s) && |out| == |s|
    requires forall j :: 0 <= j < |s| ==> out[j] == Sort(cmp, s[j])
    ensures out == SortEach(cmp, parent, s)
  {
    forall j | 0 <= j < |s| ensures out[j] == SortEach(cmp, parent, s)[j] {
      SortEachAt(cmp, parent, s, j);
    }
  }

  lemma SortedTail(cmp: (Node, Node) -> int, s: seq<Node>)
    requires |s| > 0 && Sorted(cmp, s)
    ensures Sorted(cmp, s[1..])
  {
    forall i | 0 <= i < |s[1..]| - 1 ensures cmp(s[1..][i], s[1..][i + 1]) <= 0 {
      assert s[1..][i] == s[i + 1] && s[1..][i + 1] == s[i + 2];
    }
  }

  /** A sorted sequence stays sorted with a new head that may precede the old one. */
  lemma SortedCons(cmp: (Node, Node) -> int, x: Node, s: seq<Node>)
    requires Sorted(cmp, s) && (|s| == 0 || cmp(x, s[0]) <= 0)
    ensures Sorted(cmp, [x] + s)
  {
    forall i | 0 <= i < |s| ensures cmp(([x] + s)[i], ([x] + s)[i + 1]) <= 0 {
      if i > 0 {
        assert ([x] + s)[i] == s[i - 1] && ([x] + s)[i + 1] == s[i];
      }
    }
  }

  /** The head of `InsertSorted(cmp, x, s)` is `x` or the old head. */
  lemma {:induction false} InsertSortedHead(cmp: (Node, Node) -> int, x: Node, s: seq<Node>)
    ensures |InsertSorted(cmp, x, s)| > 0
    ensures InsertSorted(cmp, x, s)[0] == x || (|s| > 0 && InsertSorted(cmp, x, s)[0] == s[0])
  {
  }

  /** Inserting into a sorted sequence with a total comparator keeps it sorted. */
  lemma {:induction false} InsertSortedKeepsOrder(cmp: (Node, Node) -> int, x: Node, s: seq<Node>)
    requires Total(cmp) && Sorted(cmp, s)
    ensures Sorted(cmp, InsertSorted(cmp, x, s))
  {
    if |s| == 0 {
    } else if cmp(x, s[0]) <= 0 {
      SortedCons(cmp, x, s);
    } else {
      var rest := InsertSorted(cmp, x, s[1..]);
      SortedTail(cmp, s);
      InsertSortedKeepsOrder(cmp, x, s[1..]);
      InsertSortedHead(cmp, x, s[1..]);
      assert cmp(s[0], rest[0]) <= 0 by {
        if rest[0] == x {
          assert cmp(x, s[0]) <= 0 || cmp(s[0], x) <= 0;
        } else {
          assert rest[0] == s[1] && cmp(s[0], s[1]) <= 0;
        }
      }
      SortedCons(cmp, s[0], rest);
    }
  }

  /** `children.sort(cmp)` with a total comparator leaves the children in `cmp` order. */
  lemma {:induction false} SortSeqSorted(cmp: (Node, Node) -> int, s: seq<Node>)
    requires Total(cmp)
    ensures Sorted(cmp, SortSeq(cmp, s))
  {
    if |s| > 0 {
      SortSeqSorted(cmp, s[1..]);
      InsertSortedKeepsOrder(cmp, s[0], SortSeq(cmp, s[1..]));
    }
  }

  lemma {:induction false} SortEachAt(cmp: (Node, Node) -> int, parent: Node, s: seq<Node>, i: nat)
    requires ChildrenOf(parent, s)
    requires i < |s|
    ensures SortEach(cmp, parent, s)[i] == Sort(cmp, s[i])
  {
    if i > 0 {
      SortEachAt(cmp, parent, s[1..], i - 1);
    }
  }

  /** Replacing nodes by nodes with the same labels keeps a label-only comparator's order. */
  lemma RelabelKeepsOrder(cmp: (Node, Node) -> int, s: seq<Node>, t: seq<Node>)
    requires LabelOnlyCmp(cmp) && Sorted(cmp, s)
    requires |t| == |s| && forall i :: 0 <= i < |s| ==> Label(t[i]) == Label(s[i])
    ensures Sorted(cmp, t)
  {
    forall i | 0 <= i < |t| - 1 ensures cmp(t[i], t[i + 1]) <= 0 {
      assert cmp(t[i], t[i + 1]) == cmp(Label(t[i]), Label(t[i + 1]));
      assert cmp(s[i], s[i + 1]) == cmp(Label(s[i]), Label(s[i + 1]));
    }
  }

  /** After `sort(cmp)` with a total comparator that looks only at the nodes' own fields, every
      node's children are in `cmp` order, at every depth. */
  lemma {:induction false} SortOrdersEverywhere(cmp: (Node, Node) -> int, n: Node)
    requires Total(cmp) && LabelOnlyCmp(cmp)
    ensures SortedEverywhere(cmp, Sort(cmp, n))
    decreases n
  {
    var r := Sort(cmp, n);
    var sorted := SortSeq(cmp, n.children);
    SortSeqMembers(cmp, n, n.children);
    forall i | 0 <= i < |r.children|
      ensures r.children[i] == Sort(cmp, sorted[i]) && sorted[i] in n.children
    {
      SortEachAt(cmp, n, sorted, i);
    }
    assert Sorted(cmp, r.children) by {
      SortSeqSorted(cmp, n.children);
      forall i | 0 <= i < |r.children| ensures Label(r.children[i]) == Label(sorted[i]) {
        assert Sort(cmp, sorted[i]).(children := sorted[i].children) == sorted[i];
      }
      RelabelKeepsOrder(cmp, sorted, r.children);
    }
    forall i | 0 <= i < |r.children|
      ensures SortedEverywhere(cmp, r.children[i])
    {
      SortOrdersEverywhere(cmp, sorted[i]);
    }
  }

  lemma UpdateOverwrites<T>(s: seq<T>, k: nat, x: T, y: T)
    requires k < |s|
    ensures s[k := x][k := y] == s[k := y]
  {
  }

  lemma ConsRegroups<T>(h: T, a: seq<T>, x: T, b: seq<T>)
    ensures [h] + (a + [x] + b) == ([h] + a) + [x] + b
    ensures [h] + (a + b) == ([h] + a) + b
  {
  }

  /** Where `InsertSorted` puts the new element: between a prefix and the rest of `s`. */
  lemma {:induction false} InsertSortedSplits(cmp: (Node, Node) -> int, x: Node, s: seq<Node>)
    returns (a: seq<Node>, b: seq<Node>)
    ensures s == a + b && InsertSorted(cmp, x, s) == a + [x] + b
  {
    if |s| == 0 || cmp(x, s[0]) <= 0 {
      a, b := [], s;
      assert InsertSorted(cmp, x, s) == [x] + s;
      assert a + [x] + b == [x] + s;
    } else {
      var a', b' := InsertSortedSplits(cmp, x, s[1..]);
      a, b := [s[0]] + a', b';
      assert InsertSorted(cmp, x, s) == [s[0]] + (a' + [x] + b');
      assert s == [s[0]] + (a' + b');
      ConsRegroups(s[0], a', x, b');
    }
  }

  lemma {:induction false} SortEachAppend(cmp: (Node, Node) -> int, parent: Node, a: seq<Node>, b: seq<Node>)
    requires ChildrenOf(parent, a + b)
    ensures SortEach(cmp, parent, a + b) == SortEach(cmp, parent, a) + SortEach(cmp, parent, b)
  {
    if |a| == 0 {
      assert a + b == b;
    } else {
      assert (a + b)[0] == a[0];
      assert (a + b)[1..] == a[1..] + b;
      assert forall x :: x in a[1..] + b ==> x in a + b;
      SortEachAppend(cmp, parent, a[1..], b);
    }
  }

  lemma SortSeqMembers(cmp: (Node, Node) -> int, parent: Node, s: seq<Node>)
    requires ChildrenOf(parent, s)
    ensures ChildrenOf(parent, SortSeq(cmp, s))
  {
    assert forall x :: x in SortSeq(cmp, s) ==> x in multiset(s);
  }

  lemma SortEachInsert(cmp: (Node, Node) -> int, parent: Node, a: seq<Node>, x: Node, b: seq<Node>)
    requires ChildrenOf(parent, a + b) && x in parent.children
    ensures ChildrenOf(parent, a + [x] + b)
    ensures multiset(SortEach(cmp, parent, a + [x] + b)) ==
            multiset(SortEach(cmp, parent, a + b)) + multiset{Sort(cmp, x)}
  {
    assert ChildrenOf(parent, a) && ChildrenOf(parent, b) by {
      assert forall y :: y in a ==> y in a + b;
      assert forall y :: y in b ==> y in a + b;
    }
    assert ChildrenOf(parent, a + [x]);
    SortEachAppend(cmp, parent, a + [x], b);
    SortEachAppend(cmp, parent, a, [x]);
    SortEachAppend(cmp, parent, a, b);
    assert SortEach(cmp, parent, [x]) == [Sort(cmp, x)];
  }

  /** Sorting sub-trees after reordering the children is the same multiset as sorting them in the
      old order. */
  lemma {:induction false} SortEachOfSortSeq(cmp: (Node, Node) -> int, parent: Node, s: seq<Node>)
    requires ChildrenOf(parent, s)
    ensures ChildrenOf(parent, SortSeq(cmp, s))
    ensures multiset(SortEach(cmp, parent, SortSeq(cmp, s))) == multiset(SortEach(cmp, parent, s))
  {
    SortSeqMembers(cmp, parent, s);
    if |s| > 0 {
      var s0, rest := s[0], s[1..];
      assert ChildrenOf(parent, rest) by {
        assert forall x :: x in rest ==> x in s;
      }
      var t := SortSeq(cmp, rest);
      SortSeqMembers(cmp, parent, rest);
      SortEachOfSortSeq(cmp, parent, rest);
      var a, b := InsertSortedSplits(cmp, s0, t);
      SortEachInsert(cmp, parent, a, s0, b);
      assert SortEach(cmp, parent, s) == [Sort(cmp, s0)] + SortEach(cmp, parent, rest);
    }
  }

  /** `sort(cmp)` makes the receiver's children a permutation of its former children, each sorted
      at every depth below. */
  lemma SortPermutesChildren(cmp: (Node, Node) -> int, n: Node)
    ensures multiset(Sort(cmp, n).children) == multiset(SortEach(cmp, n, n.children))
  {
    SortEachOfSortSeq(cmp, n, n.children);
  }

  // ---- map -------------------------------------------------------------------------------------

  lemma {:induction false} MapEachAt(fn: Node -> Node, parent: Node, s: seq<Node>, i: nat)
    requires ChildrenOf(parent, s)
    requires i < |s|
    ensures MapEach(fn, parent, s)[i] == MapTree(fn, s[i])
  {
    if i > 0 {
      MapEachAt(fn, parent, s[1..], i - 1);
    }
  }

  /** `MapEach`, position by position. */
  lemma MapEachByPosition(fn: Node -> Node, parent: Node, s: seq<Node>, out: seq<Node>)
    requires ChildrenOf(parent, s) && |out| == |s|
    requires forall j :: 0 <= j < |s| ==> out[j] == MapTree(fn, s[j])
    ensures out == MapEach(fn, parent, s)
  {
    forall j | 0 <= j < |s| ensures out[j] == MapEach(fn, parent, s)[j] {
      MapEachAt(fn, parent, s, j);
    }
  }

  /** `map(fn)` applies `fn` to every node: with a callback that changes nothing, nothing changes. */
  lemma {:induction false} MapLeavesUntouched(fn: Node -> Node, n: Node)
    requires forall x :: Label(fn(x)) == Label(x)
    ensures MapTree(fn, n) == n
    decreases n
  {
    var r := MapTree(fn, n);
    assert Label(r) == Label(n);
    forall i | 0 <= i < |n.children|
      ensures r.children[i] == n.children[i]
    {
      MapEachAt(fn, n, n.children, i);
      MapLeavesUntouched(fn, n.children[i]);
    }
  }

  /** `map(fn)` relabels the receiver with `fn` and every child with the mapped child. */
  lemma MapRelabels(fn: Node -> Node, n: Node)
    ensures Label(MapTree(fn, n)) == Label(fn(n))
    ensures forall i :: 0 <= i < |n.children| ==> MapTree(fn, n).children[i] == MapTree(fn, n.children[i])
  {
    forall i | 0 <= i < |n.children| ensures MapTree(fn, n).children[i] == MapTree(fn, n.children[i]) {
      MapEachAt(fn, n, n.children, i);
    }
  }
}
