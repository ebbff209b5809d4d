/** What `insert`, `findNode` and `ancestryChain` of src/util/fileTrie.ts promise, proved about the
    value model. */
module FileTrieLemmas {
  import opened Wrappers
  import opened Strings
  import opened FileTrie

  /** Every child's segments are its parent's plus one non-empty segment, at every depth. */
  predicate WellFormed(n: Node) {
    forall i :: 0 <= i < |n.children| ==>
      SlugSegment(n.children[i]) != "" &&
      n.children[i].segments == n.segments + [SlugSegment(n.children[i])] &&
      WellFormed(n.children[i])
  }

  /** The getter `slugSegment` names the node by its last segment: the segments are the parent
      path followed by it; the root's is "". */
  lemma SlugSegmentIsLast(n: Node)
    ensures |n.segments| > 0 ==> n.segments == n.segments[..|n.segments| - 1] + [SlugSegment(n)]
    ensures |n.segments| == 0 ==> SlugSegment(n) == ""
  {
    if |n.segments| > 0 {
      assert n.segments == n.segments[..|n.segments| - 1] + [n.segments[|n.segments| - 1]];
    }
  }

  /** Replacing a child by one with the same last segment leaves `find` where it was. */
  lemma {:induction false} FindChildUpdate(cs: seq<Node>, segment: string, k: nat, x: Node)
    requires k < |cs| && FindChild(cs, segment) == k && SlugSegment(x) == SlugSegment(cs[k])
    ensures FindChild(cs[k := x], segment) == k
  {
    if k > 0 {
      assert cs[k := x][1..] == cs[1..][k - 1 := x];
      FindChildUpdate(cs[1..], segment, k - 1, x);
    }
  }

  /** Appending a child does not move a match found among the earlier children. */
  lemma {:induction false} FindChildAppend(cs: seq<Node>, segment: string, x: Node)
    requires FindChild(cs, segment) < |cs|
    ensures FindChild(cs + [x], segment) == FindChild(cs, segment)
  {
    if SlugSegment(cs[0]) != segment {
      assert (cs + [x])[1..] == cs[1..] + [x];
      FindChildAppend(cs[1..], segment, x);
    }
  }

  /** One step of `insert`, by how many segments are left. */
  lemma InsertSteps(n: Node, path: seq<string>, file: FileData)
    ensures var r := Insert(n, path, file);
      // With one segment left: "index" fills the receiver's data if it has none, and only that.
      (|path| == 1 && path[0] == "index" ==>
        r.ok && r.node.children == n.children && r.node.data == Some(n.data.GetOr(file))) &&
      // With one segment left, any other non-empty segment appends exactly one new leaf.
      (|path| == 1 && path[0] != "index" && path[0] != "" ==>
        r.ok && r.node.data == n.data &&
        r.node.children == n.children + [NewNode(n.segments + [path[0]], Some(file))]) &&
      // With more segments left, the first child matching `path[0]` (or a new one) is descended
      // into, after its hint is updated; no other child changes.
      (|path| >= 2 && path[0] != "" ==>
        var base := ChildrenFor(n, path[0]);
        var k := FindChild(n.children, path[0]);
        r.node.data == n.data &&
        |r.node.children| == |base| &&
        (forall j :: 0 <= j < |base| && j != k ==> r.node.children[j] == base[j]) &&
        r.node.children[k].segments == base[k].segments &&
        r.node.children[k].fileSegmentHint ==
          (if HintFor(file, |path|).Some? then HintFor(file, |path|) else base[k].fileSegmentHint) &&
        r.node.children[k] == Insert(StepChild(n.(isFolder := true), path, file), path[1..], file).node &&
        r.ok == Insert(StepChild(n.(isFolder := true), path, file), path[1..], file).ok)
  {
  }

  /** `insert` returns normally exactly when the path is non-empty and no segment of it is "". */
  lemma {:induction false} InsertOkIff(n: Node, path: seq<string>, file: FileData)
    ensures Insert(n, path, file).ok <==> |path| > 0 && forall i :: 0 <= i < |path| ==> path[i] != ""
    decreases |path|
  {
    if |path| >= 2 && path[0] != "" {
      var rest := path[1..];
      InsertOkIff(StepChild(n.(isFolder := true), path, file), rest, file);
      assert forall i :: 1 <= i < |path| ==> path[i] == rest[i - 1];
    }
  }

  /** The child `insert` stores back at position `k` keeps `find` pointing at it. */
  lemma StepFindsChild(n: Node, path: seq<string>, file: FileData)
    requires |path| >= 2 && path[0] != ""
    ensures var r := Insert(n, path, file).node;
            var k := FindChild(n.children, path[0]);
            FindChild(r.children, path[0]) == k && k < |r.children| &&
            r.children[k] == Insert(StepChild(n.(isFolder := true), path, file), path[1..], file).node
  {
    var folder := n.(isFolder := true);
    var base := ChildrenFor(folder, path[0]);
    var k := FindChild(folder.children, path[0]);
    var sub := Insert(StepChild(folder, path, file), path[1..], file);
    FindChildUpdate(base, path[0], k, sub.node);
  }

  /** The node reached by following `find` on every segment of `path` (the way `insert` descends),
      with no special case for "index". */
  function Walk(n: Node, path: seq<string>): Option<Node>
    decreases |path|
  {
    if |path| == 0 then Some(n)
    else
      var k := FindChild(n.children, path[0]);
      if k == |n.children| then None else Walk(n.children[k], path[1..])
  }

  /** Every node `insert` passes through, from the receiver down to the parent of the final
      position, is a folder afterwards; a segment "index" before the last one is a child like any
      other. */
  lemma {:induction false} InsertMarksFolders(n: Node, path: seq<string>, file: FileData)
    requires Insert(n, path, file).ok
    ensures forall i :: 0 <= i < |path| ==>
      Walk(Insert(n, path, file).node, path[..i]).Some? &&
      Walk(Insert(n, path, file).node, path[..i]).value.isFolder
    decreases |path|
  {
    var r := Insert(n, path, file).node;
    forall i | 0 <= i < |path|
      ensures Walk(r, path[..i]).Some? && Walk(r, path[..i]).value.isFolder
    {
      if i > 0 {
        assert |path| >= 2 && path[0] != "";
        StepFindsChild(n, path, file);
        var child := StepChild(n.(isFolder := true), path, file);
        InsertMarksFolders(child, path[1..], file);
        assert path[..i][1..] == path[1..][..i - 1];
      }
    }
  }

  /** The slug "a/index/b": `insert` passes through a child named "index" and marks it as a folder,
      although `findNode(["a", "index"])` resolves to "a" itself. */
  lemma IndexSegmentIsAFolder(file: FileData)
    ensures var r := Insert(NewNode([], None), ["a", "index", "b"], file);
            var a := Walk(r.node, ["a"]);
            var mid := Walk(r.node, ["a", "index"]);
            r.ok && a.Some? && mid.Some? && mid.value.isFolder && SlugSegment(mid.value) == "index" &&
            FindNode(r.node, ["a", "index"]) == a
  {
    InsertOkIff(NewNode([], None), ["a", "index", "b"], file);
    InsertMarksFolders(NewNode([], None), ["a", "index", "b"], file);
    assert ["a", "index", "b"][..1] == ["a"];
    assert ["a", "index", "b"][..2] == ["a", "index"];
  }

  /** The data `findNode(path)` sees after a successful `insert(path, file)`: the file, when nothing
      was at `path` before; otherwise what was there, except that an "index" insertion fills data
      that was missing (the first insertion wins). */
  function ExpectedData(before: Option<Node>, path: seq<string>, file: FileData): Option<FileData>
    requires |path| > 0
  {
    match before
    case None => Some(file)
    case Some(o) => if path[|path| - 1] == "index" then Some(o.data.GetOr(file)) else o.data
  }

  lemma FindNodeHint(c: Node, h: Option<string>, path: seq<string>)
    ensures FindNode(c.(fileSegmentHint := h), path) ==
      if IsSelfPath(path) then Some(c.(fileSegmentHint := h)) else FindNode(c, path)
  {
  }

  /** The last segment of a path: `insert` puts the file at it, or fills the receiver. */
  lemma LeafThenFind(n: Node, path: seq<string>, file: FileData)
    requires |path| == 1 && path[0] != ""
    ensures FindNode(Insert(n, path, file).node, path).Some?
    ensures FindNode(Insert(n, path, file).node, path).value.data == ExpectedData(FindNode(n, path), path, file)
  {
    var seg := path[0];
    var k := FindChild(n.children, seg);
    if seg != "index" {
      var leaf := NewNode(n.segments + [seg], Some(file));
      if k < |n.children| {
        FindChildAppend(n.children, seg, leaf);
      } else {
        FindChildPrefix(n.children, n.children + [leaf], seg);
      }
    }
  }

  /** With two or more segments left, what `findNode` sees below the child `insert` descends into
      is what it sees below the receiver. */
  lemma DescendThenFind(n: Node, path: seq<string>, file: FileData)
    requires |path| >= 2 && path[0] != ""
    requires var child := StepChild(n.(isFolder := true), path, file);
      var found := FindNode(Insert(child, path[1..], file).node, path[1..]);
      found.Some? && found.value.data == ExpectedData(FindNode(child, path[1..]), path[1..], file)
    ensures FindNode(Insert(n, path, file).node, path).Some?
    ensures FindNode(Insert(n, path, file).node, path).value.data == ExpectedData(FindNode(n, path), path, file)
  {
    var seg := path[0];
    var k := FindChild(n.children, seg);
    var folder := n.(isFolder := true);
    var child := StepChild(folder, path, file);
    var sub := Insert(child, path[1..], file).node;
    StepFindsChild(n, path, file);
    assert FindNode(Insert(n, path, file).node, path) == FindNode(sub, path[1..]);
    assert path[1..][|path[1..]| - 1] == path[|path| - 1];
    if k < |n.children| {
      FindNodeHint(n.children[k], child.fileSegmentHint, path[1..]);
      assert child == n.children[k].(fileSegmentHint := child.fileSegmentHint);
      assert FindNode(n, path) == FindNode(n.children[k], path[1..]);
    } else {
      assert FindNode(n, path) == None;
      assert child.children == [];
    }
  }

  lemma {:induction false} InsertThenFind(n: Node, path: seq<string>, file: FileData)
    requires Insert(n, path, file).ok
    ensures FindNode(Insert(n, path, file).node, path).Some?
    ensures FindNode(Insert(n, path, file).node, path).value.data == ExpectedData(FindNode(n, path), path, file)
    decreases |path|
  {
    InsertOkIff(n, path, file);
    assert path[0] != "";
    if |path| == 1 {
      LeafThenFind(n, path, file);
    } else {
      var child := StepChild(n.(isFolder := true), path, file);
      assert Insert(child, path[1..], file).ok by {
        InsertOkIff(child, path[1..], file);
        assert forall i :: 0 <= i < |path[1..]| ==> path[1..][i] == path[i + 1];
      }
      InsertThenFind(child, path[1..], file);
      DescendThenFind(n, path, file);
    }
  }

  /** `insert` keeps every node's segments one longer than its parent's. */
  lemma {:induction false} InsertWellFormed(n: Node, path: seq<string>, file: FileData)
    requires WellFormed(n)
    ensures WellFormed(Insert(n, path, file).node)
    decreases |path|
  {
    if |path| >= 2 && path[0] != "" {
      var folder := n.(isFolder := true);
      var base := ChildrenFor(folder, path[0]);
      var k := FindChild(folder.children, path[0]);
      var child := StepChild(folder, path, file);
      assert WellFormed(base[k]);
      assert WellFormed(child);
      InsertWellFormed(child, path[1..], file);
      var r := Insert(n, path, file).node;
      assert forall i :: 0 <= i < |r.children| && i != k ==> r.children[i] == base[i];
    } else if |path| == 1 && path[0] != "" && path[0] != "index" {
      MakeChildWellFormed(n.(isFolder := true), path, Some(file));
    }
  }

  /** `makeChild` appends a child one segment below its parent, keeping the trie well formed. */
  lemma MakeChildWellFormed(n: Node, path: seq<string>, file: Option<FileData>)
    requires WellFormed(n) && |path| > 0 && path[0] != ""
    ensures WellFormed(MakeChild(n, path, file).value)
  {
    var r := MakeChild(n, path, file).value;
    var c := r.children[|n.children|];
    assert SlugSegment(c) == path[0];
    assert WellFormed(c);
    forall i | 0 <= i < |r.children|
      ensures SlugSegment(r.children[i]) != "" &&
              r.children[i].segments == r.segments + [SlugSegment(r.children[i])] &&
              WellFormed(r.children[i])
    {
      if i < |n.children| {
        assert r.children[i] == n.children[i];
      }
    }
  }

  /** `path` without a final "index": the position `findNode` resolves it to. */
  function WithoutIndex(path: seq<string>): seq<string> {
    if |path| > 0 && path[|path| - 1] == "index" then path[..|path| - 1] else path
  }

  /** In a well-formed trie the node `findNode(path)` returns sits at the queried position. */
  lemma {:induction false} FindNodeSegments(n: Node, path: seq<string>)
    requires WellFormed(n) && FindNode(n, path).Some?
    ensures FindNode(n, path).value.segments == n.segments + WithoutIndex(path)
    decreases |path|
  {
    if !IsSelfPath(path) {
      var k := FindChild(n.children, path[0]);
      var c := n.children[k];
      assert FindNode(n, path) == FindNode(c, path[1..]);
      assert c.segments == n.segments + [path[0]];
      FindNodeSegments(c, path[1..]);
      WithoutIndexCons(path);
      AppendRegroups(n.segments, path[0], WithoutIndex(path[1..]));
    }
  }

  /** Outside a self path, `WithoutIndex` keeps the first segment. */
  lemma WithoutIndexCons(path: seq<string>)
    requires !IsSelfPath(path)
    ensures WithoutIndex(path) == [path[0]] + WithoutIndex(path[1..])
  {
    if |path| == 1 {
      assert path == [path[0]] && path[1..] == [];
    }
  }

  lemma AppendRegroups<T>(a: seq<T>, x: T, b: seq<T>)
    ensures a + [x] + b == a + ([x] + b)
  {
  }

  /** `ancestryChain` is defined exactly where `findNode` is, and ends at the node it finds. */
  lemma {:induction false} ChainEndsAtFind(n: Node, path: seq<string>)
    ensures AncestryChain(n, path).Some? <==> FindNode(n, path).Some?
    ensures AncestryChain(n, path).Some? ==>
      var c := AncestryChain(n, path).value;
      c[|c| - 1] == FindNode(n, path).value
    decreases |path|
  {
    if !IsSelfPath(path) {
      var k := FindChild(n.children, path[0]);
      if k < |n.children| {
        ChainEndsAtFind(n.children[k], path[1..]);
      }
    }
  }

  /** `ancestryChain` runs through parent-child links, one node per segment plus the receiver,
      except that a final "index" adds none. */
  lemma {:induction false} ChainLinks(n: Node, path: seq<string>)
    requires AncestryChain(n, path).Some?
    ensures var c := AncestryChain(n, path).value;
      (forall i :: 0 <= i < |c| - 1 ==> c[i + 1] in c[i].children) &&
      |c| == |WithoutIndex(path)| + 1
    decreases |path|
  {
    if !IsSelfPath(path) {
      var k := FindChild(n.children, path[0]);
      var c := AncestryChain(n, path).value;
      var tail := AncestryChain(n.children[k], path[1..]).value;
      ChainLinks(n.children[k], path[1..]);
      assert c == [n] + tail;
      assert tail[0] == n.children[k];
      assert forall i :: 1 <= i < |c| ==> c[i] == tail[i - 1];
      WithoutIndexCons(path);
    }
  }

  /** `ancestryChain` and `findNode` agree: one is defined exactly when the other is, the chain runs
      from the receiver to the found node through parent-child links, and it has one node per segment
      plus the receiver, except that a final "index" adds none. */
  lemma ChainMatchesFind(n: Node, path: seq<string>)
    ensures AncestryChain(n, path).Some? <==> FindNode(n, path).Some?
    ensures IsSelfPath(path) ==> AncestryChain(n, path) == Some([n]) && FindNode(n, path) == Some(n)
    ensures AncestryChain(n, path).Some? ==>
      var c := AncestryChain(n, path).value;
      c[0] == n && c[|c| - 1] == FindNode(n, path).value &&
      (forall i :: 0 <= i < |c| - 1 ==> c[i + 1] in c[i].children) &&
      |c| == |WithoutIndex(path)| + 1
  {
    ChainEndsAtFind(n, path);
    if AncestryChain(n, path).Some? {
      ChainLinks(n, path);
    }
  }

  /** The getter `slug` of a node whose segments are all non-empty (as `makeChild` ensures): the
      segments joined by "/", with "index" joined on exactly for a folder. */
  lemma SlugJoinsSegments(n: Node)
    requires forall i :: 0 <= i < |n.segments| ==> n.segments[i] != ""
    ensures Slug(n) == Join(n.segments + (if n.isFolder then ["index"] else []))
  {
    NonEmptyKeepsNonEmpty(n.segments);
    var path := JoinSegments(n.segments);
    assert path == Join(n.segments);
    if !n.isFolder {
      assert n.segments + [] == n.segments;
    } else if |n.segments| == 0 {
      assert NonEmpty([path, "index"]) == ["index"];
      assert n.segments + ["index"] == ["index"];
    } else {
      JoinAppend(n.segments, "index");
      JoinEmpty(n.segments);
      assert NonEmpty(["index"]) == ["index"];
      assert NonEmpty([path, "index"]) == [path, "index"];
      assert [path, "index"][1..] == ["index"];
      assert Join([path, "index"]) == path + "/" + "index";
    }
  }

  /** The layered fallback of the getter `displayName`: the override, else the title unless the
      data is missing or the title is exactly "index" (an empty title is returned as it is), else
      the hint, else the last segment, "" for the root. */
  lemma DisplayNameFallback(n: Node)
    ensures n.displayNameOverride.Some? ==> DisplayName(n) == n.displayNameOverride.value
    ensures n.displayNameOverride.None? && n.data.Some? && n.data.value.title != "index" ==>
      DisplayName(n) == n.data.value.title
    ensures (n.displayNameOverride.None? && (n.data.None? || n.data.value.title == "index") &&
             n.fileSegmentHint.Some?) ==> DisplayName(n) == n.fileSegmentHint.value
    ensures (n.displayNameOverride.None? && (n.data.None? || n.data.value.title == "index") &&
             n.fileSegmentHint.None?) ==> DisplayName(n) == (if |n.segments| == 0 then "" else n.segments[|n.segments| - 1])
  {
  }

  /** A later non-"index" insertion at an existing leaf position appends a second child with the
      same segment, which `findNode` never reaches: the first one shadows it. */
  lemma DuplicateLeafIsShadowed(first: FileData, second: FileData)
    ensures var once := Insert(NewNode([], None), ["a"], first).node;
            var twice := Insert(once, ["a"], second).node;
            |twice.children| == 2 &&
            SlugSegment(twice.children[0]) == "a" && SlugSegment(twice.children[1]) == "a" &&
            twice.children[1].data == Some(second) &&
            FindNode(twice, ["a"]) == Some(twice.children[0]) &&
            FindNode(twice, ["a"]).value.data == Some(first)
  {
  }

  // ---- trieFromAllFiles -------------------------------------------------------------------------

  /** The entries `trieFromAllFiles` adds: those with frontmatter, in list order. */
  function Documents(files: seq<SourceFile>): (r: seq<SourceFile>)
    ensures forall i :: 0 <= i < |r| ==> r[i].frontmatter.Some?
    ensures forall x :: x in r ==> x in files
  {
    if |files| == 0 then []
    else if files[0].frontmatter.Some? then [files[0]] + Documents(files[1..])
    else Documents(files[1..])
  }

  /** One file of the `forEach` of `trieFromAllFiles`. */
  lemma AddAllUnfold(root: Node, files: seq<SourceFile>)
    requires HasPaths(files) && |files| > 0
    ensures HasPaths(files[1..])
    ensures files[0].frontmatter.None? ==> AddAll(root, files) == AddAll(root, files[1..])
    ensures files[0].frontmatter.Some? ==>
      var added := Add(root, ToFileData(files[0]));
      AddAll(root, files) == if added.ok then AddAll(added.node, files[1..]) else Err(PathIsEmpty)
  {
    assert forall i :: 0 <= i < |files[1..]| ==> files[1..][i] == files[i + 1];
  }

  /** Adding a list is adding its first part, then the rest to the result (in list order); an
      error in the first part ends it. */
  lemma {:induction false} AddAllInOrder(root: Node, a: seq<SourceFile>, b: seq<SourceFile>)
    requires HasPaths(a + b)
    ensures HasPaths(a) && HasPaths(b)
    ensures AddAll(root, a + b) == match AddAll(root, a) case Ok(t) => AddAll(t, b) case Err(e) => Err(e)
    decreases |a|
  {
    assert forall i :: 0 <= i < |a| ==> (a + b)[i] == a[i];
    assert forall i :: 0 <= i < |b| ==> (a + b)[|a| + i] == b[i];
    if |a| == 0 {
      assert a + b == b;
    } else {
      assert (a + b)[1..] == a[1..] + b;
      assert (a + b)[0] == a[0];
      if a[0].frontmatter.None? {
        AddAllInOrder(root, a[1..], b);
      } else {
        var r := Add(root, ToFileData(a[0]));
        if r.ok {
          AddAllInOrder(r.node, a[1..], b);
        }
      }
    }
  }

  /** Entries without frontmatter are skipped: only the documents matter. */
  lemma {:induction false} AddAllSkipsNonDocuments(root: Node, files: seq<SourceFile>)
    requires HasPaths(files)
    ensures HasPaths(Documents(files))
    ensures AddAll(root, files) == AddAll(root, Documents(files))
    decreases |files|
  {
    if |files| > 0 {
      AddAllSkipsNonDocuments(root, files[1..]);
      if files[0].frontmatter.Some? {
        var r := Add(root, ToFileData(files[0]));
        AddAllSkipsNonDocuments(r.node, files[1..]);
        assert ([files[0]] + Documents(files[1..]))[1..] == Documents(files[1..]);
      }
    }
  }

  /** A slug `add` accepts: every segment of its "/"-split is non-empty. */
  predicate AcceptedSlug(slug: string) {
    forall i :: 0 <= i < |Split(slug)| ==> Split(slug)[i] != ""
  }

  /** Building from `root` fails exactly when some document's slug has an empty segment; otherwise
      the result keeps the root's position, is well formed when the root is, and is a folder exactly
      when the root was or some document was added. */
  lemma {:induction false} AddAllOutcome(root: Node, files: seq<SourceFile>)
    requires HasPaths(files)
    ensures AddAll(root, files).Err? <==>
      exists i :: 0 <= i < |files| && files[i].frontmatter.Some? && !AcceptedSlug(files[i].slug.value)
    ensures WellFormed(root) && AddAll(root, files).Ok? ==>
      var t := AddAll(root, files).value;
      WellFormed(t) && t.segments == root.segments &&
      (t.isFolder <==> root.isFolder || exists i :: 0 <= i < |files| && files[i].frontmatter.Some?)
    decreases |files|
  {
    if |files| > 0 {
      assert forall i :: 1 <= i < |files| ==> files[1..][i - 1] == files[i];
      if files[0].frontmatter.None? {
        AddAllOutcome(root, files[1..]);
      } else {
        var data := ToFileData(files[0]);
        var r := Add(root, data);
        InsertOkIff(root, Split(data.slug), data);
        AddAllOutcome(r.node, files[1..]);
        if WellFormed(root) {
          InsertWellFormed(root, Split(data.slug), data);
        }
      }
    }
  }

  /** `trieFromAllFiles` fails exactly when a document's slug has an empty segment; otherwise it
      returns a well-formed root with empty segments, which is a folder exactly when some entry has
      frontmatter. */
  lemma TrieFromAllFilesOutcome(files: seq<SourceFile>)
    requires HasPaths(files)
    ensures TrieFromAllFiles(files).Err? <==>
      exists i :: 0 <= i < |files| && files[i].frontmatter.Some? && !AcceptedSlug(files[i].slug.value)
    ensures TrieFromAllFiles(files).Ok? ==>
      var t := TrieFromAllFiles(files).value;
      WellFormed(t) && t.segments == [] &&
      t.displayNameOverride.None? && t.fileSegmentHint.None? &&
      (t.isFolder <==> exists i :: 0 <= i < |files| && files[i].frontmatter.Some?)
  {
    AddAllOutcome(NewNode([], None), files);
    RootKeepsFields(NewNode([], None), files);
  }

  /** Adding never sets the receiver's override or hint (only children get hints). */
  lemma {:induction false} RootKeepsFields(root: Node, files: seq<SourceFile>)
    requires HasPaths(files)
    ensures AddAll(root, files).Ok? ==>
      AddAll(root, files).value.displayNameOverride == root.displayNameOverride &&
      AddAll(root, files).value.fileSegmentHint == root.fileSegmentHint
    decreases |files|
  {
    if |files| > 0 {
      if files[0].frontmatter.None? {
        RootKeepsFields(root, files[1..]);
      } else {
        RootKeepsFields(Add(root, ToFileData(files[0])).node, files[1..]);
      }
    }
  }
}
