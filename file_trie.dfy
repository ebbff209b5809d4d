/** The path trie of src/util/fileTrie.ts, as values: a node is a `Node`, and each operation that the
    source performs in place on a `FileTrieNode` is a function from the old node to the new one. */
module FileTrie {
  import opened Wrappers
  import opened Strings

  /** `FileTrieData`: the document stored at a node. */
  datatype FileData = FileData(slug: string, title: string, filePath: string)

  /** `FileTrieNode`'s fields; `children` is owned by the node. An absent optional field is the
      source's `undefined`/`null`. */
  datatype Node = Node(
    segments: seq<string>,
    isFolder: bool,
    data: Option<FileData>,
    fileSegmentHint: Option<string>,
    displayNameOverride: Option<string>,
    children: seq<Node>)

  /** The one error `insert` and `makeChild` throw: "path is empty". */
  datatype TrieError = PathIsEmpty

  /** The state `insert` leaves behind, and whether it returned normally. A thrown error does not undo
      what `insert` had already done (the receiver marked as a folder, a child pushed, a hint set). */
  datatype Inserted = Inserted(node: Node, ok: bool)

  /** `new FileTrieNode(segments, data)` */
  function NewNode(segments: seq<string>, data: Option<FileData>): Node {
    Node(segments, false, data, None, None, [])
  }

  /** The getter `slugSegment`: the last segment, or "" for the root. */
  function SlugSegment(n: Node): (r: string)
    ensures |n.segments| > 0 ==> r == n.segments[|n.segments| - 1]
    ensures |n.segments| == 0 ==> r == ""
  {
    if |n.segments| == 0 then "" else n.segments[|n.segments| - 1]
  }

  /** The title unless there is no data or the title is exactly "index". */
  function NonIndexTitle(n: Node): Option<string> {
    if n.data.Some? && n.data.value.title != "index" then Some(n.data.value.title) else None
  }

  /** The getter `displayName`: override ?? non-index title ?? hint ?? slug segment. */
  function DisplayName(n: Node): string
  {
    n.displayNameOverride.GetOr(NonIndexTitle(n).GetOr(n.fileSegmentHint.GetOr(SlugSegment(n))))
  }

  /** The setter `displayName`. */
  function SetDisplayName(n: Node, name: string): (r: Node)
    ensures DisplayName(r) == name
    ensures r.(displayNameOverride := n.displayNameOverride) == n
  {
    n.(displayNameOverride := Some(name))
  }

  /** The getter `slug`: the joined segments, then "index" joined on for a folder. */
  function Slug(n: Node): string {
    var path := JoinSegments(n.segments);
    if n.isFolder then JoinSegments([path, "index"]) else path
  }

  /** `children.find((c) => c.slugSegment === segment)`, as the index of the first match, or
      `|cs|` when nothing matches. */
  function FindChild(cs: seq<Node>, segment: string): (k: nat)
    ensures k <= |cs|
    ensures k < |cs| ==> SlugSegment(cs[k]) == segment
    ensures forall j :: 0 <= j < k ==> SlugSegment(cs[j]) != segment
  {
    if |cs| == 0 then 0
    else if SlugSegment(cs[0]) == segment then 0
    else 1 + FindChild(cs[1..], segment)
  }

  /** `makeChild(path, file)`: push a new node for `path[0]` below `n`; the child is the last one. */
  function MakeChild(n: Node, path: seq<string>, file: Option<FileData>): (r: Result<Node, TrieError>)
    ensures r.Ok? <==> |path| > 0 && path[0] != ""
    ensures r.Ok? ==> r.value.(children := n.children) == n
    ensures r.Ok? ==> |r.value.children| == |n.children| + 1 && r.value.children[..|n.children|] == n.children
    ensures r.Ok? ==>
      var child := r.value.children[|n.children|];
      child.segments == n.segments + [path[0]] && child.data == file && child.children == [] &&
      !child.isFolder && child.fileSegmentHint.None? && child.displayNameOverride.None?
  {
    if |path| == 0 || path[0] == "" then Err(PathIsEmpty)
    else Ok(n.(children := n.children + [NewNode(n.segments + [path[0]], file)]))
  }

  /** The label hint for the child on the way: `filePath.split("/").at(-remaining)`, kept only when it
      exists and is non-empty. */
  function HintFor(file: FileData, remaining: nat): (r: Option<string>)
    requires remaining >= 1
    ensures r.Some? <==> remaining <= |Split(file.filePath)| && Split(file.filePath)[|Split(file.filePath)| - remaining] != ""
    ensures r.Some? ==> r.value == Split(file.filePath)[|Split(file.filePath)| - remaining]
  {
    var hint := AtFromEnd(Split(file.filePath), remaining);
    if hint.Some? && hint.value != "" then hint else None
  }

  /** The receiver's children with a data-less child for `segment` appended unless one already
      matches; the child to descend into sits at `FindChild(n.children, segment)`. */
  function ChildrenFor(n: Node, segment: string): (r: seq<Node>)
    requires segment != ""
    ensures FindChild(n.children, segment) < |n.children| ==> r == n.children
    ensures FindChild(n.children, segment) == |n.children| ==> r == n.children + [NewNode(n.segments + [segment], None)]
    ensures FindChild(n.children, segment) < |r|
    ensures FindChild(r, segment) == FindChild(n.children, segment)
  {
    var k := FindChild(n.children, segment);
    if k < |n.children| then n.children
    else
      var r := n.children + [NewNode(n.segments + [segment], None)];
      assert r[..k] == n.children;
      FindChildPrefix(n.children, r, segment);
      r
  }

  lemma {:induction false} FindChildPrefix(cs: seq<Node>, ds: seq<Node>, segment: string)
    requires FindChild(cs, segment) == |cs|
    requires |cs| < |ds| && ds[..|cs|] == cs && SlugSegment(ds[|cs|]) == segment
    ensures FindChild(ds, segment) == |cs|
  {
    if |cs| > 0 {
      assert ds[1..][..|cs| - 1] == cs[1..];
      FindChildPrefix(cs[1..], ds[1..], segment);
    }
  }

  /** The child `insert` descends into with two or more segments left, after its hint is set. */
  function StepChild(n: Node, path: seq<string>, file: FileData): (c: Node)
    requires |path| >= 2 && path[0] != ""
    ensures SlugSegment(c) == path[0]
  {
    var base := ChildrenFor(n, path[0]);
    var child := base[FindChild(n.children, path[0])];
    var hint := HintFor(file, |path|);
    if hint.Some? then child.(fileSegmentHint := hint) else child
  }

  /** `insert(path, file)`. */
  function Insert(n: Node, path: seq<string>, file: FileData): (r: Inserted)
    ensures r.node.segments == n.segments
    ensures r.node.fileSegmentHint == n.fileSegmentHint
    ensures r.node.displayNameOverride == n.displayNameOverride
    ensures |path| == 0 ==> r == Inserted(n, false)
    ensures |path| > 0 ==> r.node.isFolder
    ensures |path| > 0 && path[0] == "" ==> r == Inserted(n.(isFolder := true), false)
    decreases |path|
  {
    if |path| == 0 then Inserted(n, false)
    else
      var folder := n.(isFolder := true);
      var segment := path[0];
      if segment == "" then Inserted(folder, false)
      else if |path| == 1 then
        if segment == "index" then
          Inserted(folder.(data := if folder.data.None? then Some(file) else folder.data), true)
        else match MakeChild(folder, path, Some(file))
          case Ok(parent) => Inserted(parent, true)
          case Err(_) => Inserted(folder, false)
      else
        var base := ChildrenFor(folder, segment);
        var k := FindChild(folder.children, segment);
        var sub := Insert(StepChild(folder, path, file), path[1..], file);
        Inserted(folder.(children := base[k := sub.node]), sub.ok)
  }

  /** `add(file)`: insert at the slug's "/"-separated segments. */
  function Add(n: Node, file: FileData): Inserted {
    Insert(n, Split(file.slug), file)
  }

  /** A path that `findNode` and `ancestryChain` resolve to the receiver itself. */
  predicate IsSelfPath(path: seq<string>) {
    |path| == 0 || (|path| == 1 && path[0] == "index")
  }

  /** `findNode(path)` */
  function FindNode(n: Node, path: seq<string>): Option<Node>
    decreases |path|
  {
    if IsSelfPath(path) then Some(n)
    else
      var k := FindChild(n.children, path[0]);
      if k == |n.children| then None else FindNode(n.children[k], path[1..])
  }

  /** `ancestryChain(path)` */
  function AncestryChain(n: Node, path: seq<string>): (r: Option<seq<Node>>)
    ensures r.Some? ==> |r.value| >= 1 && r.value[0] == n
    decreases |path|
  {
    if IsSelfPath(path) then Some([n])
    else
      var k := FindChild(n.children, path[0]);
      if k == |n.children| then None
      else match AncestryChain(n.children[k], path[1..])
        case None => None
        case Some(chain) => Some([n] + chain)
  }

  /** Every node of `s` is a child of `parent`. */
  predicate ChildrenOf(parent: Node, s: seq<Node>) {
    forall x :: x in s ==> x in parent.children
  }

  /** `children.filter(f)`: the children for which `f` holds, in their order. */
  function Kept(f: Node -> bool, s: seq<Node>): (r: seq<Node>)
    ensures forall x :: x in r ==> x in s && f(x)
    ensures forall x :: x in s && f(x) ==> x in r
  {
    if |s| == 0 then []
    else if f(s[0]) then [s[0]] + Kept(f, s[1..])
    else Kept(f, s[1..])
  }

  /** `filter(f)`: keep the children `f` accepts, then filter each surviving child. The receiver
      itself is never tested. */
  function Filter(f: Node -> bool, n: Node): (r: Node)
    ensures r.(children := n.children) == n
    decreases n, 1
  {
    var kept := Kept(f, n.children);
    assert ChildrenOf(n, kept);
    n.(children := FilterEach(f, n, kept))
  }

  /** `forEach((child) => child.filter(f))` over children of `parent`. */
  function FilterEach(f: Node -> bool, ghost parent: Node, s: seq<Node>): (r: seq<Node>)
    requires ChildrenOf(parent, s)
    ensures |r| == |s|
    decreases parent, 0, |s|
  {
    if |s| == 0 then []
    else
      assert s[0] in parent.children;
      [Filter(f, s[0])] + FilterEach(f, parent, s[1..])
  }

  /** `map(fn)`: the callback sees the node first, then each child is mapped; the callback's changes
      to the node's own fields are kept, not changes to its children. */
  function MapTree(fn: Node -> Node, n: Node): (r: Node)
    ensures |r.children| == |n.children|
    decreases n, 1
  {
    fn(n).(children := MapEach(fn, n, n.children))
  }

  function MapEach(fn: Node -> Node, ghost parent: Node, s: seq<Node>): (r: seq<Node>)
    requires ChildrenOf(parent, s)
    ensures |r| == |s|
    decreases parent, 0, |s|
  {
    if |s| == 0 then []
    else
      assert s[0] in parent.children;
      [MapTree(fn, s[0])] + MapEach(fn, parent, s[1..])
  }

  /** `cmp` orders the nodes it compares: for any two, at least one may come first. */
  ghost predicate Total(cmp: (Node, Node) -> int) {
    forall a, b :: cmp(a, b) <= 0 || cmp(b, a) <= 0
  }

  /** Each node may stay before its successor. */
  predicate Sorted(cmp: (Node, Node) -> int, s: seq<Node>) {
    forall i :: 0 <= i < |s| - 1 ==> cmp(s[i], s[i + 1]) <= 0
  }

  /** Place `x` before the first element it may precede. */
  function InsertSorted(cmp: (Node, Node) -> int, x: Node, s: seq<Node>): (r: seq<Node>)
    ensures multiset(r) == multiset(s) + multiset{x}
  {
    if |s| == 0 then [x]
    else if cmp(x, s[0]) <= 0 then [x] + s
    else
      assert s == [s[0]] + s[1..];
      [s[0]] + InsertSorted(cmp, x, s[1..])
  }

  /** `children.sort(cmp)`: a stable insertion sort. */
  function SortSeq(cmp: (Node, Node) -> int, s: seq<Node>): (r: seq<Node>)
    ensures multiset(r) == multiset(s)
  {
    if |s| == 0 then []
    else
      assert s == [s[0]] + s[1..];
      InsertSorted(cmp, s[0], SortSeq(cmp, s[1..]))
  }

  /** `sort(cmp)`: sort the children, then sort each child's subtree. */
  function Sort(cmp: (Node, Node) -> int, n: Node): (r: Node)
    ensures r.(children := n.children) == n
    ensures |r.children| == |n.children|
    decreases n, 1
  {
    var sorted := SortSeq(cmp, n.children);
    assert forall x :: x in sorted ==> x in multiset(n.children);
    assert ChildrenOf(n, sorted);
    n.(children := SortEach(cmp, n, sorted))
  }

  function SortEach(cmp: (Node, Node) -> int, ghost parent: Node, s: seq<Node>): (r: seq<Node>)
    requires ChildrenOf(parent, s)
    ensures |r| == |s|
    decreases parent, 0, |s|
  {
    if |s| == 0 then []
    else
      assert s[0] in parent.children;
      [Sort(cmp, s[0])] + SortEach(cmp, parent, s[1..])
  }

  /** One entry of the document list given to `trieFromAllFiles`. */
  datatype Frontmatter = Frontmatter(title: Option<string>)
  datatype SourceFile = SourceFile(slug: Option<string>, filePath: Option<string>, frontmatter: Option<Frontmatter>)

  /** What the caller promises with `file.slug!` and `file.filePath!`. */
  predicate HasPaths(files: seq<SourceFile>) {
    forall i :: 0 <= i < |files| && files[i].frontmatter.Some? ==> files[i].slug.Some? && files[i].filePath.Some?
  }

  /** The record `trieFromAllFiles` adds for a file with frontmatter. */
  function ToFileData(file: SourceFile): (r: FileData)
    requires file.slug.Some? && file.filePath.Some? && file.frontmatter.Some?
    ensures r.slug == file.slug.value && r.filePath == file.filePath.value
    ensures file.frontmatter.value.title.Some? ==> r.title == file.frontmatter.value.title.value
    ensures file.frontmatter.value.title.None? ==> r.title == ""
  {
    FileData(file.slug.value, file.frontmatter.value.title.GetOr(""), file.filePath.value)
  }

  /** The `forEach` of `trieFromAllFiles` from `root`: add every file with frontmatter, in order; an
      error thrown by `add` ends the whole call. */
  function AddAll(root: Node, files: seq<SourceFile>): Result<Node, TrieError>
    requires HasPaths(files)
    decreases |files|
  {
    if |files| == 0 then Ok(root)
    else if files[0].frontmatter.None? then AddAll(root, files[1..])
    else
      var r := Add(root, ToFileData(files[0]));
      if r.ok then AddAll(r.node, files[1..]) else Err(PathIsEmpty)
  }

  /** `trieFromAllFiles(allFiles)` */
  function TrieFromAllFiles(files: seq<SourceFile>): Result<Node, TrieError>
    requires HasPaths(files)
  {
    AddAll(NewNode([], None), files)
  }
}
