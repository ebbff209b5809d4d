/** The crumb trail of src/components/Breadcrumbs.tsx: options, `formatCrumb`, and the component
    body from the ancestry chain to the list of crumbs (the markup is not modelled). The link helpers
    `resolveRelative` and `simplifySlug` belong to another module and are parameters here. */
module Breadcrumbs {
  import opened Wrappers
  import opened Strings
  import opened FileTrie
  import opened FileTrieLemmas
  import FileTrieNodes

  /** `CrumbData` */
  datatype Crumb = Crumb(displayName: string, path: string)

  /** `BreadcrumbOptions` */
  datatype BreadcrumbOptions = BreadcrumbOptions(
    spacerSymbol: string,
    rootName: string,
    resolveFrontmatterTitle: bool,
    showCurrentPage: bool)

  /** `Partial<BreadcrumbOptions>`: each field may be left out. */
  datatype PartialOptions = PartialOptions(
    spacerSymbol: Option<string>,
    rootName: Option<string>,
    resolveFrontmatterTitle: Option<bool>,
    showCurrentPage: Option<bool>)

  /** `defaultOptions` */
  const DefaultOptions := BreadcrumbOptions("\U{276F}", "Home", true, true)

  /** `{ ...defaultOptions, ...opts }`: a field given in `opts` wins over the default. */
  function MergeOptions(opts: Option<PartialOptions>): (r: BreadcrumbOptions)
    ensures opts.None? ==> r == DefaultOptions
    ensures r.rootName == (if opts.Some? && opts.value.rootName.Some? then opts.value.rootName.value else "Home")
    ensures r.showCurrentPage == (opts.None? || opts.value.showCurrentPage.None? || opts.value.showCurrentPage.value)
    ensures r.spacerSymbol == (if opts.Some? && opts.value.spacerSymbol.Some? then opts.value.spacerSymbol.value else "\U{276F}")
    ensures r.resolveFrontmatterTitle == (opts.None? || opts.value.resolveFrontmatterTitle.None? || opts.value.resolveFrontmatterTitle.value)
  {
    match opts
    case None => DefaultOptions
    case Some(o) =>
      BreadcrumbOptions(
        o.spacerSymbol.GetOr(DefaultOptions.spacerSymbol),
        o.rootName.GetOr(DefaultOptions.rootName),
        o.resolveFrontmatterTitle.GetOr(DefaultOptions.resolveFrontmatterTitle),
        o.showCurrentPage.GetOr(DefaultOptions.showCurrentPage))
  }

  /** `formatCrumb(displayName, baseSlug, currentSlug)`: hyphens become spaces, and the link is
      resolved relative to the current page. */
  function FormatCrumb(displayName: string, baseSlug: string, currentSlug: string,
                       resolve: (string, string) -> string): (r: Crumb)
    ensures |r.displayName| == |displayName|
    ensures forall i :: 0 <= i < |displayName| ==> r.displayName[i] != '-'
    ensures forall i :: 0 <= i < |displayName| && displayName[i] != '-' ==> r.displayName[i] == displayName[i]
    ensures r.path == resolve(baseSlug, currentSlug)
  {
    Crumb(HyphensToSpaces(displayName), resolve(baseSlug, currentSlug))
  }

  /** The crumb the component makes for position `i` of the chain: the root is relabelled with
      `rootName` as it is, every other node shows its display name with hyphens as spaces; the last
      crumb has no link, every other links to the node's simplified slug. */
  function CrumbAt(chain: seq<Node>, i: nat, slug: string, rootName: string,
                   resolve: (string, string) -> string, simplify: string -> string): Crumb
    requires i < |chain|
  {
    Crumb(
      if i == 0 then rootName else HyphensToSpaces(DisplayName(chain[i])),
      if i == |chain| - 1 then "" else resolve(slug, simplify(Slug(chain[i]))))
  }

  /** The crumbs for the whole chain, before the current page is dropped. */
  function Trail(chain: seq<Node>, slug: string, rootName: string,
                 resolve: (string, string) -> string, simplify: string -> string): (r: seq<Crumb>)
    ensures |r| == |chain|
    ensures forall i :: 0 <= i < |chain| ==> r[i] == CrumbAt(chain, i, slug, rootName, resolve, simplify)
  {
    seq(|chain|, i requires 0 <= i < |chain| => CrumbAt(chain, i, slug, rootName, resolve, simplify))
  }

  lemma TrailByPosition(list: seq<Crumb>, chain: seq<Node>, slug: string, rootName: string,
                        resolve: (string, string) -> string, simplify: string -> string)
    requires |list| == |chain|
    requires forall i :: 0 <= i < |chain| ==> list[i] == CrumbAt(chain, i, slug, rootName, resolve, simplify)
    ensures list == Trail(chain, slug, rootName, resolve, simplify)
  {
  }

  /** `crumbs.pop()`: drops the last element; an empty list stays empty. */
  function Pop(crumbs: seq<Crumb>): (r: seq<Crumb>)
    ensures |crumbs| > 0 ==> r + [crumbs[|crumbs| - 1]] == crumbs
    ensures |crumbs| == 0 ==> r == []
  {
    if |crumbs| == 0 then []
    else
      assert crumbs[..|crumbs| - 1] + [crumbs[|crumbs| - 1]] == crumbs;
      crumbs[..|crumbs| - 1]
  }

  /** What the component computes for the page `slug`: no crumbs at all when the chain is missing,
      otherwise the trail, without its last crumb unless `showCurrentPage`. */
  function ExpectedCrumbs(trie: Node, slug: string, options: BreadcrumbOptions,
                          resolve: (string, string) -> string, simplify: string -> string): Option<seq<Crumb>>
  {
    match AncestryChain(trie, Split(slug))
    case None => None
    case Some(chain) =>
      var trail := Trail(chain, slug, options.rootName, resolve, simplify);
      Some(if options.showCurrentPage then trail else Pop(trail))
  }

  /** The callback of `pathNodes.map`: format the node's crumb, then give the first the root's name
      and take the link off the last. */
  method MapCrumb(nodes: seq<Node>, idx: nat, slug: string, rootName: string,
                  resolve: (string, string) -> string, simplify: string -> string)
    returns (crumb: Crumb)
    requires idx < |nodes|
    ensures crumb == CrumbAt(nodes, idx, slug, rootName, resolve, simplify)
  {
    var node := nodes[idx];
    crumb := FormatCrumb(DisplayName(node), slug, simplify(Slug(node)), resolve);
    if idx == 0 {
      crumb := crumb.(displayName := rootName);
    }
    if idx == |nodes| - 1 {
      crumb := crumb.(path := "");
    }
  }

  /** `pathNodes.map(...)`: one crumb per node of the chain, in order. */
  method MapCrumbs(nodes: seq<Node>, slug: string, rootName: string,
                   resolve: (string, string) -> string, simplify: string -> string)
    returns (list: seq<Crumb>)
    ensures list == Trail(nodes, slug, rootName, resolve, simplify)
  {
    list := [];
    var idx := 0;
    while idx < |nodes|
      invariant 0 <= idx <= |nodes|
      invariant |list| == idx
      invariant forall i :: 0 <= i < idx ==> list[i] == CrumbAt(nodes, i, slug, rootName, resolve, simplify)
    {
      var crumb := MapCrumb(nodes, idx, slug, rootName, resolve, simplify);
      AppendCrumb(list, crumb, nodes, slug, rootName, resolve, simplify);
      list := list + [crumb];
      idx := idx + 1;
    }
    TrailByPosition(list, nodes, slug, rootName, resolve, simplify);
  }

  /** One step of `MapCrumbs`: appending the next position's crumb keeps the list crumb-by-crumb. */
  lemma AppendCrumb(list: seq<Crumb>, crumb: Crumb, nodes: seq<Node>, slug: string, rootName: string,
                    resolve: (string, string) -> string, simplify: string -> string)
    requires |list| < |nodes|
    requires forall i :: 0 <= i < |list| ==> list[i] == CrumbAt(nodes, i, slug, rootName, resolve, simplify)
    requires crumb == CrumbAt(nodes, |list|, slug, rootName, resolve, simplify)
    ensures forall i :: 0 <= i < |list| + 1 ==>
      (list + [crumb])[i] == CrumbAt(nodes, i, slug, rootName, resolve, simplify)
  {
  }

  /** The component body from `slug.split("/")` to the popped list: map the chain to crumbs, patch the
      first crumb's label and the last crumb's link, then drop the current page if configured. */
  method BuildCrumbs(trie: Node, slug: string, options: BreadcrumbOptions,
                     resolve: (string, string) -> string, simplify: string -> string)
    returns (crumbs: Option<seq<Crumb>>)
    ensures crumbs == ExpectedCrumbs(trie, slug, options, resolve, simplify)
  {
    var slugParts := Split(slug);
    var pathNodes := AncestryChain(trie, slugParts);
    if pathNodes.None? {
      return None;
    }
    var list := MapCrumbs(pathNodes.value, slug, options.rootName, resolve, simplify);
    if !options.showCurrentPage {
      list := Pop(list);
    }
    crumbs := Some(list);
  }

  /** The component for one page: merge the options, build the trie of `FileTrieNode` objects from
      every file (an error thrown while adding ends the render), and compute the crumbs from it. */
  method RenderCrumbs(opts: Option<PartialOptions>, allFiles: seq<SourceFile>, slug: string,
                      resolve: (string, string) -> string, simplify: string -> string)
    returns (r: Result<Option<seq<Crumb>>, TrieError>)
    requires HasPaths(allFiles)
    ensures TrieFromAllFiles(allFiles).Err? <==> r.Err?
    ensures r.Ok? ==> r.value == ExpectedCrumbs(TrieFromAllFiles(allFiles).value, slug, MergeOptions(opts), resolve, simplify)
  {
    var options := MergeOptions(opts);
    var trie := FileTrieNodes.TrieFromAllFiles(allFiles);
    if trie.Err? {
      return Err(trie.error);
    }
    var crumbs := BuildCrumbs(trie.value.Snapshot(), slug, options, resolve, simplify);
    r := Ok(crumbs);
  }

  /** A page that `findNode` cannot resolve gets no crumbs at all, never a partial list; one it
      resolves gets one crumb per chain node (one per segment, plus the root, less a final "index"),
      less the current page when it is not shown. */
  lemma CrumbsFollowLookup(trie: Node, slug: string, options: BreadcrumbOptions,
                           resolve: (string, string) -> string, simplify: string -> string)
    ensures ExpectedCrumbs(trie, slug, options, resolve, simplify).None? <==> FindNode(trie, Split(slug)).None?
    ensures ExpectedCrumbs(trie, slug, options, resolve, simplify).Some? ==>
      |ExpectedCrumbs(trie, slug, options, resolve, simplify).value| ==
        |WithoutIndex(Split(slug))| + (if options.showCurrentPage then 1 else 0)
  {
    ChainMatchesFind(trie, Split(slug));
  }

  /** The crumbs, position by position: the first is labelled `rootName` exactly (no hyphen
      replacement), every later one with its node's display name with each "-" as " "; the last
      crumb of the chain links nowhere (also when it is the first), every earlier one links to the
      node's simplified slug relative to the page. */
  lemma CrumbsByPosition(trie: Node, slug: string, options: BreadcrumbOptions,
                         resolve: (string, string) -> string, simplify: string -> string)
    requires AncestryChain(trie, Split(slug)).Some?
    ensures var chain := AncestryChain(trie, Split(slug)).value;
            var crumbs := ExpectedCrumbs(trie, slug, options, resolve, simplify).value;
            (|crumbs| > 0 ==> crumbs[0].displayName == options.rootName) &&
            (forall i :: 0 < i < |crumbs| ==>
               crumbs[i].displayName == HyphensToSpaces(DisplayName(chain[i])) &&
               '-' !in crumbs[i].displayName) &&
            (options.showCurrentPage ==> crumbs[|crumbs| - 1].path == "") &&
            (forall i :: 0 <= i < |crumbs| && i < |chain| - 1 ==>
               crumbs[i].path == resolve(slug, simplify(Slug(chain[i]))))
  {
    var chain := AncestryChain(trie, Split(slug)).value;
    var crumbs := ExpectedCrumbs(trie, slug, options, resolve, simplify).value;
    CrumbsAreTrailPrefix(trie, slug, options, resolve, simplify);
    forall i | 0 < i < |crumbs| ensures '-' !in crumbs[i].displayName {
      var name := HyphensToSpaces(DisplayName(chain[i]));
      assert crumbs[i].displayName == name;
      assert forall j :: 0 <= j < |name| ==> name[j] != '-';
    }
  }

  /** The crumbs are the chain's crumbs position by position, all of them or all but the last. */
  lemma CrumbsAreTrailPrefix(trie: Node, slug: string, options: BreadcrumbOptions,
                             resolve: (string, string) -> string, simplify: string -> string)
    requires AncestryChain(trie, Split(slug)).Some?
    ensures var chain := AncestryChain(trie, Split(slug)).value;
            var crumbs := ExpectedCrumbs(trie, slug, options, resolve, simplify).value;
            |crumbs| == (if options.showCurrentPage then |chain| else |chain| - 1) &&
            forall i :: 0 <= i < |crumbs| ==> crumbs[i] == CrumbAt(chain, i, slug, options.rootName, resolve, simplify)
  {
    var chain := AncestryChain(trie, Split(slug)).value;
    var trail := Trail(chain, slug, options.rootName, resolve, simplify);
    if !options.showCurrentPage {
      var popped := Pop(trail);
      assert popped + [trail[|trail| - 1]] == trail;
      forall i | 0 <= i < |popped| ensures popped[i] == trail[i] {
        assert (popped + [trail[|trail| - 1]])[i] == popped[i];
      }
    }
  }

  /** With `showCurrentPage` off the crumbs are those with it on, minus the last, and otherwise the
      same. */
  lemma HidingCurrentPageDropsLast(trie: Node, slug: string, options: BreadcrumbOptions,
                                   resolve: (string, string) -> string, simplify: string -> string)
    ensures var shown := ExpectedCrumbs(trie, slug, options.(showCurrentPage := true), resolve, simplify);
            var hidden := ExpectedCrumbs(trie, slug, options.(showCurrentPage := false), resolve, simplify);
            (shown.None? <==> hidden.None?) &&
            (shown.Some? ==> |shown.value| >= 1 && hidden.value == shown.value[..|shown.value| - 1])
  {
  }

  // ---- the documents "index", "guides/index" and "guides/setup" ---------------------------------

  const IndexDoc := FileData("index", "Welcome", "index.md")
  const GuidesDoc := FileData("guides/index", "How-to", "guides/index.md")
  const SetupDoc := FileData("guides/setup", "Set-up", "guides/setup.md")
  const IndexFile := SourceFile(Some("index"), Some("index.md"), Some(Frontmatter(Some("Welcome"))))
  const GuidesFile := SourceFile(Some("guides/index"), Some("guides/index.md"), Some(Frontmatter(Some("How-to"))))
  const SetupFile := SourceFile(Some("guides/setup"), Some("guides/setup.md"), Some(Frontmatter(Some("Set-up"))))
  const GuidesFiles := [IndexFile, GuidesFile, SetupFile]

  /** The trie after each of the three additions. */
  const Trie1 := Node([], true, Some(IndexDoc), None, None, [])
  const Guides2 := Node(["guides"], true, Some(GuidesDoc), Some("guides"), None, [])
  const Trie2 := Trie1.(children := [Guides2])
  const Setup3 := NewNode(["guides", "setup"], Some(SetupDoc))
  const Guides3 := Guides2.(children := [Setup3])
  const Trie3 := Trie2.(children := [Guides3])

  lemma SetupChain()
    ensures AncestryChain(Guides3, ["setup"]) == Some([Guides3, Setup3])
  {
    var q: seq<string> := ["setup"];
    assert !IsSelfPath(q);
    assert q[1..] == [];
    assert FindChild(Guides3.children, q[0]) == 0;
    assert AncestryChain(Guides3.children[0], q[1..]) == Some([Setup3]);
    assert [Guides3] + [Setup3] == [Guides3, Setup3];
  }

  lemma GuidesChain()
    ensures AncestryChain(Trie3, ["guides", "setup"]) == Some([Trie3, Guides3, Setup3])
  {
    var p: seq<string> := ["guides", "setup"];
    SetupChain();
    assert !IsSelfPath(p);
    assert p[1..] == ["setup"];
    assert FindChild(Trie3.children, p[0]) == 0;
    assert AncestryChain(Trie3.children[0], p[1..]) == Some([Guides3, Setup3]);
    assert [Trie3] + [Guides3, Setup3] == [Trie3, Guides3, Setup3];
  }

  lemma SplitGuidesSetup()
    ensures Split("guides/setup") == ["guides", "setup"]
  {
    SplitJoin(["guides", "setup"]);
    assert Join(["guides", "setup"]) == "guides/setup";
  }

  lemma GuidesSlugs()
    ensures Slug(Trie3) == "index" && Slug(Guides3) == "guides/index"
  {
    assert NonEmpty(["", "index"]) == ["index"];
    assert NonEmpty(["guides"]) == ["guides"];
    assert NonEmpty(["guides", "index"]) == ["guides", "index"];
  }

  lemma GuidesLabel()
    ensures HyphensToSpaces(DisplayName(Guides3)) == "How to"
  {
    assert DisplayName(Guides3) == "How-to";
  }

  lemma SetupLabel()
    ensures HyphensToSpaces(DisplayName(Setup3)) == "Set up"
  {
    assert DisplayName(Setup3) == "Set-up";
  }

  lemma SplitGuidesIndex()
    ensures Split("guides/index") == ["guides", "index"]
  {
    SplitJoin(["guides", "index"]);
    assert Join(["guides", "index"]) == "guides/index";
  }

  lemma SplitGuidesIndexFile()
    ensures Split("guides/index.md") == ["guides", "index.md"]
  {
    SplitJoin(["guides", "index.md"]);
    assert Join(["guides", "index.md"]) == "guides/index.md";
  }

  lemma SplitGuidesSetupFile()
    ensures Split("guides/setup.md") == ["guides", "setup.md"]
  {
    SplitJoin(["guides", "setup.md"]);
    assert Join(["guides", "setup.md"]) == "guides/setup.md";
  }

  lemma AddIndexDoc()
    ensures Add(NewNode([], None), IndexDoc) == Inserted(Trie1, true)
  {
    SplitNoSlash("index");
  }

  lemma GuidesHint()
    ensures HintFor(GuidesDoc, 2) == Some("guides")
  {
    SplitGuidesIndexFile();
  }

  lemma SetupHint()
    ensures HintFor(SetupDoc, 2) == Some("guides")
  {
    SplitGuidesSetupFile();
  }

  /** One step of `insert` with two or more segments left, for an arbitrary node. */
  lemma InsertDescends(n: Node, path: seq<string>, file: FileData, child: Node, sub: Inserted)
    requires |path| >= 2 && path[0] != ""
    requires child == StepChild(n.(isFolder := true), path, file)
    requires sub == Insert(child, path[1..], file)
    ensures Insert(n, path, file) ==
      Inserted(n.(isFolder := true, children := ChildrenFor(n, path[0])[FindChild(n.children, path[0]) := sub.node]), sub.ok)
  {
  }

  /** One step of `insert` with one non-"index" segment left, for an arbitrary node. */
  lemma InsertLeaf(n: Node, segment: string, file: FileData)
    requires segment != "" && segment != "index"
    ensures Insert(n, [segment], file) ==
      Inserted(n.(isFolder := true, children := n.children + [NewNode(n.segments + [segment], Some(file))]), true)
  {
  }

  lemma GuidesBase()
    ensures FindChild(Trie1.children, "guides") == 0
    ensures ChildrenFor(Trie1, "guides") == [NewNode(["guides"], None)]
  {
    assert [] + ["guides"] == ["guides"];
  }

  lemma GuidesStep()
    ensures StepChild(Trie1, ["guides", "index"], GuidesDoc) == Guides2.(isFolder := false, data := None)
  {
    GuidesHint();
    GuidesBase();
    var path: seq<string> := ["guides", "index"];
    assert path[0] == "guides" && |path| == 2;
  }

  lemma GuidesIndexed()
    ensures Insert(Guides2.(isFolder := false, data := None), ["index"], GuidesDoc) == Inserted(Guides2, true)
  {
  }

  lemma GuidesDescends()
    ensures Insert(Trie1, ["guides", "index"], GuidesDoc) ==
      Inserted(Trie1.(isFolder := true, children := ChildrenFor(Trie1, "guides")[FindChild(Trie1.children, "guides") := Guides2]), true)
  {
    var path: seq<string> := ["guides", "index"];
    var child := Guides2.(isFolder := false, data := None);
    assert path[0] == "guides" && path[1..] == ["index"];
    assert child == StepChild(Trie1.(isFolder := true), path, GuidesDoc) by {
      GuidesStep();
      assert Trie1.(isFolder := true) == Trie1;
    }
    assert Inserted(Guides2, true) == Insert(child, path[1..], GuidesDoc) by {
      GuidesIndexed();
    }
    InsertDescends(Trie1, path, GuidesDoc, child, Inserted(Guides2, true));
  }

  lemma InsertGuidesDoc()
    ensures Insert(Trie1, ["guides", "index"], GuidesDoc) == Inserted(Trie2, true)
  {
    GuidesDescends();
    assert ChildrenFor(Trie1, "guides")[FindChild(Trie1.children, "guides") := Guides2] == [Guides2] by {
      GuidesBase();
      assert [NewNode(["guides"], None)][0 := Guides2] == [Guides2];
    }
    assert Trie1.(isFolder := true, children := [Guides2]) == Trie2;
  }

  lemma AddGuidesDoc()
    ensures Add(Trie1, GuidesDoc) == Inserted(Trie2, true)
  {
    SplitGuidesIndex();
    InsertGuidesDoc();
  }

  lemma SetupBase()
    ensures FindChild(Trie2.children, "guides") == 0
    ensures ChildrenFor(Trie2, "guides") == [Guides2]
  {
    assert SlugSegment(Guides2) == "guides";
  }

  lemma SetupStep()
    ensures StepChild(Trie2, ["guides", "setup"], SetupDoc) == Guides2
  {
    SetupHint();
    SetupBase();
    var path: seq<string> := ["guides", "setup"];
    assert path[0] == "guides" && |path| == 2;
    assert Guides2.(fileSegmentHint := Some("guides")) == Guides2;
  }

  lemma SetupLeaf()
    ensures Insert(Guides2, ["setup"], SetupDoc) == Inserted(Guides3, true)
  {
    assert "setup"[0] != "index"[0];
    InsertLeaf(Guides2, "setup", SetupDoc);
    assert Guides2.(isFolder := true) == Guides2;
    assert ["guides"] + ["setup"] == ["guides", "setup"];
    assert [] + [Setup3] == [Setup3];
  }

  lemma SetupDescends()
    ensures Insert(Trie2, ["guides", "setup"], SetupDoc) ==
      Inserted(Trie2.(isFolder := true, children := ChildrenFor(Trie2, "guides")[FindChild(Trie2.children, "guides") := Guides3]), true)
  {
    var path: seq<string> := ["guides", "setup"];
    assert path[0] == "guides" && path[1..] == ["setup"];
    assert Guides2 == StepChild(Trie2.(isFolder := true), path, SetupDoc) by {
      SetupStep();
      assert Trie2.(isFolder := true) == Trie2;
    }
    assert Inserted(Guides3, true) == Insert(Guides2, path[1..], SetupDoc) by {
      SetupLeaf();
    }
    InsertDescends(Trie2, path, SetupDoc, Guides2, Inserted(Guides3, true));
  }

  lemma InsertSetupDoc()
    ensures Insert(Trie2, ["guides", "setup"], SetupDoc) == Inserted(Trie3, true)
  {
    SetupDescends();
    assert ChildrenFor(Trie2, "guides")[FindChild(Trie2.children, "guides") := Guides3] == [Guides3] by {
      SetupBase();
      assert [Guides2][0 := Guides3] == [Guides3];
    }
    assert Trie2.(isFolder := true, children := [Guides3]) == Trie3;
  }

  lemma AddSetupDoc()
    ensures Add(Trie2, SetupDoc) == Inserted(Trie3, true)
  {
    SplitGuidesSetup();
    InsertSetupDoc();
  }

  /** One step of the `forEach` of `trieFromAllFiles`, for arbitrary files: a document whose `add`
      succeeds is followed by the rest from the grown trie. */
  lemma AddAllStep(root: Node, files: seq<SourceFile>, doc: FileData, grown: Node)
    requires HasPaths(files) && |files| > 0 && files[0].frontmatter.Some?
    requires ToFileData(files[0]) == doc && Add(root, doc) == Inserted(grown, true)
    ensures HasPaths(files[1..]) && AddAll(root, files) == AddAll(grown, files[1..])
  {
  }

  /** `trieFromAllFiles` on the three documents builds `Trie3`. */
  lemma GuidesTrie()
    ensures HasPaths(GuidesFiles)
    ensures TrieFromAllFiles(GuidesFiles) == Ok(Trie3)
  {
    var files := GuidesFiles;
    assert HasPaths(files);
    assert ToFileData(files[0]) == IndexDoc;
    AddIndexDoc();
    AddAllStep(NewNode([], None), files, IndexDoc, Trie1);
    assert ToFileData(files[1]) == GuidesDoc;
    AddGuidesDoc();
    AddAllStep(Trie1, files[1..], GuidesDoc, Trie2);
    assert ToFileData(files[2]) == SetupDoc;
    AddSetupDoc();
    AddAllStep(Trie2, files[1..][1..], SetupDoc, Trie3);
    assert files[1..][1..][1..] == [];
  }

  /** The page "guides/setup" gets three crumbs: the root relabelled "Home", the folder labelled from
      its index document's title with hyphens as spaces, and the page itself, unlinked. */
  lemma GuidesScenario(resolve: (string, string) -> string, simplify: string -> string)
    ensures ExpectedCrumbs(Trie3, "guides/setup", DefaultOptions, resolve, simplify) ==
      Some([Crumb("Home", resolve("guides/setup", simplify("index"))),
            Crumb("How to", resolve("guides/setup", simplify("guides/index"))),
            Crumb("Set up", "")])
  {
    SplitGuidesSetup();
    GuidesChain();
    GuidesSlugs();
    GuidesLabel();
    SetupLabel();
    ThreeCrumbs(Trie3, "guides/setup", DefaultOptions, resolve, simplify, Trie3, Guides3, Setup3);
  }

  /** The crumbs of a three-node chain, with the current page shown. */
  lemma ThreeCrumbs(trie: Node, slug: string, options: BreadcrumbOptions,
                    resolve: (string, string) -> string, simplify: string -> string, a: Node, b: Node, c: Node)
    requires AncestryChain(trie, Split(slug)) == Some([a, b, c]) && options.showCurrentPage
    ensures ExpectedCrumbs(trie, slug, options, resolve, simplify) ==
      Some([Crumb(options.rootName, resolve(slug, simplify(Slug(a)))),
            Crumb(HyphensToSpaces(DisplayName(b)), resolve(slug, simplify(Slug(b)))),
            Crumb(HyphensToSpaces(DisplayName(c)), "")])
  {
    var chain := [a, b, c];
    var trail := Trail(chain, slug, options.rootName, resolve, simplify);
    assert trail[0] == CrumbAt(chain, 0, slug, options.rootName, resolve, simplify);
    assert trail[1] == CrumbAt(chain, 1, slug, options.rootName, resolve, simplify);
    assert trail[2] == CrumbAt(chain, 2, slug, options.rootName, resolve, simplify);
    assert trail == [trail[0], trail[1], trail[2]];
  }
}
