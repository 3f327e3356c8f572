/** `modularize(pomPath, newModuleName)` in `devScripts/remavenizer.py`: a Maven
    project becomes a `pom` project whose content moves into a new module.

    The file system is outside the model: the directory listing is a parameter, the
    tree copies and the written documents are returned as values, and the original
    POM is given as an already parsed document element. */
module Remavenizer {
  import opened Wrappers
  import opened Dom
  import opened PomKeys
  import opened PomMerge
  import opened PomDocument

  /** `shutil.copytree(source, target)`. */
  datatype Copy = Copy(source: string, target: string)

  /** `writeOut` of `document` to `path`. */
  datatype Written = Written(path: string, document: Node)

  /** What `modularize` did: the trees copied, the documents written, in order, and
      the error that stopped it. */
  datatype Modularized = Modularized(copies: seq<Copy>, written: seq<Written>, error: Option<PomError>)

  // ---------------------------------------------------------------------------
  // Copying the module content
  // ---------------------------------------------------------------------------

  /** The test on each directory entry. */
  function KeepEntry(newModuleName: string): string -> bool {
    f => f != "pom.xml" && f != newModuleName
  }

  function CopyOf(pomPath: string, newModuleName: string, f: string): Copy {
    Copy(pomPath + "/" + f, pomPath + "/" + newModuleName + "/" + f)
  }

  function CopiesOf(pomPath: string, newModuleName: string, entries: seq<string>): (r: seq<Copy>)
    ensures |r| == |entries|
    ensures forall i :: 0 <= i < |entries| ==> r[i] == CopyOf(pomPath, newModuleName, entries[i])
  {
    if entries == [] then []
    else [CopyOf(pomPath, newModuleName, entries[0])] + CopiesOf(pomPath, newModuleName, entries[1..])
  }

  /** The copy loop over the directory listing. */
  method CopyEntries(pomPath: string, newModuleName: string, listing: seq<string>) returns (copies: seq<Copy>)
    ensures copies == CopiesOf(pomPath, newModuleName, Filter(listing, KeepEntry(newModuleName)))
  {
    copies := [];
    var i := 0;
    while i < |listing|
      invariant 0 <= i <= |listing|
      invariant copies == CopiesOf(pomPath, newModuleName, Filter(listing[..i], KeepEntry(newModuleName)))
    {
      var f := listing[i];
      CopyStep(pomPath, newModuleName, listing, i);
      if f != "pom.xml" && f != newModuleName {
        copies := copies + [CopyOf(pomPath, newModuleName, f)];
      }
      i := i + 1;
    }
    assert listing[..i] == listing;
  }

  /** One pass of the copy loop: the entry is copied exactly when it is kept. */
  lemma CopyStep(pomPath: string, newModuleName: string, listing: seq<string>, i: nat)
    requires i < |listing|
    ensures var f := listing[i];
            CopiesOf(pomPath, newModuleName, Filter(listing[..i + 1], KeepEntry(newModuleName))) ==
            CopiesOf(pomPath, newModuleName, Filter(listing[..i], KeepEntry(newModuleName))) +
            (if f != "pom.xml" && f != newModuleName then [CopyOf(pomPath, newModuleName, f)] else [])
  {
    var f := listing[i];
    var keep := KeepEntry(newModuleName);
    assert listing[..i + 1] == listing[..i] + [f];
    FilterConcat(listing[..i], [f], keep);
    assert [f][1..] == [];
    var kept := Filter(listing[..i], keep);
    var extra := if f != "pom.xml" && f != newModuleName then [f] else [];
    assert Filter(listing[..i + 1], keep) == kept + extra;
    CopiesConcat(pomPath, newModuleName, kept, extra);
  }

  lemma CopiesConcat(pomPath: string, newModuleName: string, a: seq<string>, b: seq<string>)
    ensures CopiesOf(pomPath, newModuleName, a + b) == CopiesOf(pomPath, newModuleName, a) + CopiesOf(pomPath, newModuleName, b)
  {
    var l := CopiesOf(pomPath, newModuleName, a + b);
    var r := CopiesOf(pomPath, newModuleName, a) + CopiesOf(pomPath, newModuleName, b);
    assert |l| == |r|;
    forall k | 0 <= k < |l| ensures l[k] == r[k] {
      if k < |a| {
        assert (a + b)[k] == a[k];
      } else {
        assert (a + b)[k] == b[k - |a|];
      }
    }
  }

  lemma CopyOfInjective(pomPath: string, newModuleName: string, f: string, g: string)
    requires CopyOf(pomPath, newModuleName, f) == CopyOf(pomPath, newModuleName, g)
    ensures f == g
  {
    var n := |pomPath| + 1;
    assert (pomPath + "/" + f)[n..] == f;
    assert (pomPath + "/" + g)[n..] == g;
  }

  /** An entry is copied exactly when it is neither `pom.xml` nor the new module's
      directory, and it is copied into that directory under its own name; nothing
      else is copied. */
  lemma CopiedExactly(pomPath: string, newModuleName: string, listing: seq<string>, f: string)
    ensures var copies := CopiesOf(pomPath, newModuleName, Filter(listing, KeepEntry(newModuleName)));
            CopyOf(pomPath, newModuleName, f) in copies <==> f in listing && f != "pom.xml" && f != newModuleName
    ensures var copies := CopiesOf(pomPath, newModuleName, Filter(listing, KeepEntry(newModuleName)));
            forall i :: 0 <= i < |copies| ==>
              exists g :: g in listing && g != "pom.xml" && g != newModuleName && copies[i] == CopyOf(pomPath, newModuleName, g)
  {
    var entries := Filter(listing, KeepEntry(newModuleName));
    var copies := CopiesOf(pomPath, newModuleName, entries);
    FilterMembers(listing, KeepEntry(newModuleName));
    if CopyOf(pomPath, newModuleName, f) in copies {
      var j :| 0 <= j < |copies| && copies[j] == CopyOf(pomPath, newModuleName, f);
      CopyOfInjective(pomPath, newModuleName, entries[j], f);
    }
    if f in listing && f != "pom.xml" && f != newModuleName {
      var k :| 0 <= k < |listing| && listing[k] == f;
      assert KeepEntry(newModuleName)(listing[k]);
      var j :| 0 <= j < |entries| && entries[j] == f;
      assert copies[j] == CopyOf(pomPath, newModuleName, f);
    }
    forall i | 0 <= i < |copies|
      ensures exists g :: g in listing && g != "pom.xml" && g != newModuleName && copies[i] == CopyOf(pomPath, newModuleName, g)
    {
      assert KeepEntry(newModuleName)(entries[i]);
      assert entries[i] in listing;
    }
  }

  // ---------------------------------------------------------------------------
  // The two documents
  // ---------------------------------------------------------------------------

  /** The header the new module's POM is given. */
  function ChildFields(newModuleName: string, h: Header): seq<Field> {
    HeadFields(h.groupId + "." + h.artifactId, newModuleName, h.version, Some(h.name), h.packaging, Some(h.url))
  }

  /** The new module's POM: a fresh scaffold, the derived header, then the original's
      plugins, then its dependencies. */
  function ChildOf(newModuleName: string, original: Node, h: Header): (r: Outcome)
    ensures r.root.Element? && r.root.tag == "project"
  {
    FillChild(ProvideHeadOf(EmptyProject(), h.groupId + "." + h.artifactId, newModuleName, h.version,
                            Some(h.name), h.packaging, Some(h.url)), original)
  }

  /** The steps after the header: plugins, then dependencies, each stopping the run
      when it fails. */
  function FillChild(c1: Outcome, original: Node): (r: Outcome)
    requires c1.root.Element?
    ensures r.root.Element? && r.root.tag == c1.root.tag
  {
    if c1.error.Some? then c1
    else
      var c2 := AddPluginsOf(c1.root, PluginsOf(original));
      if c2.error.Some? then c2 else AddDependenciesOf(c2.root, DependenciesOf(original))
  }

  /** The original POM afterwards: its header rewritten with packaging `pom`, and the
      new module added to its modules. */
  function ParentOf(newModuleName: string, original: Node, h: Header): (r: Outcome)
    requires original.Element?
    ensures r.root.Element? && r.root.tag == original.tag
  {
    var p1 := ProvideHeadOf(original, h.groupId, h.artifactId, h.version, Some(h.name), "pom", Some(h.url));
    if p1.error.Some? then p1 else AddModulesOf(p1.root, [BuildModule(newModuleName)])
  }

  function ChildPath(pomPath: string, newModuleName: string): string {
    pomPath + "/" + newModuleName + "/pom.xml"
  }

  function OriginalPath(pomPath: string): string {
    pomPath + "/pom.xml"
  }

  /** The whole in-memory part of `modularize`. The new module's POM is written
      before the original is changed, so a failure while changing the original
      leaves the new module's POM written. */
  function ModularizeOf(pomPath: string, newModuleName: string, listing: seq<string>, original: Node): (r: Modularized)
    requires original.Element?
    ensures r.copies == CopiesOf(pomPath, newModuleName, Filter(listing, KeepEntry(newModuleName)))
    ensures HeadOf(original).Err? ==> r.written == [] && r.error == Some(HeadOf(original).error)
  {
    var copies := CopiesOf(pomPath, newModuleName, Filter(listing, KeepEntry(newModuleName)));
    match HeadOf(original)
    case Err(e) => Modularized(copies, [], Some(e))
    case Ok(h) =>
      var c := ChildOf(newModuleName, original, h);
      if c.error.Some? then Modularized(copies, [], c.error)
      else
        var w := [Written(ChildPath(pomPath, newModuleName), c.root)];
        var p := ParentOf(newModuleName, original, h);
        if p.error.Some? then Modularized(copies, w, p.error)
        else Modularized(copies, w + [Written(OriginalPath(pomPath), p.root)], None)
  }

  /** `modularize` run on two `Pom` objects. */
  method Modularize(pomPath: string, newModuleName: string, listing: seq<string>, original: Node)
    returns (r: Modularized)
    requires original.Element?
    ensures r == ModularizeOf(pomPath, newModuleName, listing, original)
  {
    var copies := CopyEntries(pomPath, newModuleName, listing);
    var pm := new Pom();
    var pmOrig := new Pom.Load(original, OriginalPath(pomPath));
    var head := HeadOf(pmOrig.root);
    if head.Err? {
      return Modularized(copies, [], Some(head.error));
    }
    var h := head.value;
    var error := pm.ProvideHead(h.groupId + "." + h.artifactId, newModuleName, h.version, Some(h.name),
                                h.packaging, Some(h.url));
    if error.Some? {
      return Modularized(copies, [], error);
    }
    error := pm.AddPlugins(PluginsOf(pmOrig.root));
    if error.Some? {
      return Modularized(copies, [], error);
    }
    error := pm.AddDependencies(DependenciesOf(pmOrig.root));
    if error.Some? {
      return Modularized(copies, [], error);
    }
    var childTarget := pm.WriteTarget(Some(ChildPath(pomPath, newModuleName)));
    var written := [Written(childTarget.value, pm.root)];
    error := pmOrig.ProvideHead(h.groupId, h.artifactId, h.version, Some(h.name), "pom", Some(h.url));
    if error.Some? {
      return Modularized(copies, written, error);
    }
    var newModule := BuildModule(newModuleName);
    error := pmOrig.AddModules([newModule]);
    if error.Some? {
      return Modularized(copies, written, error);
    }
    var parentTarget := pmOrig.WriteTarget(None);
    written := written + [Written(parentTarget.value, pmOrig.root)];
    r := Modularized(copies, written, None);
  }

  // ---------------------------------------------------------------------------
  // The new module's POM
  // ---------------------------------------------------------------------------

  /** Header fields hold none of the list containers. */
  predicate NoContainers(l: seq<Node>) {
    CountIn(l, "build") == 0 && CountIn(l, "plugins") == 0 && CountIn(l, "dependencies") == 0
  }

  /** The new module's POM after its header: the created header fields, which hold
      no list container. */
  lemma ChildStart(newModuleName: string, original: Node, h: Header)
    ensures var l := Leaves(ChildFields(newModuleName, h));
            NoContainers(l) &&
            ChildOf(newModuleName, original, h) == FillChild(Outcome(Element("project", l), None), original)
  {
    ProvideHeadOnScaffold(h.groupId + "." + h.artifactId, newModuleName, h.version, Some(h.name), h.packaging, Some(h.url));
    ChildFieldsMiss(newModuleName, h, "build");
    ChildFieldsMiss(newModuleName, h, "plugins");
    ChildFieldsMiss(newModuleName, h, "dependencies");
  }

  /** The header fields hold no list container. */
  lemma ChildFieldsMiss(newModuleName: string, h: Header, u: string)
    requires u == "build" || u == "plugins" || u == "dependencies"
    ensures CountIn(Leaves(ChildFields(newModuleName, h)), u) == 0
  {
    HeadFieldsTags(h.groupId + "." + h.artifactId, newModuleName, h.version, Some(h.name), h.packaging, Some(h.url), u);
    LeavesMiss(ChildFields(newModuleName, h), u);
  }

  /** `c` starts with the nodes `l` and goes on with a `build` (the first in the
      document) whose only child is a `plugins` (the first in the document). */
  predicate BuildAfter(c: Node, l: seq<Node>) {
    c.Element? && |c.children| > |l| && c.children[..|l|] == l &&
    var b := c.children[|l|];
    b.Element? && b.tag == "build" && |b.children| == 1 &&
    b.children[0].Element? && b.children[0].tag == "plugins" &&
    DocFirst(c, "build") == Some(b) && DocFirst(c, "plugins") == Some(b.children[0])
  }

  function BuildOf(plugins: seq<Node>): Node {
    Element("build", [Element("plugins", plugins)])
  }

  /** `addPlugins` after the header fields appends a `build/plugins` holding the
      merge result. */
  lemma PluginsStep(l: seq<Node>, plugins: seq<Node>)
    requires NoContainers(l)
    ensures var m := MergeOf("plugin", [], plugins, KeyOf(PluginKey()));
            AddPluginsOf(Element("project", l), plugins) ==
              Outcome(Element("project", l + [BuildOf(m.merged)]), KeyOutcome(m.error))
  {
    var c1 := Element("project", l);
    FirstInSingle(c1, "build");
    FirstInSingle(c1, "plugins");
    AddPluginsReadBack(c1, plugins);
  }

  lemma BuildAfterAppended(l: seq<Node>, ps: seq<Node>)
    requires NoContainers(l)
    ensures BuildAfter(Element("project", l + [BuildOf(ps)]), l)
  {
    var pl := Element("plugins", ps);
    var b := BuildOf(ps);
    var c := Element("project", l + [b]);
    FirstInConcat(l, [b], "build");
    FirstInConcat(l, [b], "plugins");
    FirstInSingle(b, "build");
    FirstInSingle(b, "plugins");
    FirstInSingle(pl, "plugins");
    FirstInSingle(c, "build");
    FirstInSingle(c, "plugins");
    assert (l + [b])[..|l|] == l;
  }

  /** `addDependencies` keeps the `build/plugins` container in place, whether it
      merges into a `dependencies` inside a plugin or appends a new one. */
  lemma DependenciesStep(l: seq<Node>, ps: seq<Node>, deps: seq<Node>)
    requires NoContainers(l)
    ensures BuildAfter(AddDependenciesOf(Element("project", l + [BuildOf(ps)]), deps).root, l)
  {
    var pl := Element("plugins", ps);
    var b := BuildOf(ps);
    var c2 := Element("project", l + [b]);
    var old_ := ListToUpdate(c2, "dependencies");
    var md := MergeOf("dependency", old_, deps, KeyOf(DependencyKey())).merged;
    var c3 := AddDependenciesOf(c2, deps).root;
    if FirstBelow(c2, "dependencies").Some? {
      UpdateFirstInConcat(l, [b], "dependencies", md);
      assert [b][1..] == [] && [pl][1..] == [];
      FirstInSingle(b, "dependencies");
      FirstInSingle(pl, "dependencies");
      FirstInConcat(l, [b], "dependencies");
      assert FirstBelow(b, "dependencies").Some? && FirstBelow(pl, "dependencies").Some?;
      var pl' := UpdateBelow(pl, "dependencies", md);
      assert UpdateFirstIn([pl], "dependencies", md) == [pl'];
      assert UpdateBelow(b, "dependencies", md) == Element("build", [pl']);
      assert pl' == Element("plugins", pl'.children);
      assert UpdateFirstIn([b], "dependencies", md) == [BuildOf(pl'.children)];
      assert c3 == Element("project", l + [BuildOf(pl'.children)]);
      BuildAfterAppended(l, pl'.children);
    } else {
      var d := Element("dependencies", md);
      BuildAfterAppended(l, ps);
      assert c3.children == l + [b] + [d];
      assert (l + [b] + [d])[..|l|] == l && (l + [b] + [d])[|l|] == b;
      DocFirstAppend(c2, d, "build");
      DocFirstAppend(c2, d, "plugins");
    }
  }

  /** After the header fields `l`, the filled POM goes on with its `build/plugins`
      container, whether or not the original has plugins and whether or not a merge
      fails. */
  lemma FillShape(l: seq<Node>, original: Node)
    requires NoContainers(l)
    ensures BuildAfter(FillChild(Outcome(Element("project", l), None), original).root, l)
  {
    var plugins := PluginsOf(original);
    var m := MergeOf("plugin", [], plugins, KeyOf(PluginKey()));
    PluginsStep(l, plugins);
    if m.error.Some? {
      BuildAfterAppended(l, m.merged);
    } else {
      DependenciesStep(l, m.merged, DependenciesOf(original));
    }
  }

  /** The new module's POM starts with its header fields, created in order, then has
      its `build/plugins` container. */
  lemma ChildShape(newModuleName: string, original: Node, h: Header)
    ensures BuildAfter(ChildOf(newModuleName, original, h).root, Leaves(ChildFields(newModuleName, h)))
  {
    ChildStart(newModuleName, original, h);
    FillShape(Leaves(ChildFields(newModuleName, h)), original);
  }

  /** A field found among the leading header fields reads the same whatever follows
      them. */
  lemma ReadLeading(l: seq<Node>, c: Node, t: string)
    requires c.Element? && c.tag == "project" && |c.children| >= |l| && c.children[..|l|] == l
    requires FirstIn(l, t).Some? && t != "project"
    ensures ReadField(c, t) == ReadField(Element("project", l), t)
  {
    var rest := c.children[|l|..];
    assert c.children == l + rest;
    FirstInSingle(c, t);
    FirstInSingle(Element("project", l), t);
    FirstInConcat(l, rest, t);
  }

  /** The new module's header (line 54): `modelVersion` `4.0.0`, group id the
      original group and artifact ids joined by a dot, artifact id the module name,
      and version, name, packaging and url those of the original. It holds whether or
      not the plugin or dependency merge succeeded. */
  lemma ChildHeader(newModuleName: string, original: Node, h: Header)
    ensures var c := ChildOf(newModuleName, original, h).root;
            ReadField(c, "modelVersion") == Ok("4.0.0") &&
            HeadOf(c) == Ok(Header(h.groupId + "." + h.artifactId, newModuleName, h.version, h.name, h.packaging, h.url))
  {
    var g := h.groupId + "." + h.artifactId;
    var l := Leaves(ChildFields(newModuleName, h));
    ChildShape(newModuleName, original, h);
    ChildLeavesHold(newModuleName, h);
    LeadingFieldsRead(l, ChildOf(newModuleName, original, h).root);
    ScaffoldHeadReads(g, newModuleName, h.version, h.name, h.packaging, h.url);
    ProvideHeadOnScaffold(g, newModuleName, h.version, Some(h.name), h.packaging, Some(h.url));
  }

  /** Every header tag is found among the new module's header fields. */
  lemma ChildLeavesHold(newModuleName: string, h: Header)
    ensures forall t :: t in HeadTags ==> FirstIn(Leaves(ChildFields(newModuleName, h)), t).Some?
  {
    var g := h.groupId + "." + h.artifactId;
    var fs := ChildFields(newModuleName, h);
    HeadFieldsDistinct(g, newModuleName, h.version, Some(h.name), h.packaging, Some(h.url));
    forall t | t in HeadTags ensures FirstIn(Leaves(fs), t).Some? {
      HeadFieldsTags(g, newModuleName, h.version, Some(h.name), h.packaging, Some(h.url), t);
      var j :| 0 <= j < |fs| && fs[j].tag == t;
      LeavesFind(fs, j);
    }
  }

  /** A `project` starting with nodes `l` in which every header tag is found reads
      its header from `l`. */
  lemma LeadingFieldsRead(l: seq<Node>, c: Node)
    requires c.Element? && c.tag == "project" && |c.children| >= |l| && c.children[..|l|] == l
    requires forall t :: t in HeadTags ==> FirstIn(l, t).Some?
    ensures forall t :: t in HeadTags ==> ReadField(c, t) == ReadField(Element("project", l), t)
    ensures HeadOf(c) == HeadOf(Element("project", l))
  {
    forall t | t in HeadTags ensures ReadField(c, t) == ReadField(Element("project", l), t) {
      HeadTagNotProject(t);
      ReadLeading(l, c, t);
    }
    HeadOfSame(c, Element("project", l));
  }

  /** `addDependencies` after a `build/plugins` holding no `dependencies`: the
      dependencies, all keyed, go into a new container appended at the end. */
  lemma DependenciesAppended(l: seq<Node>, ps: seq<Node>, deps: seq<Node>)
    requires NoContainers(l) && CountIn(ps, "dependencies") == 0
    requires forall i :: 0 <= i < |deps| ==> GetId(deps[i], DependencyKey()).Ok?
    ensures AddDependenciesOf(Element("project", l + [BuildOf(ps)]), deps) ==
            Outcome(Element("project", l + [BuildOf(ps), Element("dependencies", deps)]), None)
  {
    NoDependenciesYet(l, ps);
    MergeIntoEmpty("dependency", deps, KeyOf(DependencyKey()));
    AppendAfterBuild(l, BuildOf(ps), Element("dependencies", deps));
  }

  /** Header fields followed by a `build/plugins` with no `dependencies` inside hold
      no `dependencies` element. */
  lemma NoDependenciesYet(l: seq<Node>, ps: seq<Node>)
    requires NoContainers(l) && CountIn(ps, "dependencies") == 0
    ensures FirstBelow(Element("project", l + [BuildOf(ps)]), "dependencies").None?
  {
    var b := BuildOf(ps);
    FirstInConcat(l, [b], "dependencies");
    FirstInSingle(b, "dependencies");
    FirstInSingle(Element("plugins", ps), "dependencies");
  }

  /** What the readers see in a POM whose header fields `l` are followed by the
      `build/plugins` and the `dependencies` containers. */
  lemma ListsRead(l: seq<Node>, ps: seq<Node>, deps: seq<Node>)
    requires NoContainers(l) && CountIn(ps, "dependencies") == 0
    requires forall i :: 0 <= i < |ps| ==> ps[i].Element?
    requires forall i :: 0 <= i < |deps| ==> deps[i].Element?
    ensures var c := Element("project", l + [BuildOf(ps), Element("dependencies", deps)]);
            PluginsOf(c) == ps && DependenciesOf(c) == deps
  {
    PluginsFirst(l, ps, deps);
    FilterElements(ps);
    DependenciesLast(l, ps, deps);
    FilterElements(deps);
  }

  lemma PluginsFirst(l: seq<Node>, ps: seq<Node>, deps: seq<Node>)
    requires NoContainers(l)
    ensures PluginsOf(Element("project", l + [BuildOf(ps), Element("dependencies", deps)])) == Filter(ps, IsElement)
  {
    var b := BuildOf(ps);
    var d := Element("dependencies", deps);
    var c2 := Element("project", l + [b]);
    AppendAfterBuild(l, b, d);
    BuildAfterAppended(l, ps);
    DocFirstAppend(c2, d, "build");
    DocFirstAppend(c2, d, "plugins");
  }

  lemma AppendAfterBuild(l: seq<Node>, b: Node, d: Node)
    ensures AppendChild(Element("project", l + [b]), d) == Element("project", l + [b, d])
  {
    assert l + [b] + [d] == l + [b, d];
  }

  lemma DependenciesLast(l: seq<Node>, ps: seq<Node>, deps: seq<Node>)
    requires NoContainers(l) && CountIn(ps, "dependencies") == 0
    ensures DependenciesOf(Element("project", l + [BuildOf(ps), Element("dependencies", deps)])) == Filter(deps, IsElement)
  {
    var b := BuildOf(ps);
    var d := Element("dependencies", deps);
    var c2 := Element("project", l + [b]);
    AppendAfterBuild(l, b, d);
    NoDependenciesYet(l, ps);
    FirstInSingle(c2, "dependencies");
    DocFirstAppend(c2, d, "dependencies");
    FirstInSingle(d, "dependencies");
  }

  /** Filling after header fields `l`, when every key can be computed and no plugin
      holds a `dependencies` element: no error, and the POM holds all plugins and
      then all dependencies, in order, key duplicates included. */
  lemma FillLists(l: seq<Node>, original: Node)
    requires NoContainers(l)
    requires forall i :: 0 <= i < |PluginsOf(original)| ==> GetId(PluginsOf(original)[i], PluginKey()).Ok?
    requires forall i :: 0 <= i < |DependenciesOf(original)| ==> GetId(DependenciesOf(original)[i], DependencyKey()).Ok?
    requires CountIn(PluginsOf(original), "dependencies") == 0
    ensures var c := FillChild(Outcome(Element("project", l), None), original);
            c.error.None? &&
            c.root.children == l + [BuildOf(PluginsOf(original)), Element("dependencies", DependenciesOf(original))] &&
            PluginsOf(c.root) == PluginsOf(original) && DependenciesOf(c.root) == DependenciesOf(original)
  {
    var plugins := PluginsOf(original);
    var deps := DependenciesOf(original);
    MergeIntoEmpty("plugin", plugins, KeyOf(PluginKey()));
    PluginsStep(l, plugins);
    DependenciesAppended(l, plugins, deps);
    ListsRead(l, plugins, deps);
  }

  /** When every plugin has an `artifactId`, every dependency an `artifactId` and a
      `groupId`, and no plugin holds a `dependencies` element, the new module's POM
      is built without error and holds all of the original's plugins and then all of
      its dependencies, in their original order, key duplicates included. */
  lemma ChildLists(newModuleName: string, original: Node, h: Header)
    requires forall i :: 0 <= i < |PluginsOf(original)| ==> GetId(PluginsOf(original)[i], PluginKey()).Ok?
    requires forall i :: 0 <= i < |DependenciesOf(original)| ==> GetId(DependenciesOf(original)[i], DependencyKey()).Ok?
    requires CountIn(PluginsOf(original), "dependencies") == 0
    ensures var c := ChildOf(newModuleName, original, h);
            c.error.None? &&
            c.root.children == Leaves(ChildFields(newModuleName, h)) +
              [BuildOf(PluginsOf(original)), Element("dependencies", DependenciesOf(original))]
    ensures var c := ChildOf(newModuleName, original, h).root;
            PluginsOf(c) == PluginsOf(original) && DependenciesOf(c) == DependenciesOf(original)
  {
    ChildStart(newModuleName, original, h);
    FillLists(Leaves(ChildFields(newModuleName, h)), original);
  }

  // ---------------------------------------------------------------------------
  // The original POM
  // ---------------------------------------------------------------------------

  /** What the original must satisfy for its rewrite to go through: a `project`
      whose header reads, whose `modelVersion` does not start with an element, and
      whose modules hold no header field. */
  predicate RewritableOriginal(original: Node, h: Header) {
    original.Element? && original.tag == "project" && HeadOf(original) == Ok(h) &&
    FieldView(original, "modelVersion") != FirstChildNotText &&
    forall t :: t in HeadTags ==> CountIn(ModulesOf(original), t) == 0
  }

  /** The first rewrite step succeeds and leaves the modules where they were. */
  lemma ParentHeadStep(original: Node, h: Header)
    requires RewritableOriginal(original, h)
    ensures var p1 := ProvideHeadOf(original, h.groupId, h.artifactId, h.version, Some(h.name), "pom", Some(h.url));
            p1.error.None? && ModulesOf(p1.root) == ModulesOf(original) &&
            ListToUpdate(p1.root, "modules") == ModulesOf(original)
  {
    var fs := HeadFields(h.groupId, h.artifactId, h.version, Some(h.name), "pom", Some(h.url));
    var p1 := ProvideHeadOf(original, h.groupId, h.artifactId, h.version, Some(h.name), "pom", Some(h.url));
    HeadOfReads(original, h);
    forall i | 0 <= i < |fs| ensures FieldView(original, fs[i].tag) != FirstChildNotText {
      HeadFieldsTags(h.groupId, h.artifactId, h.version, Some(h.name), "pom", Some(h.url), fs[i].tag);
      assert HasTag(fs, fs[i].tag);
    }
    ProvideHeadSucceeds(original, h.groupId, h.artifactId, h.version, Some(h.name), "pom", Some(h.url));
    if DocFirst(original, "modules").Some? {
      forall t | t in HeadTags ensures CountBelow(DocFirst(original, "modules").value, t) == 0 {
      }
    }
    ProvideHeadKeepsFirst(original, h.groupId, h.artifactId, h.version, Some(h.name), "pom", Some(h.url), "modules");
    DocFirstBelow(p1.root, "modules");
  }

  /** The original's header afterwards (line 59): the values read before, with
      packaging `pom` and `modelVersion` `4.0.0`, when those values are not empty. */
  lemma ParentHeader(newModuleName: string, original: Node, h: Header)
    requires RewritableOriginal(original, h)
    requires h.groupId != "" && h.artifactId != "" && h.version != "" && h.name != "" && h.url != ""
    ensures var p := ParentOf(newModuleName, original, h);
            p.error.None? &&
            ReadField(p.root, "modelVersion") == Ok("4.0.0") &&
            HeadOf(p.root) == Ok(Header(h.groupId, h.artifactId, h.version, h.name, "pom", h.url))
  {
    var p1 := ProvideHeadOf(original, h.groupId, h.artifactId, h.version, Some(h.name), "pom", Some(h.url));
    ParentHeadStep(original, h);
    ProvideHeadReads(original, h.groupId, h.artifactId, h.version, Some(h.name), "pom", Some(h.url));
    var p := AddModulesOf(p1.root, [BuildModule(newModuleName)]);
    forall t | t in HeadTags ensures ReadField(p.root, t) == ReadField(p1.root, t) {
      ModuleKeepsField(p1.root, newModuleName, t);
    }
    HeadOfReads(p1.root, Header(h.groupId, h.artifactId, h.version, h.name, "pom", h.url));
    HeadOfSame(p.root, p1.root);
    AddModulesWithEmptyKey(p1.root, [BuildModule(newModuleName)]);
  }

  /** Adding a built module leaves every header field reading as before, when the
      modules hold no header field. */
  lemma ModuleKeepsField(root: Node, newModuleName: string, t: string)
    requires root.Element? && root.tag == "project" && t in HeadTags
    requires CountIn(ListToUpdate(root, "modules"), t) == 0
    ensures ReadField(AddModulesOf(root, [BuildModule(newModuleName)]).root, t) == ReadField(root, t)
  {
    var m := BuildModule(newModuleName);
    HeadTagNotProject(t);
    FirstInSingle(m, t);
    TextLeafHoldsNothing("module", newModuleName, t);
    AddModulesKeepsField(root, [m], t);
  }

  /** The module is appended to the original exactly when its modules held no
      `module` element (line 61 with the empty key); it reads the module name. */
  lemma ParentModules(newModuleName: string, original: Node, h: Header)
    requires RewritableOriginal(original, h)
    ensures var p := ParentOf(newModuleName, original, h);
            p.error.None? &&
            ModulesOf(p.root) ==
              if exists i :: 0 <= i < |ModulesOf(original)| && Tagged(ModulesOf(original)[i], "module")
              then ModulesOf(original)
              else ModulesOf(original) + [BuildModule(newModuleName)]
    ensures FirstChildText(BuildModule(newModuleName)) == TextValue(newModuleName)
  {
    var p1 := ProvideHeadOf(original, h.groupId, h.artifactId, h.version, Some(h.name), "pom", Some(h.url));
    ParentHeadStep(original, h);
    AddModulesWithEmptyKey(p1.root, [BuildModule(newModuleName)]);
    BuildModuleReads(newModuleName);
  }

  // ---------------------------------------------------------------------------
  // The whole run
  // ---------------------------------------------------------------------------

  /** Under the conditions of the lemmas above, `modularize` writes exactly two
      documents: the new module's POM under the module directory, holding the
      derived header and all of the original's plugins and dependencies, and then
      the original POM in place, with packaging `pom` and the module added when it
      had none. */
  lemma ModularizeWrites(pomPath: string, newModuleName: string, listing: seq<string>, original: Node, h: Header)
    requires RewritableOriginal(original, h)
    requires h.groupId != "" && h.artifactId != "" && h.version != "" && h.name != "" && h.url != ""
    requires forall i :: 0 <= i < |PluginsOf(original)| ==> GetId(PluginsOf(original)[i], PluginKey()).Ok?
    requires forall i :: 0 <= i < |DependenciesOf(original)| ==> GetId(DependenciesOf(original)[i], DependencyKey()).Ok?
    requires CountIn(PluginsOf(original), "dependencies") == 0
    ensures var r := ModularizeOf(pomPath, newModuleName, listing, original);
            r.error.None? && |r.written| == 2 &&
            r.written[0].path == pomPath + "/" + newModuleName + "/pom.xml" &&
            r.written[1].path == pomPath + "/pom.xml"
    ensures var r := ModularizeOf(pomPath, newModuleName, listing, original);
            |r.written| == 2 ==>
            var child := r.written[0].document;
            HeadOf(child) == Ok(Header(h.groupId + "." + h.artifactId, newModuleName, h.version, h.name, h.packaging, h.url)) &&
            PluginsOf(child) == PluginsOf(original) && DependenciesOf(child) == DependenciesOf(original)
    ensures var r := ModularizeOf(pomPath, newModuleName, listing, original);
            |r.written| == 2 ==>
            var parent := r.written[1].document;
            HeadOf(parent) == Ok(Header(h.groupId, h.artifactId, h.version, h.name, "pom", h.url)) &&
            ModulesOf(parent) ==
              if exists i :: 0 <= i < |ModulesOf(original)| && Tagged(ModulesOf(original)[i], "module")
              then ModulesOf(original)
              else ModulesOf(original) + [BuildModule(newModuleName)]
  {
    ChildLists(newModuleName, original, h);
    ChildHeader(newModuleName, original, h);
    ParentHeader(newModuleName, original, h);
    ParentModules(newModuleName, original, h);
    ModularizeOfSucceeds(pomPath, newModuleName, listing, original, h);
  }

  /** When the header reads and both documents are built without error, the two
      documents are written, the new module's first. */
  lemma ModularizeOfSucceeds(pomPath: string, newModuleName: string, listing: seq<string>, original: Node, h: Header)
    requires original.Element? && HeadOf(original) == Ok(h)
    requires ChildOf(newModuleName, original, h).error.None?
    requires ParentOf(newModuleName, original, h).error.None?
    ensures ModularizeOf(pomPath, newModuleName, listing, original).written ==
            [Written(pomPath + "/" + newModuleName + "/pom.xml", ChildOf(newModuleName, original, h).root),
             Written(pomPath + "/pom.xml", ParentOf(newModuleName, original, h).root)]
    ensures ModularizeOf(pomPath, newModuleName, listing, original).error.None?
  {
  }
}
