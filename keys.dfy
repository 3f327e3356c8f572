/** Identity keys of POM elements (`Pom.getId`, `__doGetId`, `__getText`).

    A key specification is a list of (tag, sub) entries. Its entries are visited in
    order of their tags; for each, the first element with that tag below the current
    element is looked up (a search of all descendants, not only of the children). A
    leaf entry contributes that element's text; a nested entry contributes the key of
    that element under the nested specification. */
module PomKeys {
  import opened Wrappers
  import opened Dom

  /** One entry of a key specification. */
  datatype KeyField = KeyField(tag: string, sub: KeySub)

  /** `None` in the source (read the element's text), or a nested specification. */
  datatype KeySub = Leaf | Nested(fields: seq<KeyField>)

  type Key = seq<string>

  /** Why a key cannot be computed: the node is a text node (it has no
      `getElementsByTagName`), or a required tag has no element below the node. */
  datatype KeyError = NotAnElement | MissingKeyField(tag: string)

  // ---------------------------------------------------------------------------
  // Text of an element (`__getText` with Python's `str.lstrip`)
  // ---------------------------------------------------------------------------

  /** The characters Python 2.7's `unicode.isspace` accepts, which `lstrip()` removes. */
  predicate IsSpace(c: char) {
    c == ' ' || ('\t' <= c <= '\r') || ('\U{1C}' <= c <= '\U{1F}')
    || c == '\U{85}' || c == '\U{A0}' || c == '\U{1680}' || c == '\U{180E}'
    || ('\U{2000}' <= c <= '\U{200A}') || c == '\U{2028}' || c == '\U{2029}'
    || c == '\U{202F}' || c == '\U{205F}' || c == '\U{3000}'
  }

  /** `s.lstrip()`: the suffix of `s` that starts at its first non-space character. */
  function LStrip(s: string): (r: string)
    ensures |r| <= |s| && r == s[|s| - |r|..]
    ensures r == [] || !IsSpace(r[0])
    ensures forall i :: 0 <= i < |s| - |r| ==> IsSpace(s[i])
  {
    if s != [] && IsSpace(s[0]) then
      var r := LStrip(s[1..]);
      assert forall i :: 1 <= i < |s| - |r| ==> s[i] == s[1..][i - 1];
      r
    else s
  }

  /** `__getText(nodeList)`: the left-stripped data of the text nodes of the list,
      joined; element nodes contribute nothing. */
  function TextOf(ns: seq<Node>): (r: string)
    ensures (forall i :: 0 <= i < |ns| ==> !ns[i].Text?) ==> r == ""
  {
    if ns == [] then ""
    else (if ns[0].Text? then LStrip(ns[0].data) else "") + TextOf(ns[1..])
  }

  predicate IsText(n: Node) {
    n.Text?
  }

  lemma {:induction false} TextOfConcat(a: seq<Node>, b: seq<Node>)
    ensures TextOf(a + b) == TextOf(a) + TextOf(b)
  {
    if a == [] {
      assert a + b == b;
    } else {
      assert (a + b)[1..] == a[1..] + b;
      TextOfConcat(a[1..], b);
    }
  }

  /** Only the text nodes of the list matter to its text. */
  lemma {:induction false} TextOfIgnoresElements(ns: seq<Node>)
    ensures TextOf(ns) == TextOf(Filter(ns, IsText))
  {
    if ns != [] {
      TextOfIgnoresElements(ns[1..]);
      assert Filter(ns, IsText) == (if ns[0].Text? then [ns[0]] else []) + Filter(ns[1..], IsText);
      TextOfConcat(if ns[0].Text? then [ns[0]] else [], Filter(ns[1..], IsText));
    }
  }

  /** The text of an element whose only child is the text node `s`. */
  lemma TextOfSingle(s: string)
    ensures TextOf([Text(s)]) == LStrip(s)
  {
    assert [Text(s)][1..] == [];
  }

  // ---------------------------------------------------------------------------
  // Sorting a key specification by tag (`sorted(currentLevel)`)
  // ---------------------------------------------------------------------------

  /** Python's `<` on strings: lexicographic order of code points. */
  predicate TagLess(a: string, b: string) {
    if a == [] then b != []
    else if b == [] then false
    else if a[0] != b[0] then a[0] < b[0]
    else TagLess(a[1..], b[1..])
  }

  lemma {:induction false} TagLessIrreflexive(a: string)
    ensures !TagLess(a, a)
  {
    if a != [] {
      TagLessIrreflexive(a[1..]);
    }
  }

  lemma {:induction false} TagLessTotal(a: string, b: string)
    ensures TagLess(a, b) || a == b || TagLess(b, a)
    ensures !(TagLess(a, b) && TagLess(b, a))
  {
    if a != [] && b != [] && a[0] == b[0] {
      TagLessTotal(a[1..], b[1..]);
      if a[1..] == b[1..] {
        assert a == [a[0]] + a[1..] && b == [b[0]] + b[1..];
      }
    }
  }

  lemma {:induction false} TagLessTransitive(a: string, b: string, c: string)
    requires TagLess(a, b) && TagLess(b, c)
    ensures TagLess(a, c)
  {
    if a != [] && a[0] == b[0] && b[0] == c[0] {
      TagLessTransitive(a[1..], b[1..], c[1..]);
    }
  }

  /** `a <= b` on strings is transitive. */
  lemma TagLeTransitive(a: string, b: string, c: string)
    requires !TagLess(b, a) && !TagLess(c, b)
    ensures !TagLess(c, a)
  {
    TagLessTotal(a, b);
    TagLessTotal(b, c);
    if TagLess(c, a) {
      if a == b {
      } else {
        TagLessTransitive(c, a, b);
      }
    }
  }

  predicate SortedByTag(s: seq<KeyField>) {
    forall i, j :: 0 <= i < j < |s| ==> !TagLess(s[j].tag, s[i].tag)
  }

  /** Inserting `x` before the first entry whose tag is not smaller than its own. */
  function InsertByTag(x: KeyField, s: seq<KeyField>): (r: seq<KeyField>)
    ensures multiset(r) == multiset(s) + multiset{x}
  {
    if s == [] || !TagLess(s[0].tag, x.tag) then [x] + s
    else
      assert s == [s[0]] + s[1..];
      [s[0]] + InsertByTag(x, s[1..])
  }

  /** An entry whose tag is not above any tag of a sorted sequence can go first. */
  lemma SortedCons(h: KeyField, t: seq<KeyField>)
    requires SortedByTag(t)
    requires forall j :: 0 <= j < |t| ==> !TagLess(t[j].tag, h.tag)
    ensures SortedByTag([h] + t)
  {
    var r := [h] + t;
    forall i, j | 0 <= i < j < |r| ensures !TagLess(r[j].tag, r[i].tag) {
      assert r[j] == t[j - 1];
      if i > 0 {
        assert r[i] == t[i - 1];
      }
    }
  }

  /** Inserting past the head of a sorted sequence puts nothing below the head. */
  lemma InsertedNotBelow(x: KeyField, s: seq<KeyField>)
    requires SortedByTag(s) && s != [] && TagLess(s[0].tag, x.tag)
    ensures forall j :: 0 <= j < |InsertByTag(x, s[1..])| ==> !TagLess(InsertByTag(x, s[1..])[j].tag, s[0].tag)
  {
    var rest := InsertByTag(x, s[1..]);
    forall j | 0 <= j < |rest| ensures !TagLess(rest[j].tag, s[0].tag) {
      assert rest[j] in multiset(rest);
      if rest[j] == x {
        TagLessTotal(s[0].tag, x.tag);
      } else {
        assert rest[j] in multiset(s[1..]);
        var k :| 0 <= k < |s[1..]| && s[1..][k] == rest[j];
        assert s[k + 1] == rest[j];
      }
    }
  }

  lemma {:induction false} InsertByTagSorted(x: KeyField, s: seq<KeyField>)
    requires SortedByTag(s)
    ensures SortedByTag(InsertByTag(x, s))
  {
    if s == [] || !TagLess(s[0].tag, x.tag) {
      forall j | 0 <= j < |s| ensures !TagLess(s[j].tag, x.tag) {
        if j > 0 {
          TagLeTransitive(x.tag, s[0].tag, s[j].tag);
        }
      }
      SortedCons(x, s);
    } else {
      SortedTail(s);
      InsertByTagSorted(x, s[1..]);
      InsertedNotBelow(x, s);
      SortedCons(s[0], InsertByTag(x, s[1..]));
    }
  }

  /** `sorted(currentLevel)`, ordering the entries by tag. The sort is stable. */
  function SortByTag(s: seq<KeyField>): (r: seq<KeyField>)
    ensures SortedByTag(r)
    ensures multiset(r) == multiset(s)
  {
    if s == [] then []
    else
      assert s == [s[0]] + s[1..];
      InsertByTagSorted(s[0], SortByTag(s[1..]));
      InsertByTag(s[0], SortByTag(s[1..]))
  }

  /** Entries that share a tag are the same entry. */
  ghost predicate TagsDetermineEntries(m: multiset<KeyField>) {
    forall x, y :: x in m && y in m && x.tag == y.tag ==> x == y
  }

  /** The first entry of a sorted sequence has the smallest tag. */
  lemma SortedHeadIsLeast(a: seq<KeyField>, y: KeyField)
    requires SortedByTag(a) && y in multiset(a)
    ensures !TagLess(y.tag, a[0].tag)
  {
    var i :| 0 <= i < |a| && a[i] == y;
    if i == 0 {
      TagLessIrreflexive(y.tag);
    }
  }

  lemma SortedTail(a: seq<KeyField>)
    requires SortedByTag(a) && a != []
    ensures SortedByTag(a[1..])
  {
    forall i, j | 0 <= i < j < |a[1..]| ensures !TagLess(a[1..][j].tag, a[1..][i].tag) {
      assert a[1..][i] == a[i + 1] && a[1..][j] == a[j + 1];
    }
  }

  lemma MultisetCons(a: seq<KeyField>)
    requires a != []
    ensures multiset(a) == multiset{a[0]} + multiset(a[1..])
  {
    assert a == [a[0]] + a[1..];
  }

  /** Two sorted sequences over the same entries start with the same entry. */
  lemma SortedSameHead(a: seq<KeyField>, b: seq<KeyField>)
    requires SortedByTag(a) && SortedByTag(b) && a != [] && b != []
    requires multiset(a) == multiset(b)
    requires TagsDetermineEntries(multiset(a))
    ensures a[0] == b[0]
  {
    assert a[0] in multiset(a) && b[0] in multiset(b);
    SortedHeadIsLeast(a, b[0]);
    SortedHeadIsLeast(b, a[0]);
    TagLessTotal(a[0].tag, b[0].tag);
  }

  /** What the induction step of `SortedUnique` needs: equal heads, and the tails
      meet the lemma's requirements. */
  lemma SortedUniqueStep(a: seq<KeyField>, b: seq<KeyField>)
    requires SortedByTag(a) && SortedByTag(b) && a != []
    requires multiset(a) == multiset(b)
    requires TagsDetermineEntries(multiset(a))
    ensures b != [] && a[0] == b[0]
    ensures SortedByTag(a[1..]) && SortedByTag(b[1..])
    ensures multiset(a[1..]) == multiset(b[1..]) && TagsDetermineEntries(multiset(a[1..]))
  {
    assert |b| == |multiset(b)| == |multiset(a)| == |a|;
    SortedSameHead(a, b);
    MultisetCons(a);
    MultisetCons(b);
    SortedTail(a);
    SortedTail(b);
    assert multiset(a[1..]) <= multiset(a);
  }

  lemma SameHeadSameTail(a: seq<KeyField>, b: seq<KeyField>)
    requires a != [] && b != [] && a[0] == b[0] && a[1..] == b[1..]
    ensures a == b
  {
    assert a == [a[0]] + a[1..] && b == [b[0]] + b[1..];
  }

  /** Two orderings of the same entries, both sorted by tag, are equal when no two
      different entries share a tag: the visiting order does not depend on the order
      in which the caller declared the entries. */
  lemma {:induction false} SortedUnique(a: seq<KeyField>, b: seq<KeyField>)
    requires SortedByTag(a) && SortedByTag(b)
    requires multiset(a) == multiset(b)
    requires TagsDetermineEntries(multiset(a))
    ensures a == b
    decreases |a|
  {
    if a == [] {
      assert |b| == |multiset(b)| == 0;
    } else {
      SortedUniqueStep(a, b);
      SortedUnique(a[1..], b[1..]);
      SameHeadSameTail(a, b);
    }
  }

  /** Sorting the same entries, whatever their declared order, gives the same result. */
  lemma SortByTagOrderIndependent(s1: seq<KeyField>, s2: seq<KeyField>)
    requires multiset(s1) == multiset(s2)
    requires TagsDetermineEntries(multiset(s1))
    ensures SortByTag(s1) == SortByTag(s2)
  {
    SortedUnique(SortByTag(s1), SortByTag(s2));
  }

  // ---------------------------------------------------------------------------
  // Depth and leaf count of a specification
  // ---------------------------------------------------------------------------

  function Max(a: nat, b: nat): nat {
    if a < b then b else a
  }

  /** Nesting depth: the measure that makes key extraction terminate. */
  function SpecDepth(fs: seq<KeyField>): nat
    decreases fs
  {
    if fs == [] then 0 else Max(FieldDepth(fs[0]), SpecDepth(fs[1..]))
  }

  function FieldDepth(f: KeyField): nat
    decreases f
  {
    match f.sub
    case Leaf => 1
    case Nested(s) => 1 + SpecDepth(s)
  }

  lemma {:induction false} DepthOfMember(fs: seq<KeyField>, x: KeyField)
    requires x in fs
    ensures FieldDepth(x) <= SpecDepth(fs)
  {
    if fs[0] != x {
      DepthOfMember(fs[1..], x);
    }
  }

  lemma {:induction false} DepthBelow(fs: seq<KeyField>, d: nat)
    requires forall x :: x in fs ==> FieldDepth(x) <= d
    ensures SpecDepth(fs) <= d
  {
    if fs != [] {
      DepthBelow(fs[1..], d);
    }
  }

  lemma SortKeepsDepth(s: seq<KeyField>)
    ensures SpecDepth(SortByTag(s)) <= SpecDepth(s)
  {
    var r := SortByTag(s);
    forall x | x in r ensures FieldDepth(x) <= SpecDepth(s) {
      assert x in multiset(r);
      DepthOfMember(s, x);
    }
    DepthBelow(r, SpecDepth(s));
  }

  /** Number of leaf entries: the length of every key the specification yields. */
  function LeafCount(fs: seq<KeyField>): nat
    decreases fs
  {
    if fs == [] then 0 else FieldLeaves(fs[0]) + LeafCount(fs[1..])
  }

  function FieldLeaves(f: KeyField): nat
    decreases f
  {
    match f.sub
    case Leaf => 1
    case Nested(s) => LeafCount(s)
  }

  lemma {:induction false} LeafCountInsert(x: KeyField, s: seq<KeyField>)
    ensures LeafCount(InsertByTag(x, s)) == FieldLeaves(x) + LeafCount(s)
  {
    if s != [] && TagLess(s[0].tag, x.tag) {
      LeafCountInsert(x, s[1..]);
    }
  }

  lemma {:induction false} LeafCountSort(s: seq<KeyField>)
    ensures LeafCount(SortByTag(s)) == LeafCount(s)
  {
    if s != [] {
      LeafCountSort(s[1..]);
      LeafCountInsert(s[0], SortByTag(s[1..]));
    }
  }

  // ---------------------------------------------------------------------------
  // Key extraction
  // ---------------------------------------------------------------------------

  /** `getId(node, spec)`. An empty specification gives the empty key for any node;
      otherwise the entries are visited in tag order, and the first failure (a text
      node, or a tag with no element below) is the result. A successful key has one
      string per leaf of the specification. */
  function GetId(n: Node, spec: seq<KeyField>): (r: Result<Key, KeyError>)
    ensures spec == [] ==> r == Ok([])
    ensures r.Ok? ==> |r.value| == LeafCount(spec)
    decreases SpecDepth(spec), 1, 0
  {
    if spec == [] then Ok([])
    else if n.Text? then Err(NotAnElement)
    else
      SortKeepsDepth(spec);
      LeafCountSort(spec);
      IdOfFields(n, SortByTag(spec))
  }

  /** The loop of `__doGetId` over already sorted entries, below element `e`. */
  function IdOfFields(e: Node, fs: seq<KeyField>): (r: Result<Key, KeyError>)
    requires e.Element?
    ensures r.Ok? ==> |r.value| == LeafCount(fs)
    decreases SpecDepth(fs), 0, |fs|
  {
    if fs == [] then Ok([])
    else match FirstBelow(e, fs[0].tag)
      case None => Err(MissingKeyField(fs[0].tag))
      case Some(c) =>
        DepthOfMember(fs, fs[0]);
        var part: Result<Key, KeyError> :=
          (match fs[0].sub
           case Leaf => Ok([TextOf(c.children)])
           case Nested(sub) => GetId(c, sub));
        match part
        case Err(err) => Err(err)
        case Ok(k) =>
          match IdOfFields(e, fs[1..])
          case Err(err) => Err(err)
          case Ok(rest) => Ok(k + rest)
  }

  /** With no element below for one of the required tags, no key is produced: the
      extraction fails instead of defaulting the missing part. */
  lemma {:induction false} IdOfFieldsMissing(e: Node, fs: seq<KeyField>, x: KeyField)
    requires e.Element? && x in fs
    requires FirstBelow(e, x.tag).None?
    ensures IdOfFields(e, fs).Err?
    decreases |fs|
  {
    if fs[0] != x && FirstBelow(e, fs[0].tag).Some? {
      IdOfFieldsMissing(e, fs[1..], x);
    }
  }

  lemma GetIdMissing(n: Node, spec: seq<KeyField>, x: KeyField)
    requires x in spec
    requires FirstBelow(n, x.tag).None?
    ensures GetId(n, spec).Err?
  {
    if n.Element? {
      var s := SortByTag(spec);
      assert x in multiset(s);
      IdOfFieldsMissing(n, s, x);
    }
  }

  /** The key does not depend on the order in which the entries are declared. */
  lemma GetIdOrderIndependent(n: Node, s1: seq<KeyField>, s2: seq<KeyField>)
    requires multiset(s1) == multiset(s2)
    requires TagsDetermineEntries(multiset(s1))
    ensures GetId(n, s1) == GetId(n, s2)
  {
    SortByTagOrderIndependent(s1, s2);
    if s1 == [] {
      assert |s2| == |multiset(s2)| == 0;
    } else {
      assert s1[0] in multiset(s2);
    }
  }

  // ---------------------------------------------------------------------------
  // The keys the POM operations use
  // ---------------------------------------------------------------------------

  /** The key of a dependency, as `addDependencies` declares it. */
  function DependencyKey(): (r: seq<KeyField>)
    ensures LeafCount(r) == 2
  {
    [KeyField("artifactId", Leaf), KeyField("groupId", Leaf)]
  }

  /** The key of a plugin, as `addPlugins` declares it. */
  function PluginKey(): (r: seq<KeyField>)
    ensures LeafCount(r) == 1
  {
    [KeyField("artifactId", Leaf)]
  }

  /** The key of a module, as `addModules` declares it: no entries at all. */
  function ModuleKey(): (r: seq<KeyField>)
    ensures forall n :: GetId(n, r) == Ok([])
  {
    []
  }

  /** Sorting visits `artifactId` before `groupId`, whichever is declared first. */
  lemma DependencyKeySorted()
    ensures SortByTag(DependencyKey()) == DependencyKey()
    ensures SortByTag([KeyField("groupId", Leaf), KeyField("artifactId", Leaf)]) == DependencyKey()
  {
    var a := KeyField("artifactId", Leaf);
    var g := KeyField("groupId", Leaf);
    assert TagLess("artifactId", "groupId");
    assert !TagLess("groupId", "artifactId");
    assert SortByTag([a, g]) == [a, g] by {
      assert [a, g][1..] == [g];
      assert SortByTag([g]) == InsertByTag(g, []) == [g];
    }
    assert SortByTag([g, a]) == [a, g] by {
      assert [g, a][1..] == [a];
      assert SortByTag([a]) == InsertByTag(a, []) == [a];
      assert InsertByTag(g, [a]) == [a] + InsertByTag(g, []);
    }
  }

  /** Both entries are leaves, so the key is the text of the first `artifactId` and of
      the first `groupId` below the dependency, in that (sorted) order, whichever order
      the two entries are declared in. */
  lemma DependencyKeyIsArtifactThenGroup(dep: Node)
    requires dep.Element?
    requires FirstBelow(dep, "artifactId").Some? && FirstBelow(dep, "groupId").Some?
    ensures GetId(dep, DependencyKey()) ==
            Ok([TextOf(FirstBelow(dep, "artifactId").value.children),
                TextOf(FirstBelow(dep, "groupId").value.children)])
    ensures GetId(dep, [KeyField("groupId", Leaf), KeyField("artifactId", Leaf)])
            == GetId(dep, DependencyKey())
  {
    var a := KeyField("artifactId", Leaf);
    var g := KeyField("groupId", Leaf);
    DependencyKeySorted();
    var ta := TextOf(FirstBelow(dep, "artifactId").value.children);
    var tg := TextOf(FirstBelow(dep, "groupId").value.children);
    assert [a, g][1..] == [g] && [g][1..] == [];
    assert [tg] + [] == [tg] && [ta] + [tg] == [ta, tg];
    assert IdOfFields(dep, [g]) == Ok([tg]);
    assert IdOfFields(dep, [a, g]) == Ok([ta, tg]);
  }

  /** A dependency with an `artifactId` but no `groupId` below it has no key. */
  lemma DependencyWithoutGroupFails(dep: Node)
    requires dep.Element?
    requires FirstBelow(dep, "artifactId").Some? && FirstBelow(dep, "groupId").None?
    ensures GetId(dep, DependencyKey()) == Err(MissingKeyField("groupId"))
  {
    var a := KeyField("artifactId", Leaf);
    var g := KeyField("groupId", Leaf);
    DependencyKeySorted();
    assert [a, g][1..] == [g];
    assert IdOfFields(dep, [g]) == Err(MissingKeyField("groupId"));
  }

  /** A plugin's key is the text of the first `artifactId` below it. */
  lemma PluginKeyIsArtifact(plugin: Node)
    requires plugin.Element?
    requires FirstBelow(plugin, "artifactId").Some?
    ensures GetId(plugin, PluginKey()) == Ok([TextOf(FirstBelow(plugin, "artifactId").value.children)])
  {
    var a := KeyField("artifactId", Leaf);
    assert SortByTag([a]) == InsertByTag(a, []) == [a];
    assert [a][1..] == [];
    var ta := TextOf(FirstBelow(plugin, "artifactId").value.children);
    assert [ta] + [] == [ta];
    assert IdOfFields(plugin, []) == Ok([]);
  }
}
