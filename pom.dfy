/** The POM document (`pomManagement/Pom.py`, class `Pom`): a document element
    `project` holding the header fields (`modelVersion`, `groupId`, `artifactId`,
    `version`, `name`, `packaging`, `url`), the `dependencies` list, the
    `build/plugins` list and the `modules` list.

    The pure part of every operation is a function on the document element; the
    class `Pom` holds the document and its methods replace it by the function's
    result. Raised exceptions become error values. */
module PomDocument {
  import opened Wrappers
  import opened Dom
  import opened PomKeys
  import opened PomMerge

  // ---------------------------------------------------------------------------
  // Errors and the empty scaffold
  // ---------------------------------------------------------------------------

  /** What the Python code raises.
      - `MissingElement(t)`: `getElementsByTagName(t)[0]` on an empty result;
      - `MissingText(t)`: `firstChild.data` when the element has no child;
      - `NotTextChild(t)`: `firstChild.data` or `replaceWholeText` on an element child;
      - `KeyFailure(e)`: `getId` raised during a merge;
      - `BuildPresent`: `addPlugins` handing a node list to `appendChild`;
      - `NoTarget`: `writeOut()` without any file name. */
  datatype PomError =
    | MissingElement(tag: string)
    | MissingText(tag: string)
    | NotTextChild(tag: string)
    | KeyFailure(cause: KeyError)
    | BuildPresent
    | NoTarget

  /** A document element after an operation, and the error that stopped it. The
      operations are not atomic: what happened before the error stays. */
  datatype Outcome = Outcome(root: Node, error: Option<PomError>)

  datatype Attribute = Attribute(name: string, value: string)

  const PomNamespace: string := "http://maven.apache.org/POM/4.0.0"

  /** The three attributes the empty scaffold puts on `project`. */
  function ScaffoldAttributes(): seq<Attribute> {
    [ Attribute("xmlns", PomNamespace),
      Attribute("xmlns:xsi", "http://www.w3.org/2001/XMLSchema-instance"),
      Attribute("xsi:schemaLocation", PomNamespace + " http://maven.apache.org/xsd/maven-4.0.0.xsd") ]
  }

  /** The document element of the empty scaffold. */
  function EmptyProject(): Node {
    Element("project", [])
  }

  // ---------------------------------------------------------------------------
  // Reading and writing one text field
  // ---------------------------------------------------------------------------

  /** What the first child of the first element tagged `t` looks like. */
  function FieldView(root: Node, t: string): FieldText {
    ViewOf(DocFirst(root, t))
  }

  /** `__returnElement(t)`: the data of the first child of the first element
      tagged `t` in the document. */
  function ReadField(root: Node, t: string): (r: Result<string, PomError>)
    ensures r.Ok? <==> FieldView(root, t).TextValue?
    ensures r.Ok? ==> r.value == FieldView(root, t).value
  {
    match FieldView(root, t)
    case NoElement => Err(MissingElement(t))
    case NoFirstChild => Err(MissingText(t))
    case FirstChildNotText => Err(NotTextChild(t))
    case TextValue(v) => Ok(v)
  }

  /** `__checkAndSetTextNode(t, v)`: find the first element tagged `t` in the
      document, or append a new one to the document element; then give it a text
      child `v`, or replace the whole text of its first child, which must be a
      text node. */
  function SetField(root: Node, t: string, v: string): (r: Outcome)
    requires root.Element?
    ensures r.root.Element? && r.root.tag == root.tag
    ensures r.error.Some? ==> r.root == root
  {
    match DocFirst(root, t)
    case None => Outcome(AppendChild(root, Element(t, [Text(v)])), None)
    case Some(e) =>
      if e.children == [] then Outcome(DocUpdate(root, t, [Text(v)]), None)
      else if e.children[0].Element? then Outcome(root, Some(NotTextChild(t)))
      else Outcome(DocUpdate(root, t, ReplaceWholeText(e.children, v)), None)
  }

  /** Setting a field fails exactly when its element exists and starts with an
      element child, and then the document is unchanged. */
  lemma SetFieldFails(root: Node, t: string, v: string)
    requires root.Element?
    ensures SetField(root, t, v).error.Some? <==> FieldView(root, t) == FirstChildNotText
    ensures SetField(root, t, v).error.Some? ==> SetField(root, t, v) == Outcome(root, Some(NotTextChild(t)))
  {
  }

  /** After setting a field it reads the value set, except when an existing text is
      replaced by the empty string: `replaceWholeText('')` removes the text node. */
  lemma SetFieldReads(root: Node, t: string, v: string)
    requires root.Element? && root.tag != t
    requires SetField(root, t, v).error.None?
    ensures v != "" || !FieldView(root, t).TextValue? ==> ReadField(SetField(root, t, v).root, t) == Ok(v)
    ensures v == "" && FieldView(root, t).TextValue? ==> ReadField(SetField(root, t, v).root, t).Err?
  {
    match DocFirst(root, t)
    case None =>
      DocFirstAppend(root, Element(t, [Text(v)]), t);
      FirstInSingle(Element(t, [Text(v)]), t);
    case Some(e) =>
      if e.children == [] {
        DocUpdateFinds(root, t, [Text(v)]);
      } else {
        DocUpdateFinds(root, t, ReplaceWholeText(e.children, v));
      }
  }

  /** What a field that read a text reads after being set to `v`: `v`, or nothing
      readable when `v` is empty. */
  predicate ReadsReset(r: Node, t: string, v: string) {
    if v == "" then ReadField(r, t).Err? else ReadField(r, t) == Ok(v)
  }

  /** What a field reads after being set to `v`, by what it read before: a field
      that held a text is reset, any other reads `v`. */
  predicate ReadsAfterSet(before: Node, after: Node, t: string, v: string) {
    if FieldView(before, t).TextValue? then ReadsReset(after, t, v) else ReadField(after, t) == Ok(v)
  }

  /** Setting field `t` changes neither what another field reads nor how many
      elements carry another tag. */
  lemma SetFieldKeepsOthers(root: Node, t: string, v: string, u: string)
    requires root.Element? && root.tag != t && root.tag != u && u != t
    ensures FieldView(SetField(root, t, v).root, u) == FieldView(root, u)
    ensures CountIn([SetField(root, t, v).root], u) == CountIn([root], u)
  {
    match DocFirst(root, t)
    case None =>
      DocFirstAppend(root, Element(t, [Text(v)]), u);
      FirstInSingle(Element(t, [Text(v)]), u);
      TextLeafHoldsNothing(t, v, u);
    case Some(e) =>
      if e.children == [] {
        FirstInSingle(Text(v), u);
        DocUpdateKeepsOthers(root, t, [Text(v)], u);
      } else if e.children[0].Text? {
        ReplaceWholeTextKeepsElements(e.children, v, u);
        DocUpdateKeepsOthers(root, t, ReplaceWholeText(e.children, v), u);
      }
  }

  /** Setting a field creates its element only when there is none: afterwards there
      is at least one, and never one more than before unless there was none. */
  lemma SetFieldCount(root: Node, t: string, v: string)
    requires root.Element? && root.tag != t
    ensures CountIn([SetField(root, t, v).root], t) == if CountIn([root], t) == 0 then 1 else CountIn([root], t)
  {
    match DocFirst(root, t)
    case None =>
      DocFirstAppend(root, Element(t, [Text(v)]), t);
      FirstInSingle(Element(t, [Text(v)]), t);
      TextLeafHoldsNothing(t, v, t);
    case Some(e) =>
      if e.children == [] {
        FirstInSingle(Text(v), t);
        UpdateFirstCount([root], t, [Text(v)], t);
      } else if e.children[0].Text? {
        var cs := ReplaceWholeText(e.children, v);
        ReplaceWholeTextKeepsElements(e.children, v, t);
        UpdateFirstCount([root], t, cs, t);
      }
  }

  /** A field whose first element already holds `cs`, which `replaceWholeText`
      leaves as it is, is set without any change. */
  lemma SetFieldStable(r: Node, t: string, v: string, cs: seq<Node>)
    requires r.Element? && DocFirst(r, t) == Some(Element(t, cs))
    requires cs != [] && cs[0].Text? && ReplaceWholeText(cs, v) == cs
    ensures SetField(r, t, v) == Outcome(r, None)
  {
    UpdateFirstSame([r], t, cs);
    assert DocUpdate(r, t, cs) == r;
  }

  /** A field just created holds one text node with the value. */
  lemma SetFieldCreates(root: Node, t: string, v: string)
    requires root.Element? && root.tag != t && DocFirst(root, t).None?
    ensures DocFirst(SetField(root, t, v).root, t) == Some(Element(t, [Text(v)]))
  {
    DocFirstAppend(root, Element(t, [Text(v)]), t);
    FirstInSingle(Element(t, [Text(v)]), t);
  }

  /** After setting a non-empty value, the field's element holds children that a
      second `replaceWholeText` with the same value leaves as they are. */
  lemma SetFieldSettles(root: Node, t: string, v: string) returns (cs: seq<Node>)
    requires root.Element? && root.tag != t && v != ""
    requires SetField(root, t, v).error.None?
    ensures DocFirst(SetField(root, t, v).root, t) == Some(Element(t, cs))
    ensures cs != [] && cs[0].Text? && ReplaceWholeText(cs, v) == cs
  {
    if DocFirst(root, t).None? {
      cs := [Text(v)];
      SetFieldCreates(root, t, v);
    } else {
      var e := DocFirst(root, t).value;
      if e.children == [] {
        cs := [Text(v)];
      } else {
        cs := ReplaceWholeText(e.children, v);
        ReplaceWholeTextIdempotent(e.children, v);
      }
      assert SetField(root, t, v).root == DocUpdate(root, t, cs);
      DocUpdateFinds(root, t, cs);
    }
    assert ReplaceWholeText(cs, v) == cs;
  }

  /** Setting a field a second time to the same non-empty value changes nothing. */
  lemma SetFieldIdempotent(root: Node, t: string, v: string)
    requires root.Element? && root.tag != t && v != ""
    requires SetField(root, t, v).error.None?
    ensures SetField(SetField(root, t, v).root, t, v) == SetField(root, t, v)
  {
    var cs := SetFieldSettles(root, t, v);
    SetFieldStable(SetField(root, t, v).root, t, v, cs);
  }

  // ---------------------------------------------------------------------------
  // The header
  // ---------------------------------------------------------------------------

  datatype Field = Field(tag: string, value: string)

  /** The fields in the order `provideHead` sets them; `name` and `url` only when
      given. */
  function HeadFields(groupId: string, artifact: string, version: string, name: Option<string>,
                      packaging: string, url: Option<string>): (r: seq<Field>)
    ensures |r| >= 5 && r[0] == Field("modelVersion", "4.0.0")
    ensures forall i :: 0 <= i < |r| ==> r[i].tag in HeadTags
  {
    [Field("modelVersion", "4.0.0"), Field("groupId", groupId), Field("artifactId", artifact),
     Field("version", version)]
    + (if name.Some? then [Field("name", name.value)] else [])
    + [Field("packaging", packaging)]
    + (if url.Some? then [Field("url", url.value)] else [])
  }

  predicate DistinctTags(fs: seq<Field>) {
    forall i, j :: 0 <= i < j < |fs| ==> fs[i].tag != fs[j].tag
  }

  predicate HasTag(fs: seq<Field>, t: string) {
    exists i :: 0 <= i < |fs| && fs[i].tag == t
  }

  /** The fields set one after the other; the first failure stops the sequence and
      the fields set before it stay set. */
  function SetFields(root: Node, fs: seq<Field>): (r: Outcome)
    requires root.Element?
    ensures r.root.Element? && r.root.tag == root.tag
    decreases |fs|
  {
    if fs == [] then Outcome(root, None)
    else
      var o := SetField(root, fs[0].tag, fs[0].value);
      if o.error.Some? then o else SetFields(o.root, fs[1..])
  }

  /** One step of `SetFields`, stated about the outcome of the first field. */
  lemma SetFieldsCons(root: Node, f: Field, fs: seq<Field>, o: Outcome)
    requires root.Element? && o == SetField(root, f.tag, f.value)
    ensures SetFields(root, [f] + fs) == if o.error.Some? then o else SetFields(o.root, fs)
  {
    assert ([f] + fs)[0] == f && ([f] + fs)[1..] == fs;
  }

  /** One call of a sequence of field updates that is to reach `goal`: a failure is
      the goal, and otherwise the rest of the sequence still reaches it. */
  lemma SetFieldsStep(prev: Node, f: Field, rest: seq<Field>, o: Outcome, goal: Outcome)
    requires prev.Element? && o == SetField(prev, f.tag, f.value)
    requires SetFields(prev, [f] + rest) == goal
    ensures o.error.Some? ==> o == goal
    ensures o.error.None? ==> SetFields(o.root, rest) == goal
  {
    SetFieldsCons(prev, f, rest, o);
  }

  /** Fields other than those set keep what they read and how many elements carry
      their tag. */
  lemma {:induction false} SetFieldsKeepsOthers(root: Node, fs: seq<Field>, u: string)
    requires root.Element? && root.tag != u && !HasTag(fs, u)
    requires forall i :: 0 <= i < |fs| ==> fs[i].tag != root.tag
    ensures FieldView(SetFields(root, fs).root, u) == FieldView(root, u)
    ensures CountIn([SetFields(root, fs).root], u) == CountIn([root], u)
    decreases |fs|
  {
    if fs != [] {
      var o := SetField(root, fs[0].tag, fs[0].value);
      if o.error.None? {
        assert fs[0].tag != u;
        SetFieldKeepsOthers(root, fs[0].tag, fs[0].value, u);
        assert !HasTag(fs[1..], u);
        SetFieldsKeepsOthers(o.root, fs[1..], u);
      }
    }
  }

  /** The sequence succeeds exactly when none of its fields starts with an element
      child beforehand. */
  lemma {:induction false} SetFieldsSucceeds(root: Node, fs: seq<Field>)
    requires root.Element? && DistinctTags(fs)
    requires forall i :: 0 <= i < |fs| ==> fs[i].tag != root.tag
    ensures SetFields(root, fs).error.None? <==>
            forall i :: 0 <= i < |fs| ==> FieldView(root, fs[i].tag) != FirstChildNotText
    decreases |fs|
  {
    if fs != [] {
      var o := SetField(root, fs[0].tag, fs[0].value);
      SetFieldFails(root, fs[0].tag, fs[0].value);
      if o.error.None? {
        var rest := fs[1..];
        forall i | 0 <= i < |rest| ensures FieldView(o.root, rest[i].tag) == FieldView(root, rest[i].tag) {
          assert rest[i] == fs[i + 1];
          SetFieldKeepsOthers(root, fs[0].tag, fs[0].value, rest[i].tag);
        }
        SetFieldsSucceeds(o.root, rest);
        assert forall i :: 0 < i < |fs| ==> fs[i] == rest[i - 1];
      }
    }
  }

  /** After a successful sequence every field set reads what setting it alone
      would leave: its value, or nothing readable where an existing text was reset
      to the empty string. */
  lemma {:induction false} SetFieldsReads(root: Node, fs: seq<Field>)
    requires root.Element? && DistinctTags(fs)
    requires forall i :: 0 <= i < |fs| ==> fs[i].tag != root.tag
    requires SetFields(root, fs).error.None?
    ensures forall i :: 0 <= i < |fs| ==> ReadsAfterSet(root, SetFields(root, fs).root, fs[i].tag, fs[i].value)
    decreases |fs|
  {
    if fs != [] {
      var o := SetField(root, fs[0].tag, fs[0].value);
      var rest := fs[1..];
      var r := SetFields(o.root, rest).root;
      SetFieldReads(root, fs[0].tag, fs[0].value);
      assert !HasTag(rest, fs[0].tag);
      SetFieldsKeepsOthers(o.root, rest, fs[0].tag);
      SetFieldsReads(o.root, rest);
      forall i | 0 < i < |fs| ensures ReadsAfterSet(root, r, fs[i].tag, fs[i].value) {
        assert fs[i] == rest[i - 1];
        SetFieldKeepsOthers(root, fs[0].tag, fs[0].value, fs[i].tag);
      }
    }
  }

  /** Each field set ends with at least one element of its tag, and with no more
      than it had when it had one. */
  lemma {:induction false} SetFieldsCount(root: Node, fs: seq<Field>, t: string)
    requires root.Element? && DistinctTags(fs) && HasTag(fs, t)
    requires forall i :: 0 <= i < |fs| ==> fs[i].tag != root.tag
    requires SetFields(root, fs).error.None?
    ensures CountIn([SetFields(root, fs).root], t) == if CountIn([root], t) == 0 then 1 else CountIn([root], t)
    decreases |fs|
  {
    var o := SetField(root, fs[0].tag, fs[0].value);
    var rest := fs[1..];
    if fs[0].tag == t {
      SetFieldCount(root, t, fs[0].value);
      assert !HasTag(rest, t);
      SetFieldsKeepsOthers(o.root, rest, t);
    } else {
      SetFieldKeepsOthers(root, fs[0].tag, fs[0].value, t);
      var i :| 0 <= i < |fs| && fs[i].tag == t;
      assert rest[i - 1].tag == t;
      SetFieldsCount(o.root, rest, t);
    }
  }

  /** The fields of a header call have distinct tags, none of them `project`. */
  lemma HeadFieldsDistinct(groupId: string, artifact: string, version: string, name: Option<string>,
                           packaging: string, url: Option<string>)
    ensures DistinctTags(HeadFields(groupId, artifact, version, name, packaging, url))
    ensures forall i :: 0 <= i < |HeadFields(groupId, artifact, version, name, packaging, url)| ==>
              HeadFields(groupId, artifact, version, name, packaging, url)[i].tag != "project"
  {
  }

  /** The header fields as the one-by-one calls of `provideHead` consume them. */
  lemma HeadFieldsSplit(groupId: string, artifact: string, version: string, name: Option<string>,
                        packaging: string, url: Option<string>)
    ensures HeadFields(groupId, artifact, version, name, packaging, url) ==
            [Field("modelVersion", "4.0.0")] + ([Field("groupId", groupId)] + ([Field("artifactId", artifact)] +
            ([Field("version", version)] + ((if name.Some? then [Field("name", name.value)] else []) +
            ([Field("packaging", packaging)] + (if url.Some? then [Field("url", url.value)] else []))))))
  {
  }

  /** Where each header field sits in the sequence `provideHead` consumes. */
  lemma HeadFieldsAt(groupId: string, artifact: string, version: string, name: Option<string>,
                     packaging: string, url: Option<string>)
    ensures var fs := HeadFields(groupId, artifact, version, name, packaging, url);
            var n := if name.Some? then 1 else 0;
            |fs| == 5 + n + (if url.Some? then 1 else 0) &&
            fs[0] == Field("modelVersion", "4.0.0") && fs[1] == Field("groupId", groupId) &&
            fs[2] == Field("artifactId", artifact) && fs[3] == Field("version", version) &&
            fs[4 + n] == Field("packaging", packaging) &&
            (name.Some? ==> fs[4] == Field("name", name.value)) &&
            (url.Some? ==> fs[5 + n] == Field("url", url.value))
  {
  }

  /** Non-empty arguments give non-empty field values. */
  lemma HeadFieldsNonEmpty(groupId: string, artifact: string, version: string, name: Option<string>,
                           packaging: string, url: Option<string>)
    requires groupId != "" && artifact != "" && version != "" && packaging != ""
    requires (name.Some? ==> name.value != "") && (url.Some? ==> url.value != "")
    ensures forall i :: 0 <= i < |HeadFields(groupId, artifact, version, name, packaging, url)| ==>
              HeadFields(groupId, artifact, version, name, packaging, url)[i].value != ""
  {
    HeadFieldsAt(groupId, artifact, version, name, packaging, url);
  }

  /** Which tags a header call sets: the five fixed ones, and `name` and `url` when
      they are given. */
  lemma HeadFieldsTags(groupId: string, artifact: string, version: string, name: Option<string>,
                       packaging: string, url: Option<string>, t: string)
    ensures HasTag(HeadFields(groupId, artifact, version, name, packaging, url), t) <==>
            t in ["modelVersion", "groupId", "artifactId", "version", "packaging"] ||
            (t == "name" && name.Some?) || (t == "url" && url.Some?)
  {
    var fs := HeadFields(groupId, artifact, version, name, packaging, url);
    if t == "name" && name.Some? {
      assert fs[4].tag == t;
    }
    if t == "packaging" {
      assert fs[if name.Some? then 5 else 4].tag == t;
    }
    if t == "url" && url.Some? {
      assert fs[|fs| - 1].tag == t;
    }
    if t in ["modelVersion", "groupId", "artifactId", "version"] {
      assert fs[0].tag == "modelVersion" && fs[1].tag == "groupId" && fs[2].tag == "artifactId" && fs[3].tag == "version";
    }
  }

  /** `getHead()`: the six header fields, read in this order; the first one that
      cannot be read raises. */
  datatype Header = Header(groupId: string, artifactId: string, version: string, name: string,
                           packaging: string, url: string)

  function HeadOf(root: Node): (r: Result<Header, PomError>)
    ensures r.Ok? ==> ReadField(root, "groupId") == Ok(r.value.groupId) &&
                      ReadField(root, "artifactId") == Ok(r.value.artifactId) &&
                      ReadField(root, "version") == Ok(r.value.version) &&
                      ReadField(root, "name") == Ok(r.value.name) &&
                      ReadField(root, "packaging") == Ok(r.value.packaging) &&
                      ReadField(root, "url") == Ok(r.value.url)
  {
    var groupId :- ReadField(root, "groupId");
    var artifactId :- ReadField(root, "artifactId");
    var version :- ReadField(root, "version");
    var name :- ReadField(root, "name");
    var packaging :- ReadField(root, "packaging");
    var url :- ReadField(root, "url");
    Ok(Header(groupId, artifactId, version, name, packaging, url))
  }

  /** The header is read exactly when all six fields read, and it holds their
      values; `name` and `url` are not optional. */
  lemma HeadOfReads(root: Node, h: Header)
    ensures HeadOf(root) == Ok(h) <==>
            ReadField(root, "groupId") == Ok(h.groupId) && ReadField(root, "artifactId") == Ok(h.artifactId) &&
            ReadField(root, "version") == Ok(h.version) && ReadField(root, "name") == Ok(h.name) &&
            ReadField(root, "packaging") == Ok(h.packaging) && ReadField(root, "url") == Ok(h.url)
  {
  }

  /** The header read fails with the error of the first field, in reading order,
      that does not read. */
  lemma HeadOfFails(root: Node)
    ensures HeadOf(root).Err? <==>
            exists t :: t in ["groupId", "artifactId", "version", "name", "packaging", "url"] && ReadField(root, t).Err?
    ensures ReadField(root, "groupId").Err? ==> HeadOf(root) == Err(ReadField(root, "groupId").error)
  {
    if HeadOf(root).Err? {
      if ReadField(root, "groupId").Err? {
        assert "groupId" in ["groupId", "artifactId", "version", "name", "packaging", "url"];
      } else if ReadField(root, "artifactId").Err? {
        assert "artifactId" in ["groupId", "artifactId", "version", "name", "packaging", "url"];
      } else if ReadField(root, "version").Err? {
        assert "version" in ["groupId", "artifactId", "version", "name", "packaging", "url"];
      } else if ReadField(root, "name").Err? {
        assert "name" in ["groupId", "artifactId", "version", "name", "packaging", "url"];
      } else if ReadField(root, "packaging").Err? {
        assert "packaging" in ["groupId", "artifactId", "version", "name", "packaging", "url"];
      } else {
        assert "url" in ["groupId", "artifactId", "version", "name", "packaging", "url"];
      }
    }
  }

  // ---------------------------------------------------------------------------
  // Properties of `provideHead`
  // ---------------------------------------------------------------------------

  /** `provideHead(groupId, artifact, version, name, packaging, url)`. */
  function ProvideHeadOf(root: Node, groupId: string, artifact: string, version: string,
                         name: Option<string>, packaging: string, url: Option<string>): (r: Outcome)
    requires root.Element?
    ensures r.root.Element? && r.root.tag == root.tag
  {
    SetFields(root, HeadFields(groupId, artifact, version, name, packaging, url))
  }

  /** After a successful `provideHead`, `modelVersion` reads `4.0.0` and every field
      given reads its value, except that a field which held a text and is given
      the empty string has no text left to read. */
  lemma ProvideHeadReads(root: Node, groupId: string, artifact: string, version: string,
                         name: Option<string>, packaging: string, url: Option<string>)
    requires root.Element? && root.tag == "project"
    requires ProvideHeadOf(root, groupId, artifact, version, name, packaging, url).error.None?
    ensures var r := ProvideHeadOf(root, groupId, artifact, version, name, packaging, url).root;
            ReadField(r, "modelVersion") == Ok("4.0.0") &&
            ReadsAfterSet(root, r, "groupId", groupId) && ReadsAfterSet(root, r, "artifactId", artifact) &&
            ReadsAfterSet(root, r, "version", version) && ReadsAfterSet(root, r, "packaging", packaging) &&
            (name.Some? ==> ReadsAfterSet(root, r, "name", name.value)) &&
            (url.Some? ==> ReadsAfterSet(root, r, "url", url.value))
  {
    var fs := HeadFields(groupId, artifact, version, name, packaging, url);
    HeadFieldsDistinct(groupId, artifact, version, name, packaging, url);
    SetFieldsReads(root, fs);
    HeadFieldsAt(groupId, artifact, version, name, packaging, url);
  }

  /** A `name` or `url` that is not given is left as it was: same reading, same
      number of elements. */
  lemma ProvideHeadSkipsAbsent(root: Node, groupId: string, artifact: string, version: string,
                               name: Option<string>, packaging: string, url: Option<string>, t: string)
    requires root.Element? && root.tag == "project"
    requires (t == "name" && name.None?) || (t == "url" && url.None?)
    ensures var r := ProvideHeadOf(root, groupId, artifact, version, name, packaging, url).root;
            FieldView(r, t) == FieldView(root, t) && CountIn([r], t) == CountIn([root], t)
  {
    var fs := HeadFields(groupId, artifact, version, name, packaging, url);
    HeadFieldsDistinct(groupId, artifact, version, name, packaging, url);
    HeadFieldsTags(groupId, artifact, version, name, packaging, url, t);
    SetFieldsKeepsOthers(root, fs, t);
  }

  /** `provideHead` fails exactly when one of the fields it sets starts with an
      element child beforehand. */
  lemma ProvideHeadSucceeds(root: Node, groupId: string, artifact: string, version: string,
                            name: Option<string>, packaging: string, url: Option<string>)
    requires root.Element? && root.tag == "project"
    ensures var fs := HeadFields(groupId, artifact, version, name, packaging, url);
            ProvideHeadOf(root, groupId, artifact, version, name, packaging, url).error.None? <==>
            forall i :: 0 <= i < |fs| ==> FieldView(root, fs[i].tag) != FirstChildNotText
  {
    HeadFieldsDistinct(groupId, artifact, version, name, packaging, url);
    SetFieldsSucceeds(root, HeadFields(groupId, artifact, version, name, packaging, url));
  }

  /** A second `provideHead` over fields that all read a text, setting no field the
      first call left out, succeeds, resets each field it sets (an empty value
      leaves no text to read) and adds no element. */
  lemma ProvideHeadAgain(root: Node, groupId: string, artifact: string, version: string,
                         name: Option<string>, packaging: string, url: Option<string>,
                         groupId2: string, artifact2: string, version2: string,
                         name2: Option<string>, packaging2: string, url2: Option<string>)
    requires root.Element? && root.tag == "project"
    requires (name2.Some? ==> name.Some?) && (url2.Some? ==> url.Some?)
    requires ProvideHeadOf(root, groupId, artifact, version, name, packaging, url).error.None?
    requires var r1 := ProvideHeadOf(root, groupId, artifact, version, name, packaging, url).root;
             forall t :: HasTag(HeadFields(groupId, artifact, version, name, packaging, url), t) ==>
               FieldView(r1, t).TextValue?
    ensures var r1 := ProvideHeadOf(root, groupId, artifact, version, name, packaging, url).root;
            var o2 := ProvideHeadOf(r1, groupId2, artifact2, version2, name2, packaging2, url2);
            o2.error.None? &&
            ReadsReset(o2.root, "groupId", groupId2) && ReadsReset(o2.root, "artifactId", artifact2) &&
            ReadsReset(o2.root, "version", version2) && ReadsReset(o2.root, "packaging", packaging2) &&
            (name2.Some? ==> ReadsReset(o2.root, "name", name2.value)) &&
            (url2.Some? ==> ReadsReset(o2.root, "url", url2.value))
    ensures var r1 := ProvideHeadOf(root, groupId, artifact, version, name, packaging, url).root;
            var o2 := ProvideHeadOf(r1, groupId2, artifact2, version2, name2, packaging2, url2);
            forall t :: t != "project" ==> CountIn([o2.root], t) == CountIn([r1], t)
  {
    var fs1 := HeadFields(groupId, artifact, version, name, packaging, url);
    var fs2 := HeadFields(groupId2, artifact2, version2, name2, packaging2, url2);
    var r1 := SetFields(root, fs1).root;
    forall t | HasTag(fs2, t) ensures HasTag(fs1, t) {
      HeadFieldsTags(groupId2, artifact2, version2, name2, packaging2, url2, t);
      HeadFieldsTags(groupId, artifact, version, name, packaging, url, t);
    }
    ProvideHeadAgainSucceeds(r1, fs1, groupId2, artifact2, version2, name2, packaging2, url2);
    ProvideHeadReads(r1, groupId2, artifact2, version2, name2, packaging2, url2);
    forall t | t in ["groupId", "artifactId", "version", "packaging"] || (t == "name" && name.Some?) || (t == "url" && url.Some?)
      ensures FieldView(r1, t).TextValue?
    {
      HeadFieldsTags(groupId, artifact, version, name, packaging, url, t);
    }
    ProvideHeadAgainCounts(root, groupId, artifact, version, name, packaging, url,
                           groupId2, artifact2, version2, name2, packaging2, url2);
  }

  /** A `provideHead` over a document in which every field it sets reads a text
      succeeds. */
  lemma ProvideHeadAgainSucceeds(r1: Node, fs1: seq<Field>, groupId2: string, artifact2: string, version2: string,
                                 name2: Option<string>, packaging2: string, url2: Option<string>)
    requires r1.Element? && r1.tag == "project"
    requires forall t :: HasTag(fs1, t) ==> FieldView(r1, t).TextValue?
    requires forall t :: HasTag(HeadFields(groupId2, artifact2, version2, name2, packaging2, url2), t) ==> HasTag(fs1, t)
    ensures ProvideHeadOf(r1, groupId2, artifact2, version2, name2, packaging2, url2).error.None?
  {
    var fs2 := HeadFields(groupId2, artifact2, version2, name2, packaging2, url2);
    HeadFieldsDistinct(groupId2, artifact2, version2, name2, packaging2, url2);
    forall i | 0 <= i < |fs2| ensures FieldView(r1, fs2[i].tag) != FirstChildNotText {
      assert HasTag(fs2, fs2[i].tag);
    }
    SetFieldsSucceeds(r1, fs2);
  }

  /** A successful second `provideHead` that sets no field the first call left out
      adds no element. */
  lemma ProvideHeadAgainCounts(root: Node, groupId: string, artifact: string, version: string,
                               name: Option<string>, packaging: string, url: Option<string>,
                               groupId2: string, artifact2: string, version2: string,
                               name2: Option<string>, packaging2: string, url2: Option<string>)
    requires root.Element? && root.tag == "project"
    requires (name2.Some? ==> name.Some?) && (url2.Some? ==> url.Some?)
    requires ProvideHeadOf(root, groupId, artifact, version, name, packaging, url).error.None?
    requires var r1 := ProvideHeadOf(root, groupId, artifact, version, name, packaging, url).root;
             ProvideHeadOf(r1, groupId2, artifact2, version2, name2, packaging2, url2).error.None?
    ensures var r1 := ProvideHeadOf(root, groupId, artifact, version, name, packaging, url).root;
            var o2 := ProvideHeadOf(r1, groupId2, artifact2, version2, name2, packaging2, url2);
            forall t :: t != "project" ==> CountIn([o2.root], t) == CountIn([r1], t)
  {
    var fs1 := HeadFields(groupId, artifact, version, name, packaging, url);
    var fs2 := HeadFields(groupId2, artifact2, version2, name2, packaging2, url2);
    var r1 := SetFields(root, fs1).root;
    HeadFieldsDistinct(groupId, artifact, version, name, packaging, url);
    HeadFieldsDistinct(groupId2, artifact2, version2, name2, packaging2, url2);
    forall t | t != "project" ensures CountIn([SetFields(r1, fs2).root], t) == CountIn([r1], t) {
      HeadFieldsTags(groupId2, artifact2, version2, name2, packaging2, url2, t);
      HeadFieldsTags(groupId, artifact, version, name, packaging, url, t);
      SetFieldsAgainCounts(root, fs1, fs2, t);
    }
  }

  /** After a `provideHead` with non-empty values, a second `provideHead` with any
      values, setting no field the first call left out, succeeds, resets each field
      it sets (an empty value leaves no text to read) and adds no element: it
      replaces the texts in place. */
  lemma ProvideHeadTwice(root: Node, groupId: string, artifact: string, version: string,
                         name: Option<string>, packaging: string, url: Option<string>,
                         groupId2: string, artifact2: string, version2: string,
                         name2: Option<string>, packaging2: string, url2: Option<string>)
    requires root.Element? && root.tag == "project"
    requires groupId != "" && artifact != "" && version != "" && packaging != ""
    requires (name.Some? ==> name.value != "") && (url.Some? ==> url.value != "")
    requires (name2.Some? ==> name.Some?) && (url2.Some? ==> url.Some?)
    requires ProvideHeadOf(root, groupId, artifact, version, name, packaging, url).error.None?
    ensures var r1 := ProvideHeadOf(root, groupId, artifact, version, name, packaging, url).root;
            var o2 := ProvideHeadOf(r1, groupId2, artifact2, version2, name2, packaging2, url2);
            o2.error.None? &&
            ReadsReset(o2.root, "groupId", groupId2) && ReadsReset(o2.root, "artifactId", artifact2) &&
            ReadsReset(o2.root, "version", version2) && ReadsReset(o2.root, "packaging", packaging2) &&
            (name2.Some? ==> ReadsReset(o2.root, "name", name2.value)) &&
            (url2.Some? ==> ReadsReset(o2.root, "url", url2.value))
    ensures var r1 := ProvideHeadOf(root, groupId, artifact, version, name, packaging, url).root;
            var o2 := ProvideHeadOf(r1, groupId2, artifact2, version2, name2, packaging2, url2);
            forall t :: t != "project" ==> CountIn([o2.root], t) == CountIn([r1], t)
  {
    var fs1 := HeadFields(groupId, artifact, version, name, packaging, url);
    var r1 := SetFields(root, fs1).root;
    HeadFieldsDistinct(groupId, artifact, version, name, packaging, url);
    HeadFieldsNonEmpty(groupId, artifact, version, name, packaging, url);
    SetFieldsReads(root, fs1);
    forall t | HasTag(fs1, t) ensures FieldView(r1, t).TextValue? {
      var i :| 0 <= i < |fs1| && fs1[i].tag == t;
      assert ReadsAfterSet(root, r1, t, fs1[i].value);
    }
    ProvideHeadAgain(root, groupId, artifact, version, name, packaging, url,
                     groupId2, artifact2, version2, name2, packaging2, url2);
  }

  /** Setting again only tags that were set before changes no count. */
  lemma SetFieldsAgainCounts(root: Node, fs1: seq<Field>, fs2: seq<Field>, t: string)
    requires root.Element? && root.tag != t && DistinctTags(fs1) && DistinctTags(fs2)
    requires forall i :: 0 <= i < |fs1| ==> fs1[i].tag != root.tag
    requires forall i :: 0 <= i < |fs2| ==> fs2[i].tag != root.tag
    requires SetFields(root, fs1).error.None?
    requires SetFields(SetFields(root, fs1).root, fs2).error.None?
    requires HasTag(fs2, t) ==> HasTag(fs1, t)
    ensures CountIn([SetFields(SetFields(root, fs1).root, fs2).root], t) == CountIn([SetFields(root, fs1).root], t)
  {
    var r1 := SetFields(root, fs1).root;
    if HasTag(fs2, t) {
      SetFieldsCount(root, fs1, t);
      SetFieldsCount(r1, fs2, t);
    } else {
      SetFieldsKeepsOthers(r1, fs2, t);
    }
  }

  // ---------------------------------------------------------------------------
  // `provideHead` on a document without header fields
  // ---------------------------------------------------------------------------

  /** The element a field becomes when it is created: the tag with one text child. */
  function Leaf(f: Field): Node {
    Element(f.tag, [Text(f.value)])
  }

  function Leaves(fs: seq<Field>): (r: seq<Node>)
    ensures |r| == |fs|
    ensures forall i :: 0 <= i < |fs| ==> r[i] == Leaf(fs[i])
  {
    if fs == [] then [] else [Leaf(fs[0])] + Leaves(fs[1..])
  }

  /** Among created fields, the first element with a field's tag is that field's. */
  lemma {:induction false} LeavesFind(fs: seq<Field>, i: nat)
    requires DistinctTags(fs) && i < |fs|
    ensures FirstIn(Leaves(fs), fs[i].tag) == Some(Leaf(fs[i]))
  {
    var l := Leaves(fs);
    assert l == [Leaf(fs[0])] + Leaves(fs[1..]);
    FirstInConcat([Leaf(fs[0])], Leaves(fs[1..]), fs[i].tag);
    FirstInSingle(Leaf(fs[0]), fs[i].tag);
    if i > 0 {
      TextLeafHoldsNothing(fs[0].tag, fs[0].value, fs[i].tag);
      assert fs[1..][i - 1] == fs[i];
      LeavesFind(fs[1..], i - 1);
    }
  }

  /** Created fields hold no element with a tag none of them has. */
  lemma {:induction false} LeavesMiss(fs: seq<Field>, u: string)
    requires !HasTag(fs, u)
    ensures CountIn(Leaves(fs), u) == 0
  {
    if fs != [] {
      var l := Leaves(fs);
      assert l == [Leaf(fs[0])] + Leaves(fs[1..]);
      FirstInConcat([Leaf(fs[0])], Leaves(fs[1..]), u);
      FirstInSingle(Leaf(fs[0]), u);
      TextLeafHoldsNothing(fs[0].tag, fs[0].value, u);
      assert fs[0].tag != u;
      assert !HasTag(fs[1..], u) by {
        forall i | 0 <= i < |fs[1..]| ensures fs[1..][i].tag != u {
          assert fs[1..][i] == fs[i + 1];
        }
      }
      LeavesMiss(fs[1..], u);
    }
  }

  /** A field whose tag does not occur yet is created as a leaf at the end. */
  lemma SetFieldFresh(root: Node, f: Field)
    requires root.Element? && f.tag != root.tag && CountIn([root], f.tag) == 0
    ensures SetField(root, f.tag, f.value) == Outcome(AppendChild(root, Leaf(f)), None)
  {
  }

  /** Appending a leaf adds no element of another tag. */
  lemma AppendLeafCount(root: Node, f: Field, u: string)
    requires root.Element? && root.tag != u && f.tag != u
    ensures CountIn([AppendChild(root, Leaf(f))], u) == CountIn([root], u)
  {
    DocFirstAppend(root, Leaf(f), u);
    FirstInSingle(Leaf(f), u);
    TextLeafHoldsNothing(f.tag, f.value, u);
  }

  /** Appending the first leaf, then the rest, appends all of them. */
  lemma LeavesAfter(cs: seq<Node>, fs: seq<Field>)
    requires fs != []
    ensures (cs + [Leaf(fs[0])]) + Leaves(fs[1..]) == cs + Leaves(fs)
  {
    assert Leaves(fs) == [Leaf(fs[0])] + Leaves(fs[1..]);
  }

  /** What `SetFieldsFresh` demands still holds of the remaining fields once the
      first one is created. */
  lemma FreshTail(root: Node, fs: seq<Field>)
    requires root.Element? && DistinctTags(fs) && fs != []
    requires forall i :: 0 <= i < |fs| ==> fs[i].tag != root.tag && CountIn([root], fs[i].tag) == 0
    ensures var r1 := AppendChild(root, Leaf(fs[0]));
            DistinctTags(fs[1..]) &&
            forall i :: 0 <= i < |fs[1..]| ==> fs[1..][i].tag != r1.tag && CountIn([r1], fs[1..][i].tag) == 0
  {
    var r1 := AppendChild(root, Leaf(fs[0]));
    var rest := fs[1..];
    forall i, j | 0 <= i < j < |rest| ensures rest[i].tag != rest[j].tag {
      assert rest[i] == fs[i + 1] && rest[j] == fs[j + 1];
    }
    forall i | 0 <= i < |rest| ensures rest[i].tag != r1.tag && CountIn([r1], rest[i].tag) == 0 {
      assert rest[i] == fs[i + 1];
      AppendLeafCount(root, fs[0], rest[i].tag);
    }
  }

  /** Fields none of whose tags occurs yet are all created, in order, at the end of
      the document element, each with its value as its only child. */
  lemma {:induction false} SetFieldsFresh(root: Node, fs: seq<Field>)
    requires root.Element? && DistinctTags(fs)
    requires forall i :: 0 <= i < |fs| ==> fs[i].tag != root.tag && CountIn([root], fs[i].tag) == 0
    ensures SetFields(root, fs) == Outcome(Element(root.tag, root.children + Leaves(fs)), None)
    decreases |fs|
  {
    if fs == [] {
      assert root.children + [] == root.children;
    } else {
      var r1 := AppendChild(root, Leaf(fs[0]));
      assert SetFields(root, fs) == SetFields(r1, fs[1..]) by {
        SetFieldFresh(root, fs[0]);
      }
      FreshTail(root, fs);
      SetFieldsFresh(r1, fs[1..]);
      LeavesAfter(root.children, fs);
    }
  }

  /** A `project` holding just the leaves of fields with distinct tags reads every
      field's value. */
  lemma {:induction false} LeavesRead(fs: seq<Field>, i: nat)
    requires DistinctTags(fs) && i < |fs| && fs[i].tag != "project"
    ensures ReadField(Element("project", Leaves(fs)), fs[i].tag) == Ok(fs[i].value)
  {
    LeavesFind(fs, i);
    FirstInSingle(Element("project", Leaves(fs)), fs[i].tag);
  }

  /** `provideHead` on the empty scaffold never fails and builds the header as the
      only children of `project`, in the order of the call. */
  lemma ProvideHeadOnScaffold(groupId: string, artifact: string, version: string,
                              name: Option<string>, packaging: string, url: Option<string>)
    ensures ProvideHeadOf(EmptyProject(), groupId, artifact, version, name, packaging, url) ==
            Outcome(Element("project", Leaves(HeadFields(groupId, artifact, version, name, packaging, url))), None)
  {
    var fs := HeadFields(groupId, artifact, version, name, packaging, url);
    HeadFieldsDistinct(groupId, artifact, version, name, packaging, url);
    forall i | 0 <= i < |fs| ensures CountIn([EmptyProject()], fs[i].tag) == 0 {
      FirstInSingle(EmptyProject(), fs[i].tag);
    }
    SetFieldsFresh(EmptyProject(), fs);
    assert EmptyProject().children + Leaves(fs) == Leaves(fs);
  }

  /** On the empty scaffold every field given reads back, empty values included, and
      with `name` and `url` given the whole header reads back. */
  lemma ScaffoldHeadReads(groupId: string, artifact: string, version: string,
                          name: string, packaging: string, url: string)
    ensures var r := ProvideHeadOf(EmptyProject(), groupId, artifact, version, Some(name), packaging, Some(url)).root;
            ReadField(r, "modelVersion") == Ok("4.0.0") &&
            HeadOf(r) == Ok(Header(groupId, artifact, version, name, packaging, url))
  {
    var fs := HeadFields(groupId, artifact, version, Some(name), packaging, Some(url));
    ProvideHeadOnScaffold(groupId, artifact, version, Some(name), packaging, Some(url));
    HeadFieldsDistinct(groupId, artifact, version, Some(name), packaging, Some(url));
    HeadFieldsAt(groupId, artifact, version, Some(name), packaging, Some(url));
    LeavesRead(fs, 0); LeavesRead(fs, 1); LeavesRead(fs, 2); LeavesRead(fs, 3);
    LeavesRead(fs, 4); LeavesRead(fs, 5); LeavesRead(fs, 6);
    HeadOfReads(Element("project", Leaves(fs)), Header(groupId, artifact, version, name, packaging, url));
  }

  /** On the empty scaffold `provideHead` succeeds and every field it sets reads a
      text. */
  lemma ScaffoldHeadTexts(groupId: string, artifact: string, version: string,
                          name: Option<string>, packaging: string, url: Option<string>)
    ensures var o := ProvideHeadOf(EmptyProject(), groupId, artifact, version, name, packaging, url);
            o.error.None? &&
            forall t :: HasTag(HeadFields(groupId, artifact, version, name, packaging, url), t) ==>
              FieldView(o.root, t).TextValue?
  {
    var fs := HeadFields(groupId, artifact, version, name, packaging, url);
    var r := ProvideHeadOf(EmptyProject(), groupId, artifact, version, name, packaging, url).root;
    ProvideHeadOnScaffold(groupId, artifact, version, name, packaging, url);
    HeadFieldsDistinct(groupId, artifact, version, name, packaging, url);
    forall t | HasTag(fs, t) ensures FieldView(r, t).TextValue? {
      var i :| 0 <= i < |fs| && fs[i].tag == t;
      LeavesRead(fs, i);
    }
  }

  /** On the empty scaffold a header can be provided and then reset with any
      values, empty ones included, as long as the reset sets no field the first
      call left out: the reset succeeds, adds no element, and each field it sets
      reads its new value or, when that value is empty, no text. */
  lemma ScaffoldHeadTwice(groupId: string, artifact: string, version: string,
                          name: Option<string>, packaging: string, url: Option<string>,
                          groupId2: string, artifact2: string, version2: string,
                          name2: Option<string>, packaging2: string, url2: Option<string>)
    requires (name2.Some? ==> name.Some?) && (url2.Some? ==> url.Some?)
    ensures var r1 := ProvideHeadOf(EmptyProject(), groupId, artifact, version, name, packaging, url).root;
            var o2 := ProvideHeadOf(r1, groupId2, artifact2, version2, name2, packaging2, url2);
            o2.error.None? &&
            ReadsReset(o2.root, "groupId", groupId2) && ReadsReset(o2.root, "artifactId", artifact2) &&
            ReadsReset(o2.root, "version", version2) && ReadsReset(o2.root, "packaging", packaging2) &&
            (name2.Some? ==> ReadsReset(o2.root, "name", name2.value)) &&
            (url2.Some? ==> ReadsReset(o2.root, "url", url2.value))
    ensures var r1 := ProvideHeadOf(EmptyProject(), groupId, artifact, version, name, packaging, url).root;
            var o2 := ProvideHeadOf(r1, groupId2, artifact2, version2, name2, packaging2, url2);
            forall t :: t != "project" ==> CountIn([o2.root], t) == CountIn([r1], t)
  {
    ScaffoldHeadTexts(groupId, artifact, version, name, packaging, url);
    ProvideHeadAgain(EmptyProject(), groupId, artifact, version, name, packaging, url,
                     groupId2, artifact2, version2, name2, packaging2, url2);
  }

  // ---------------------------------------------------------------------------
  // Lists: dependencies, plugins and modules
  // ---------------------------------------------------------------------------

  /** `__getListToUpdate(elemName, under)`: the children of the first element tagged
      `elemName` below `under`; a new, empty container when there is none. */
  function ListToUpdate(under: Node, elemName: string): (r: seq<Node>)
    ensures CountBelow(under, elemName) == 0 ==> r == []
    ensures CountBelow(under, elemName) > 0 ==> Some(Element(elemName, r)) == FirstBelow(under, elemName)
  {
    match FirstBelow(under, elemName)
    case Some(e) => e.children
    case None => []
  }

  /** Writing the list back: the container found below `under` gets the list as its
      children, or a new container holding it is appended to `under`. */
  function StoreList(under: Node, elemName: string, list: seq<Node>): (r: Node)
    requires under.Element?
    ensures r.Element? && r.tag == under.tag
  {
    if FirstBelow(under, elemName).Some? then UpdateBelow(under, elemName, list)
    else AppendChild(under, Element(elemName, list))
  }

  /** After writing the list back, the first container below `under` holds it. */
  lemma StoreListFinds(under: Node, elemName: string, list: seq<Node>)
    requires under.Element?
    ensures FirstBelow(StoreList(under, elemName, list), elemName) == Some(Element(elemName, list))
  {
    if FirstBelow(under, elemName).Some? {
      UpdateBelowFinds(under, elemName, list);
    } else {
      FirstInConcat(under.children, [Element(elemName, list)], elemName);
      FirstInSingle(Element(elemName, list), elemName);
    }
  }

  function KeyOutcome(e: Option<KeyError>): Option<PomError> {
    if e.Some? then Some(KeyFailure(e.value)) else None
  }

  /** `__getListToUpdate(container, under)` followed by `__mergeElements` into that
      list, with the key `spec`. */
  function MergeInto(under: Node, container: string, goodTag: string, candidates: seq<Node>, spec: seq<KeyField>): (r: Outcome)
    requires under.Element?
    ensures r.root.Element? && r.root.tag == under.tag
  {
    var m := MergeOf(goodTag, ListToUpdate(under, container), candidates, KeyOf(spec));
    Outcome(StoreList(under, container, m.merged), KeyOutcome(m.error))
  }

  /** The merge into a container only appends: the container found (or created)
      below `under` ends up holding its old children followed by the merge
      additions, which, when every key can be computed, are exactly the candidates
      whose key is not yet among those of its `goodTag` children. */
  lemma MergeIntoAppends(under: Node, container: string, goodTag: string, candidates: seq<Node>, spec: seq<KeyField>)
    requires under.Element?
    ensures var old_ := ListToUpdate(under, container);
            var m := MergeOf(goodTag, old_, candidates, KeyOf(spec));
            FirstBelow(MergeInto(under, container, goodTag, candidates, spec).root, container) ==
              Some(Element(container, m.merged)) &&
            m.merged[..|old_|] == old_
    ensures var old_ := ListToUpdate(under, container);
            IndexKeys(old_, goodTag, KeyOf(spec)).Ok? &&
            (forall i :: 0 <= i < |candidates| ==> GetId(candidates[i], spec).Ok?) ==>
            FirstBelow(MergeInto(under, container, goodTag, candidates, spec).root, container) ==
              Some(Element(container, old_ + Filter(candidates, NotIndexed(IndexKeys(old_, goodTag, KeyOf(spec)).value, KeyOf(spec)))))
  {
    var old_ := ListToUpdate(under, container);
    var m := MergeOf(goodTag, old_, candidates, KeyOf(spec));
    StoreListFinds(under, container, m.merged);
    if IndexKeys(old_, goodTag, KeyOf(spec)).Ok? && (forall i :: 0 <= i < |candidates| ==> GetId(candidates[i], spec).Ok?) {
      MergeAppendsUnindexed(goodTag, old_, candidates, KeyOf(spec));
    }
  }

  /** `addDependencies(dependencies)`: merges into the first `dependencies` element
      below the document element, keyed by artifact and group. */
  function AddDependenciesOf(root: Node, dependencies: seq<Node>): (r: Outcome)
    requires root.Element?
    ensures r.root.Element? && r.root.tag == root.tag
  {
    MergeInto(root, "dependencies", "dependency", dependencies, DependencyKey())
  }

  /** `addModules(modules)`: merges into the first `modules` element below the
      document element with the empty key, under which all modules are equal. */
  function AddModulesOf(root: Node, modules: seq<Node>): (r: Outcome)
    requires root.Element?
    ensures r.root.Element? && r.root.tag == root.tag
  {
    MergeInto(root, "modules", "module", modules, ModuleKey())
  }

  /** `addPlugins(plugins)`: with no `build` in the document, a new `build` is
      appended to the document element and the plugins are merged into a new
      `plugins` inside it. With a `build` present the call raises and nothing
      changes. */
  function AddPluginsOf(root: Node, plugins: seq<Node>): (r: Outcome)
    requires root.Element?
    ensures r.root.Element? && r.root.tag == root.tag
    ensures r.error == Some(BuildPresent) <==> DocFirst(root, "build").Some?
    ensures r.error == Some(BuildPresent) ==> r.root == root
  {
    if DocFirst(root, "build").Some? then Outcome(root, Some(BuildPresent))
    else
      var b := MergeInto(Element("build", []), "plugins", "plugin", plugins, PluginKey());
      Outcome(AppendChild(root, b.root), b.error)
  }

  /** `buildModule(moduleName)`. */
  function BuildModule(moduleName: string): (r: Node)
    ensures Tagged(r, "module") && FirstChildText(r) == TextValue(moduleName)
  {
    Element("module", [Text(moduleName)])
  }

  /** A built module reads its name and, like every module, has the key `[]`. */
  lemma BuildModuleReads(moduleName: string)
    ensures FirstChildText(BuildModule(moduleName)) == TextValue(moduleName)
    ensures GetId(BuildModule(moduleName), ModuleKey()) == Ok([])
    ensures TextOf(BuildModule(moduleName).children) == LStrip(moduleName)
  {
    TextOfSingle(moduleName);
  }

  // ---------------------------------------------------------------------------
  // Readers
  // ---------------------------------------------------------------------------

  /** `getDependencies()`: the element children of the first `dependencies`
      element of the document. */
  function DependenciesOf(root: Node): (r: seq<Node>)
    ensures forall i :: 0 <= i < |r| ==> r[i].Element?
  {
    match DocFirst(root, "dependencies")
    case Some(e) => Filter(e.children, IsElement)
    case None => []
  }

  /** `getPlugins()`: when the document has a `build`, the element children of its
      first `plugins` element, which is searched in the whole document. */
  function PluginsOf(root: Node): (r: seq<Node>)
    ensures forall i :: 0 <= i < |r| ==> r[i].Element?
  {
    if DocFirst(root, "build").None? then []
    else match DocFirst(root, "plugins")
      case Some(e) => Filter(e.children, IsElement)
      case None => []
  }

  /** `getModules()`: all children, text nodes included, of the first `modules`
      element. */
  function ModulesOf(root: Node): (r: seq<Node>)
    ensures CountIn([root], "modules") == 0 ==> r == []
    ensures CountIn([root], "modules") > 0 ==> Some(Element("modules", r)) == DocFirst(root, "modules")
  {
    match DocFirst(root, "modules")
    case Some(e) => e.children
    case None => []
  }

  // ---------------------------------------------------------------------------
  // Reading back what was merged
  // ---------------------------------------------------------------------------

  /** After `addDependencies`, `getDependencies` returns the dependencies read
      before followed by the element nodes the merge appended; when every key can
      be computed, those are the candidates whose key is new. */
  lemma AddDependenciesReadBack(root: Node, dependencies: seq<Node>)
    requires root.Element? && root.tag == "project"
    ensures var old_ := ListToUpdate(root, "dependencies");
            var m := MergeOf("dependency", old_, dependencies, KeyOf(DependencyKey()));
            DependenciesOf(AddDependenciesOf(root, dependencies).root) ==
              DependenciesOf(root) + Filter(m.merged[|old_|..], IsElement)
    ensures var old_ := ListToUpdate(root, "dependencies");
            IndexKeys(old_, "dependency", KeyOf(DependencyKey())).Ok? &&
            (forall i :: 0 <= i < |dependencies| ==> GetId(dependencies[i], DependencyKey()).Ok?) ==>
            DependenciesOf(AddDependenciesOf(root, dependencies).root) ==
              DependenciesOf(root) +
              Filter(Filter(dependencies, NotIndexed(IndexKeys(old_, "dependency", KeyOf(DependencyKey())).value, KeyOf(DependencyKey()))), IsElement)
  {
    AddDependenciesMerged(root, dependencies);
    var old_ := ListToUpdate(root, "dependencies");
    if IndexKeys(old_, "dependency", KeyOf(DependencyKey())).Ok? &&
       (forall i :: 0 <= i < |dependencies| ==> GetId(dependencies[i], DependencyKey()).Ok?) {
      var m := MergeOf("dependency", old_, dependencies, KeyOf(DependencyKey()));
      MergeAppendsUnindexed("dependency", old_, dependencies, KeyOf(DependencyKey()));
      assert m.merged[|old_|..] == Filter(dependencies, NotIndexed(IndexKeys(old_, "dependency", KeyOf(DependencyKey())).value, KeyOf(DependencyKey())));
    }
  }

  /** The first half of `AddDependenciesReadBack`: what `getDependencies` reads after
      the merge. */
  lemma AddDependenciesMerged(root: Node, dependencies: seq<Node>)
    requires root.Element? && root.tag == "project"
    ensures var old_ := ListToUpdate(root, "dependencies");
            var m := MergeOf("dependency", old_, dependencies, KeyOf(DependencyKey()));
            DependenciesOf(AddDependenciesOf(root, dependencies).root) ==
              DependenciesOf(root) + Filter(m.merged[|old_|..], IsElement)
  {
    var old_ := ListToUpdate(root, "dependencies");
    var m := MergeOf("dependency", old_, dependencies, KeyOf(DependencyKey()));
    var r := AddDependenciesOf(root, dependencies).root;
    MergeIntoAppends(root, "dependencies", "dependency", dependencies, DependencyKey());
    DocFirstBelow(root, "dependencies");
    DocFirstBelow(r, "dependencies");
    assert m.merged == old_ + m.merged[|old_|..];
    FilterConcat(old_, m.merged[|old_|..], IsElement);
  }

  /** `addModules` with the empty key: the modules read afterwards are those read
      before, followed by all candidates when no `module` was among them, and by
      none once one was. */
  lemma AddModulesWithEmptyKey(root: Node, modules: seq<Node>)
    requires root.Element? && root.tag == "project"
    ensures AddModulesOf(root, modules).error.None?
    ensures ModulesOf(AddModulesOf(root, modules).root) ==
            if exists i :: 0 <= i < |ModulesOf(root)| && Tagged(ModulesOf(root)[i], "module")
            then ModulesOf(root)
            else ModulesOf(root) + modules
  {
    var old_ := ListToUpdate(root, "modules");
    var r := AddModulesOf(root, modules).root;
    MergeWithEmptyKey("module", old_, modules);
    MergeIntoAppends(root, "modules", "module", modules, ModuleKey());
    DocFirstBelow(root, "modules");
    DocFirstBelow(r, "modules");
  }

  /** After `addPlugins` on a document without `build` and without `plugins`, the
      document has a `build/plugins` container, and `getPlugins` returns the element
      nodes the merge put into it; when every plugin has a key that is all of them,
      in order, key duplicates included. */
  lemma AddPluginsReadBack(root: Node, plugins: seq<Node>)
    requires root.Element? && root.tag == "project"
    requires CountIn([root], "build") == 0 && CountIn([root], "plugins") == 0
    ensures var m := MergeOf("plugin", [], plugins, KeyOf(PluginKey()));
            var r := AddPluginsOf(root, plugins).root;
            r.children == root.children + [Element("build", [Element("plugins", m.merged)])] &&
            PluginsOf(r) == Filter(m.merged, IsElement)
    ensures (forall i :: 0 <= i < |plugins| ==> GetId(plugins[i], PluginKey()).Ok?) ==>
            AddPluginsOf(root, plugins).error.None? &&
            PluginsOf(AddPluginsOf(root, plugins).root) == Filter(plugins, IsElement)
  {
    var m := MergeOf("plugin", [], plugins, KeyOf(PluginKey()));
    var b := Element("build", []);
    assert ListToUpdate(b, "plugins") == [];
    var built := Element("build", [Element("plugins", m.merged)]);
    assert StoreList(b, "plugins", m.merged) == built;
    var r := AddPluginsOf(root, plugins).root;
    assert r == AppendChild(root, built);
    DocFirstAppend(root, built, "build");
    FirstInSingle(built, "build");
    DocFirstAppend(root, built, "plugins");
    FirstInSingle(built, "plugins");
    FirstInSingle(Element("plugins", m.merged), "plugins");
    if forall i :: 0 <= i < |plugins| ==> GetId(plugins[i], PluginKey()).Ok? {
      MergeIntoEmpty("plugin", plugins, KeyOf(PluginKey()));
    }
  }

  // ---------------------------------------------------------------------------
  // Updates that leave other elements where they were
  // ---------------------------------------------------------------------------

  /** The tags `provideHead` may set. */
  const HeadTags: seq<string> := ["modelVersion", "groupId", "artifactId", "version", "name", "packaging", "url"]

  /** No header tag is the document element's. */
  lemma HeadTagNotProject(t: string)
    requires t in HeadTags
    ensures t != "project" && t != "modules" && t != "module"
  {
  }

  /** Two documents whose header fields read alike have the same header. */
  lemma HeadOfSame(a: Node, b: Node)
    requires forall t :: t in HeadTags ==> ReadField(a, t) == ReadField(b, t)
    ensures HeadOf(a) == HeadOf(b)
  {
    assert HeadTags[1] == "groupId" && HeadTags[2] == "artifactId" && HeadTags[3] == "version";
    assert HeadTags[4] == "name" && HeadTags[5] == "packaging" && HeadTags[6] == "url";
    assert ReadField(a, "groupId") == ReadField(b, "groupId") && ReadField(a, "artifactId") == ReadField(b, "artifactId");
    assert ReadField(a, "version") == ReadField(b, "version") && ReadField(a, "name") == ReadField(b, "name");
    assert ReadField(a, "packaging") == ReadField(b, "packaging") && ReadField(a, "url") == ReadField(b, "url");
  }

  /** Setting a field leaves the first element of another tag `u` as it was, when
      that element holds no element tagged like the field. */
  lemma SetFieldKeepsFirst(root: Node, t: string, v: string, u: string)
    requires root.Element? && u != t && u != root.tag
    requires DocFirst(root, u).Some? ==> CountBelow(DocFirst(root, u).value, t) == 0
    ensures DocFirst(SetField(root, t, v).root, u) == DocFirst(root, u)
  {
    match DocFirst(root, t)
    case None =>
      DocFirstAppend(root, Element(t, [Text(v)]), u);
      FirstInSingle(Element(t, [Text(v)]), u);
      TextLeafHoldsNothing(t, v, u);
    case Some(e) =>
      if e.children == [] {
        FirstInSingle(Text(v), u);
        UpdateFirstKeepsFirst([root], t, [Text(v)], u);
        assert UpdateFirstIn([root], t, [Text(v)]) == [DocUpdate(root, t, [Text(v)])];
      } else if e.children[0].Text? {
        ReplaceWholeTextKeepsElements(e.children, v, u);
        var cs := ReplaceWholeText(e.children, v);
        UpdateFirstKeepsFirst([root], t, cs, u);
        assert UpdateFirstIn([root], t, cs) == [DocUpdate(root, t, cs)];
      }
  }

  lemma {:induction false} SetFieldsKeepsFirst(root: Node, fs: seq<Field>, u: string)
    requires root.Element? && u != root.tag && !HasTag(fs, u)
    requires DocFirst(root, u).Some? ==> forall i :: 0 <= i < |fs| ==> CountBelow(DocFirst(root, u).value, fs[i].tag) == 0
    ensures DocFirst(SetFields(root, fs).root, u) == DocFirst(root, u)
    decreases |fs|
  {
    if fs != [] {
      var o := SetField(root, fs[0].tag, fs[0].value);
      SetFieldKeepsFirst(root, fs[0].tag, fs[0].value, u);
      if o.error.None? {
        var rest := fs[1..];
        assert !HasTag(rest, u) by {
          forall i | 0 <= i < |rest| ensures rest[i].tag != u {
            assert rest[i] == fs[i + 1];
          }
        }
        assert forall i :: 0 <= i < |rest| ==> rest[i] == fs[i + 1];
        SetFieldsKeepsFirst(o.root, rest, u);
      }
    }
  }

  /** `provideHead` leaves the first element of a tag it does not set as it was, when
      that element holds no header field. */
  lemma ProvideHeadKeepsFirst(root: Node, groupId: string, artifact: string, version: string,
                              name: Option<string>, packaging: string, url: Option<string>, u: string)
    requires root.Element? && u != root.tag && u !in HeadTags
    requires DocFirst(root, u).Some? ==> forall t :: t in HeadTags ==> CountBelow(DocFirst(root, u).value, t) == 0
    ensures DocFirst(ProvideHeadOf(root, groupId, artifact, version, name, packaging, url).root, u) == DocFirst(root, u)
  {
    var fs := HeadFields(groupId, artifact, version, name, packaging, url);
    forall i | 0 <= i < |fs| ensures fs[i].tag in HeadTags {
      HeadFieldsTags(groupId, artifact, version, name, packaging, url, fs[i].tag);
      assert HasTag(fs, fs[i].tag);
    }
    assert !HasTag(fs, u);
    SetFieldsKeepsFirst(root, fs, u);
  }

  /** `addModules` leaves what a field reads alone, when neither the modules held
      nor the modules added contain an element tagged like the field. */
  lemma AddModulesKeepsField(root: Node, modules: seq<Node>, t: string)
    requires root.Element? && t != root.tag && t != "modules"
    requires CountIn(ListToUpdate(root, "modules"), t) == 0 && CountIn(modules, t) == 0
    ensures FieldView(AddModulesOf(root, modules).root, t) == FieldView(root, t)
  {
    var old_ := ListToUpdate(root, "modules");
    var m := MergeOf("module", old_, modules, KeyOf(ModuleKey()));
    MergeWithEmptyKey("module", old_, modules);
    FirstInConcat(old_, modules, t);
    assert FirstIn(m.merged, t) == FirstIn(old_, t);
    var r := AddModulesOf(root, modules).root;
    DocFirstBelow(root, t);
    DocFirstBelow(r, t);
    if FirstBelow(root, "modules").Some? {
      UpdateBelowKeepsView(root, "modules", m.merged, t);
    } else {
      DocFirstAppend(root, Element("modules", m.merged), t);
      FirstInSingle(Element("modules", m.merged), t);
    }
  }

  // ---------------------------------------------------------------------------
  // The document object
  // ---------------------------------------------------------------------------

  /** `__getListToUpdate(container, under)` then `__mergeElements` into the list it
      returns: the container is created (appended to `under`) before the merge
      starts, and the merged list becomes its children. */
  method MergeIntoList(under: Node, container: string, goodTag: string, candidates: seq<Node>, spec: seq<KeyField>)
    returns (r: Node, error: Option<PomError>)
    requires under.Element?
    ensures Outcome(r, error) == MergeInto(under, container, goodTag, candidates, spec)
  {
    r := under;
    if FirstBelow(r, container).None? {
      r := AppendChild(r, Element(container, []));
      FirstInConcat(under.children, [Element(container, [])], container);
      FirstInSingle(Element(container, []), container);
    }
    var listDeps := FirstBelow(r, container).value.children;
    assert listDeps == ListToUpdate(under, container);
    var ret, e := MergeElements(goodTag, listDeps, candidates, spec);
    if FirstBelow(under, container).None? {
      UpdateBelowAfterAppend(under, container, ret);
    }
    r := UpdateBelow(r, container, ret);
    error := KeyOutcome(e);
  }

  /** A POM held in memory: the document element, the attributes put on it and the
      file it was loaded from. */
  class Pom {
    var root: Node
    var attributes: seq<Attribute>
    var fileName: Option<string>

    ghost predicate Valid()
      reads this
    {
      root.Element?
    }

    /** `Pom()`: the empty scaffold. */
    constructor ()
      ensures Valid()
      ensures root == EmptyProject() && attributes == ScaffoldAttributes() && fileName == None
    {
      root := EmptyProject();
      attributes := [];
      attributes := attributes + [Attribute("xmlns", PomNamespace)];
      attributes := attributes + [Attribute("xmlns:xsi", "http://www.w3.org/2001/XMLSchema-instance")];
      attributes := attributes + [Attribute("xsi:schemaLocation", PomNamespace + " http://maven.apache.org/xsd/maven-4.0.0.xsd")];
      fileName := None;
    }

    /** `Pom(fileName)`: a document already parsed from `path`. */
    constructor Load(document: Node, path: string)
      requires document.Element?
      ensures Valid()
      ensures root == document && attributes == [] && fileName == Some(path)
    {
      root := document;
      attributes := [];
      fileName := Some(path);
    }

    /** `__checkAndSetTextNode(elementName, textValue)`. */
    method CheckAndSetTextNode(elementName: string, textValue: string) returns (error: Option<PomError>)
      requires Valid()
      modifies this
      ensures Valid()
      ensures Outcome(root, error) == SetField(old(root), elementName, textValue)
      ensures attributes == old(attributes) && fileName == old(fileName)
    {
      error := None;
      if DocFirst(root, elementName).None? {
        FirstInSingle(root, elementName);
        DocFirstAppend(root, Element(elementName, []), elementName);
        FirstInSingle(Element(elementName, []), elementName);
        DocUpdateAfterAppend(root, elementName, [Text(textValue)]);
        root := AppendChild(root, Element(elementName, []));
      }
      var elToUse := DocFirst(root, elementName).value;
      if elToUse.children == [] {
        root := DocUpdate(root, elementName, [Text(textValue)]);
      } else if elToUse.children[0].Element? {
        error := Some(NotTextChild(elementName));
      } else {
        root := DocUpdate(root, elementName, ReplaceWholeText(elToUse.children, textValue));
      }
    }

    /** `provideHead(groupId, artifact, version, name, packaging, url)`; `None`
        stands for Python's `None`. */
    method ProvideHead(groupId: string, artifact: string, version: string, name: Option<string>,
                       packaging: string, url: Option<string>) returns (error: Option<PomError>)
      requires Valid()
      modifies this
      ensures Valid()
      ensures Outcome(root, error) == ProvideHeadOf(old(root), groupId, artifact, version, name, packaging, url)
      ensures attributes == old(attributes) && fileName == old(fileName)
    {
      ghost var goal := ProvideHeadOf(root, groupId, artifact, version, name, packaging, url);
      ghost var t7 := if url.Some? then [Field("url", url.value)] else [];
      ghost var t6 := [Field("packaging", packaging)] + t7;
      ghost var t5 := (if name.Some? then [Field("name", name.value)] else []) + t6;
      ghost var t4 := [Field("version", version)] + t5;
      ghost var t3 := [Field("artifactId", artifact)] + t4;
      ghost var t2 := [Field("groupId", groupId)] + t3;
      HeadFieldsSplit(groupId, artifact, version, name, packaging, url);
      error := SetHeadField("modelVersion", "4.0.0", t2, goal);
      if error.Some? { return; }
      error := SetHeadField("groupId", groupId, t3, goal);
      if error.Some? { return; }
      error := SetHeadField("artifactId", artifact, t4, goal);
      if error.Some? { return; }
      error := SetHeadField("version", version, t5, goal);
      if error.Some? { return; }
      if name.Some? {
        error := SetHeadField("name", name.value, t6, goal);
        if error.Some? { return; }
      } else {
        assert t5 == t6;
      }
      error := SetHeadField("packaging", packaging, t7, goal);
      if error.Some? { return; }
      if url.Some? {
        assert t7 == [Field("url", url.value)] + [];
        error := SetHeadField("url", url.value, [], goal);
        if error.Some? { return; }
      }
    }

    /** One `__checkAndSetTextNode` call of `provideHead`, with the fields still to
        set after it and the outcome the whole call is to reach. */
    method SetHeadField(t: string, v: string, ghost rest: seq<Field>, ghost goal: Outcome)
      returns (error: Option<PomError>)
      requires Valid() && SetFields(root, [Field(t, v)] + rest) == goal
      modifies this
      ensures Valid()
      ensures error.Some? ==> Outcome(root, error) == goal
      ensures error.None? ==> SetFields(root, rest) == goal
      ensures attributes == old(attributes) && fileName == old(fileName)
    {
      ghost var prev := root;
      error := CheckAndSetTextNode(t, v);
      SetFieldsStep(prev, Field(t, v), rest, Outcome(root, error), goal);
    }

    /** `addDependencies(dependencies)`. */
    method AddDependencies(dependencies: seq<Node>) returns (error: Option<PomError>)
      requires Valid()
      modifies this
      ensures Valid()
      ensures Outcome(root, error) == AddDependenciesOf(old(root), dependencies)
      ensures attributes == old(attributes) && fileName == old(fileName)
    {
      root, error := MergeIntoList(root, "dependencies", "dependency", dependencies, DependencyKey());
    }

    /** `addModules(modules)`. */
    method AddModules(modules: seq<Node>) returns (error: Option<PomError>)
      requires Valid()
      modifies this
      ensures Valid()
      ensures Outcome(root, error) == AddModulesOf(old(root), modules)
      ensures attributes == old(attributes) && fileName == old(fileName)
    {
      root, error := MergeIntoList(root, "modules", "module", modules, ModuleKey());
    }

    /** `addPlugins(plugins)`: a new `build` gets a new `plugins` container holding
        the merged plugins and is appended to the document element. */
    method AddPlugins(plugins: seq<Node>) returns (error: Option<PomError>)
      requires Valid()
      modifies this
      ensures Valid()
      ensures Outcome(root, error) == AddPluginsOf(old(root), plugins)
      ensures attributes == old(attributes) && fileName == old(fileName)
    {
      if DocFirst(root, "build").Some? {
        error := Some(BuildPresent);
        return;
      }
      var build := Element("build", []);
      build, error := MergeIntoList(build, "plugins", "plugin", plugins, PluginKey());
      root := AppendChild(root, build);
    }

    /** The file `writeOut(requested)` writes to: the one requested, else the one
        the document was loaded from; a scaffold without a requested name has
        none. */
    function WriteTarget(requested: Option<string>): (r: Result<string, PomError>)
      reads this
      ensures r.Err? <==> requested.None? && fileName.None?
      ensures r.Err? ==> r.error == NoTarget
      ensures requested.Some? ==> r == Ok(requested.value)
      ensures requested.None? && fileName.Some? ==> r == Ok(fileName.value)
    {
      if requested.Some? then Ok(requested.value)
      else if fileName.Some? then Ok(fileName.value)
      else Err(NoTarget)
    }
  }
}
