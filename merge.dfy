/** The append-only merge of candidate elements into a destination list
    (`Pom.__mergeElements`).

    First the keys of the destination's elements with the given tag are collected
    into an index; then every candidate whose key is not in that index is appended.
    The index is not extended while the candidates are appended, so two new
    candidates that share a key are both appended. A key that cannot be computed
    stops the merge where it happens, and what was appended before stays appended. */
module PomMerge {
  import opened Wrappers
  import opened Dom
  import opened PomKeys

  // ---------------------------------------------------------------------------
  // The index of existing keys
  // ---------------------------------------------------------------------------

  /** The key of an element under a key specification (`Pom.__getId`). */
  function KeyOf(spec: seq<KeyField>): Node -> Result<Key, KeyError> {
    n => GetId(n, spec)
  }

  /** The candidate filter of the second loop: the candidate has a key and that key
      is not in the index. */
  function NotIndexed(index: seq<Key>, key: Node -> Result<Key, KeyError>): Node -> bool {
    c => key(c).Ok? && key(c).value !in index
  }

  /** The keys of the elements of `d` tagged `goodTag`, in order, or the first key
      error among them. */
  function IndexKeys(d: seq<Node>, goodTag: string, key: Node -> Result<Key, KeyError>): (r: Result<seq<Key>, KeyError>)
    ensures r.Ok? ==> |r.value| <= |d|
    decreases |d|
  {
    if d == [] then Ok([])
    else IndexStep(IndexKeys(d[..|d| - 1], goodTag, key), d[|d| - 1], goodTag, key)
  }

  /** One pass of the index loop over element `n`: an earlier error stays, an
      element with the tag adds its key or raises its key error. */
  function IndexStep(prev: Result<seq<Key>, KeyError>, n: Node, goodTag: string, key: Node -> Result<Key, KeyError>): (r: Result<seq<Key>, KeyError>)
    ensures prev.Err? ==> r == prev
    ensures !Tagged(n, goodTag) ==> r == prev
    ensures prev.Ok? && Tagged(n, goodTag) ==>
              r == (if key(n).Ok? then Ok(prev.value + [key(n).value]) else Err(key(n).error))
  {
    if prev.Err? || !Tagged(n, goodTag) then prev
    else if key(n).Err? then Err(key(n).error)
    else Ok(prev.value + [key(n).value])
  }

  /** One more step of the index loop. */
  lemma IndexKeysStep(d: seq<Node>, i: nat, goodTag: string, key: Node -> Result<Key, KeyError>)
    requires i < |d|
    ensures IndexKeys(d[..i + 1], goodTag, key) == IndexStep(IndexKeys(d[..i], goodTag, key), d[i], goodTag, key)
  {
    assert d[..i + 1][..i] == d[..i];
  }

  /** The index exists exactly when every element with the tag has a key, and then
      it holds the key of each of them and nothing else. */
  lemma {:induction false} IndexKeysHolds(d: seq<Node>, goodTag: string, key: Node -> Result<Key, KeyError>)
    ensures IndexKeys(d, goodTag, key).Ok? <==>
            forall i :: 0 <= i < |d| && Tagged(d[i], goodTag) ==> key(d[i]).Ok?
    ensures IndexKeys(d, goodTag, key).Ok? ==>
            forall i :: 0 <= i < |d| && Tagged(d[i], goodTag) ==> key(d[i]).value in IndexKeys(d, goodTag, key).value
    ensures IndexKeys(d, goodTag, key).Ok? ==>
            forall x :: x in IndexKeys(d, goodTag, key).value ==>
              exists i :: 0 <= i < |d| && Tagged(d[i], goodTag) && key(d[i]) == Ok(x)
    decreases |d|
  {
    if d != [] {
      var d' := d[..|d| - 1];
      IndexKeysHolds(d', goodTag, key);
      assert forall i :: 0 <= i < |d'| ==> d'[i] == d[i];
    }
  }

  /** Without an element with the tag, the index is empty. */
  lemma {:induction false} IndexKeysNone(d: seq<Node>, goodTag: string, key: Node -> Result<Key, KeyError>)
    requires forall i :: 0 <= i < |d| ==> !Tagged(d[i], goodTag)
    ensures IndexKeys(d, goodTag, key) == Ok([])
    decreases |d|
  {
    if d != [] {
      var d' := d[..|d| - 1];
      assert forall i :: 0 <= i < |d'| ==> d'[i] == d[i];
      IndexKeysNone(d', goodTag, key);
    }
  }

  /** Once some prefix of the destination has a key error, so has the whole list. */
  lemma {:induction false} IndexKeysErrorPersists(d: seq<Node>, n: nat, goodTag: string, key: Node -> Result<Key, KeyError>)
    requires n <= |d|
    requires IndexKeys(d[..n], goodTag, key).Err?
    ensures IndexKeys(d, goodTag, key) == IndexKeys(d[..n], goodTag, key)
    decreases |d| - n
  {
    if n < |d| {
      assert d[..n + 1][..n] == d[..n];
      IndexKeysErrorPersists(d, n + 1, goodTag, key);
    } else {
      assert d[..n] == d;
    }
  }

  lemma {:induction false} IndexKeysConcat(a: seq<Node>, b: seq<Node>, goodTag: string, key: Node -> Result<Key, KeyError>)
    requires IndexKeys(a, goodTag, key).Ok? && IndexKeys(b, goodTag, key).Ok?
    ensures IndexKeys(a + b, goodTag, key) == Ok(IndexKeys(a, goodTag, key).value + IndexKeys(b, goodTag, key).value)
    decreases |b|
  {
    if b == [] {
      assert a + b == a;
      assert IndexKeys(a, goodTag, key).value + [] == IndexKeys(a, goodTag, key).value;
    } else {
      var b' := b[..|b| - 1];
      var last := b[|b| - 1];
      assert IndexKeys(b, goodTag, key) == IndexStep(IndexKeys(b', goodTag, key), last, goodTag, key);
      assert IndexKeys(b', goodTag, key).Ok?;
      IndexKeysConcat(a, b', goodTag, key);
      assert (a + b)[..|a + b| - 1] == a + b';
      assert (a + b)[|a + b| - 1] == last;
      assert IndexKeys(a + b, goodTag, key) == IndexStep(IndexKeys(a + b', goodTag, key), last, goodTag, key);
      if Tagged(last, goodTag) {
        var ka, kb' := IndexKeys(a, goodTag, key).value, IndexKeys(b', goodTag, key).value;
        assert ka + kb' + [key(last).value] == ka + (kb' + [key(last).value]);
      }
    }
  }

  // ---------------------------------------------------------------------------
  // Appending the candidates
  // ---------------------------------------------------------------------------

  /** What the second loop appends, and the key error that stopped it, if any. */
  datatype Appended = Appended(nodes: seq<Node>, error: Option<KeyError>)

  function AppendNew(c: seq<Node>, index: seq<Key>, key: Node -> Result<Key, KeyError>): (r: Appended)
    ensures |r.nodes| <= |c|
    decreases |c|
  {
    if c == [] then Appended([], None)
    else AppendStep(AppendNew(c[..|c| - 1], index, key), c[|c| - 1], index, key)
  }

  /** One pass of the candidate loop over `n`: after an error nothing more happens;
      a candidate without a key stops the loop; a candidate whose key is not in the
      index is appended. */
  function AppendStep(p: Appended, n: Node, index: seq<Key>, key: Node -> Result<Key, KeyError>): (r: Appended)
    ensures p.error.Some? ==> r == p
    ensures p.error.None? && key(n).Err? ==> r == Appended(p.nodes, Some(key(n).error))
    ensures p.error.None? && key(n).Ok? ==>
              r == Appended(p.nodes + (if key(n).value in index then [] else [n]), None)
    ensures |r.nodes| <= |p.nodes| + 1
  {
    if p.error.Some? then p
    else if key(n).Err? then Appended(p.nodes, Some(key(n).error))
    else Appended(p.nodes + (if key(n).value in index then [] else [n]), None)
  }

  /** One more step of the candidate loop. */
  lemma AppendNewStep(c: seq<Node>, j: nat, index: seq<Key>, key: Node -> Result<Key, KeyError>)
    requires j < |c|
    ensures AppendNew(c[..j + 1], index, key) == AppendStep(AppendNew(c[..j], index, key), c[j], index, key)
  {
    assert c[..j + 1][..j] == c[..j];
  }

  /** Once a candidate without a key is met, nothing after it is appended. */
  lemma {:induction false} AppendNewErrorPersists(c: seq<Node>, n: nat, index: seq<Key>, key: Node -> Result<Key, KeyError>)
    requires n <= |c|
    requires AppendNew(c[..n], index, key).error.Some?
    ensures AppendNew(c, index, key) == AppendNew(c[..n], index, key)
    decreases |c| - n
  {
    if n < |c| {
      assert c[..n + 1][..n] == c[..n];
      AppendNewErrorPersists(c, n + 1, index, key);
    } else {
      assert c[..n] == c;
    }
  }

  /** The number of leading candidates that have a key. */
  function KeyedPrefix(c: seq<Node>, key: Node -> Result<Key, KeyError>): (p: nat)
    ensures p <= |c|
    ensures forall i :: 0 <= i < p ==> key(c[i]).Ok?
    ensures p < |c| ==> key(c[p]).Err?
  {
    if c == [] || key(c[0]).Err? then 0 else 1 + KeyedPrefix(c[1..], key)
  }

  /** The second loop appends exactly the candidates, up to the first one without a
      key, whose key is not in the index, in candidate order; it reports an error
      exactly when it stopped early, and then it is that candidate's key error. */
  lemma {:induction false} AppendNewIsFilter(c: seq<Node>, index: seq<Key>, key: Node -> Result<Key, KeyError>)
    ensures AppendNew(c, index, key).nodes == Filter(c[..KeyedPrefix(c, key)], NotIndexed(index, key))
    ensures AppendNew(c, index, key).error.None? <==> KeyedPrefix(c, key) == |c|
    ensures KeyedPrefix(c, key) < |c| ==>
              AppendNew(c, index, key).error == Some(key(c[KeyedPrefix(c, key)]).error)
    decreases |c|
  {
    if c != [] {
      var c' := c[..|c| - 1];
      AppendNewIsFilter(c', index, key);
      KeyedPrefixOfPrefix(c, |c'|, key);
      if KeyedPrefix(c, key) < |c'| {
        AppendNewStopped(c, index, key);
      } else {
        AppendNewLast(c, index, key);
      }
    }
  }

  /** The inductive step of `AppendNewIsFilter` when the failing candidate comes
      before the last one. */
  lemma {:induction false} AppendNewStopped(c: seq<Node>, index: seq<Key>, key: Node -> Result<Key, KeyError>)
    requires c != [] && KeyedPrefix(c, key) < |c| - 1
    requires KeyedPrefix(c[..|c| - 1], key) == KeyedPrefix(c, key)
    requires var c' := c[..|c| - 1];
             AppendNew(c', index, key).nodes == Filter(c'[..KeyedPrefix(c', key)], NotIndexed(index, key)) &&
             AppendNew(c', index, key).error == Some(key(c'[KeyedPrefix(c', key)]).error)
    ensures AppendNew(c, index, key).nodes == Filter(c[..KeyedPrefix(c, key)], NotIndexed(index, key))
    ensures AppendNew(c, index, key).error == Some(key(c[KeyedPrefix(c, key)]).error)
  {
    var c' := c[..|c| - 1];
    var p := KeyedPrefix(c, key);
    assert c'[..p] == c[..p];
    assert c'[p] == c[p];
  }

  /** The inductive step of `AppendNewIsFilter` when all candidates but the last one
      have a key. */
  lemma {:induction false} AppendNewLast(c: seq<Node>, index: seq<Key>, key: Node -> Result<Key, KeyError>)
    requires c != [] && KeyedPrefix(c, key) >= |c| - 1
    requires KeyedPrefix(c[..|c| - 1], key) == |c| - 1
    requires var c' := c[..|c| - 1];
             AppendNew(c', index, key) == Appended(Filter(c'[..|c'|], NotIndexed(index, key)), None)
    ensures AppendNew(c, index, key).nodes == Filter(c[..KeyedPrefix(c, key)], NotIndexed(index, key))
    ensures AppendNew(c, index, key).error.None? <==> KeyedPrefix(c, key) == |c|
    ensures KeyedPrefix(c, key) < |c| ==> AppendNew(c, index, key).error == Some(key(c[KeyedPrefix(c, key)]).error)
  {
    var c' := c[..|c| - 1];
    var last := c[|c| - 1];
    var keep := NotIndexed(index, key);
    assert c'[..|c'|] == c';
    assert AppendNew(c, index, key) == AppendStep(Appended(Filter(c', keep), None), last, index, key);
    if key(last).Ok? {
      assert KeyedPrefix(c, key) == |c|;
      assert c[..|c|] == c' + [last];
      FilterConcat(c', [last], keep);
      assert [last][1..] == [];
      assert Filter([last], keep) == if keep(last) then [last] else [];
    } else {
      assert KeyedPrefix(c, key) == |c| - 1;
      assert c[..|c| - 1] == c';
    }
  }

  lemma {:induction false} KeyedPrefixOfPrefix(c: seq<Node>, n: nat, key: Node -> Result<Key, KeyError>)
    requires n <= |c|
    ensures KeyedPrefix(c[..n], key) == if KeyedPrefix(c, key) < n then KeyedPrefix(c, key) else n
  {
    var p := KeyedPrefix(c, key);
    var q := KeyedPrefix(c[..n], key);
    if q < n {
      assert c[..n][q] == c[q];
    }
    if p < n {
      assert c[..n][p] == c[p];
    }
  }

  // ---------------------------------------------------------------------------
  // The merge
  // ---------------------------------------------------------------------------

  /** The destination list after the merge, and the key error that stopped it. */
  datatype MergeOutcome = MergeOutcome(merged: seq<Node>, error: Option<KeyError>)

  /** The merge as a function of its inputs. A key error in the destination appends
      nothing; otherwise the candidates selected by the second loop are appended. */
  function MergeOf(goodTag: string, destination: seq<Node>, candidates: seq<Node>, key: Node -> Result<Key, KeyError>): (r: MergeOutcome)
    ensures |destination| <= |r.merged| <= |destination| + |candidates|
    ensures r.merged[..|destination|] == destination
  {
    match IndexKeys(destination, goodTag, key)
    case Err(e) => MergeOutcome(destination, Some(e))
    case Ok(index) =>
      var a := AppendNew(candidates, index, key);
      MergeOutcome(destination + a.nodes, a.error)
  }

  /** `__mergeElements(goodTagName, destination, elementList, idXPaths)`: returns the
      destination list with the new candidates appended, and the key error that
      interrupted the merge, if one did. */
  method MergeElements(goodTagName: string, destination: seq<Node>, elementList: seq<Node>, idXPaths: seq<KeyField>)
    returns (ret: seq<Node>, error: Option<KeyError>)
    ensures MergeOutcome(ret, error) == MergeOf(goodTagName, destination, elementList, KeyOf(idXPaths))
  {
    var extIndex, indexError := IndexDestination(goodTagName, destination, idXPaths);
    if indexError.Some? {
      return destination, indexError;
    }
    var added;
    added, error := AppendCandidates(elementList, extIndex, idXPaths);
    ret := destination + added;
  }

  /** The first loop of `__mergeElements`: the keys of the destination's elements
      tagged `goodTagName`, or the key error of the first one without a key. */
  method IndexDestination(goodTagName: string, destination: seq<Node>, idXPaths: seq<KeyField>)
    returns (extIndex: seq<Key>, error: Option<KeyError>)
    ensures error.None? <==> IndexKeys(destination, goodTagName, KeyOf(idXPaths)).Ok?
    ensures error.None? ==> IndexKeys(destination, goodTagName, KeyOf(idXPaths)) == Ok(extIndex)
    ensures error.Some? ==> IndexKeys(destination, goodTagName, KeyOf(idXPaths)) == Err(error.value)
  {
    extIndex := [];
    var i := 0;
    while i < |destination|
      invariant 0 <= i <= |destination|
      invariant IndexKeys(destination[..i], goodTagName, KeyOf(idXPaths)) == Ok(extIndex)
    {
      var el := destination[i];
      IndexKeysStep(destination, i, goodTagName, KeyOf(idXPaths));
      if el.Element? && el.tag == goodTagName {
        var eid := GetId(el, idXPaths);
        if eid.Err? {
          IndexKeysErrorPersists(destination, i + 1, goodTagName, KeyOf(idXPaths));
          return extIndex, Some(eid.error);
        }
        extIndex := extIndex + [eid.value];
      }
      i := i + 1;
    }
    assert destination[..i] == destination;
    error := None;
  }

  /** The second loop of `__mergeElements`: the candidates whose key is not in
      `extIndex`, up to the first one without a key, and that one's key error. */
  method AppendCandidates(elementList: seq<Node>, extIndex: seq<Key>, idXPaths: seq<KeyField>)
    returns (added: seq<Node>, error: Option<KeyError>)
    ensures Appended(added, error) == AppendNew(elementList, extIndex, KeyOf(idXPaths))
  {
    added := [];
    var j := 0;
    while j < |elementList|
      invariant 0 <= j <= |elementList|
      invariant AppendNew(elementList[..j], extIndex, KeyOf(idXPaths)) == Appended(added, None)
    {
      var el := elementList[j];
      AppendNewStep(elementList, j, extIndex, KeyOf(idXPaths));
      var eid := GetId(el, idXPaths);
      if eid.Err? {
        AppendNewErrorPersists(elementList, j + 1, extIndex, KeyOf(idXPaths));
        return added, Some(eid.error);
      }
      if eid.value !in extIndex {
        added := added + [el];
      }
      j := j + 1;
    }
    assert elementList[..j] == elementList;
    error := None;
  }

  // ---------------------------------------------------------------------------
  // Properties of the merge
  // ---------------------------------------------------------------------------

  /** When every key can be computed, the merge result is the destination, unchanged,
      followed by exactly the candidates whose key is not among the keys of the
      destination's `goodTag` elements, in candidate order. */
  lemma MergeAppendsUnindexed(goodTag: string, destination: seq<Node>, candidates: seq<Node>, key: Node -> Result<Key, KeyError>)
    requires IndexKeys(destination, goodTag, key).Ok?
    requires forall i :: 0 <= i < |candidates| ==> key(candidates[i]).Ok?
    ensures MergeOf(goodTag, destination, candidates, key) ==
            MergeOutcome(destination + Filter(candidates, NotIndexed(IndexKeys(destination, goodTag, key).value, key)), None)
  {
    var index := IndexKeys(destination, goodTag, key).value;
    AppendNewIsFilter(candidates, index, key);
    assert KeyedPrefix(candidates, key) == |candidates|;
    assert candidates[..|candidates|] == candidates;
  }

  /** A merge that stops at a candidate without a key keeps the new candidates before
      it: the merge is not atomic. */
  lemma MergeStopsAtFirstUnkeyed(goodTag: string, destination: seq<Node>, candidates: seq<Node>, key: Node -> Result<Key, KeyError>, p: nat)
    requires IndexKeys(destination, goodTag, key).Ok?
    requires p < |candidates| && key(candidates[p]).Err?
    requires forall i :: 0 <= i < p ==> key(candidates[i]).Ok?
    ensures MergeOf(goodTag, destination, candidates, key) ==
            MergeOutcome(destination + Filter(candidates[..p], NotIndexed(IndexKeys(destination, goodTag, key).value, key)),
                         Some(key(candidates[p]).error))
  {
    var index := IndexKeys(destination, goodTag, key).value;
    AppendNewIsFilter(candidates, index, key);
    assert KeyedPrefix(candidates, key) == p;
  }

  /** Two new candidates that share a key with each other, but not with the
      destination, are both appended. */
  lemma MergeKeepsSharedNewKeys(goodTag: string, destination: seq<Node>, x: Node, y: Node, key: Node -> Result<Key, KeyError>)
    requires IndexKeys(destination, goodTag, key).Ok?
    requires key(x).Ok? && key(y) == key(x)
    requires key(x).value !in IndexKeys(destination, goodTag, key).value
    ensures MergeOf(goodTag, destination, [x, y], key) == MergeOutcome(destination + [x, y], None)
  {
    var index := IndexKeys(destination, goodTag, key).value;
    var c := [x, y];
    assert c[..1] == [x] && [x][..0] == [];
    assert AppendNew([x], index, key) == Appended([x], None);
    assert c[..|c| - 1] == [x];
  }

  /** Merging the same candidates a second time appends nothing, when they all carry
      the merged tag: every candidate's key is then already in the index, either
      because it was before the first merge or because the candidate was appended. */
  lemma MergeTwiceIsNoOp(goodTag: string, destination: seq<Node>, candidates: seq<Node>, key: Node -> Result<Key, KeyError>)
    requires forall i :: 0 <= i < |candidates| ==> Tagged(candidates[i], goodTag)
    requires MergeOf(goodTag, destination, candidates, key).error.None?
    ensures var once := MergeOf(goodTag, destination, candidates, key).merged;
            MergeOf(goodTag, once, candidates, key) == MergeOutcome(once, None)
  {
    assert IndexKeys(destination, goodTag, key).Ok?;
    var index := IndexKeys(destination, goodTag, key).value;
    AppendNewIsFilter(candidates, index, key);
    assert KeyedPrefix(candidates, key) == |candidates|;
    MergeAppendsUnindexed(goodTag, destination, candidates, key);
    var added := Filter(candidates, NotIndexed(index, key));
    var once := destination + added;
    var index2 := SecondIndex(goodTag, destination, candidates, key);
    MergeAppendsUnindexed(goodTag, once, candidates, key);
    FilterNone(candidates, NotIndexed(index2, key));
  }

  /** The index of the second merge in `MergeTwiceIsNoOp`: it exists and holds the
      key of every candidate. */
  lemma SecondIndex(goodTag: string, destination: seq<Node>, candidates: seq<Node>, key: Node -> Result<Key, KeyError>)
    returns (index2: seq<Key>)
    requires forall i :: 0 <= i < |candidates| ==> Tagged(candidates[i], goodTag)
    requires forall i :: 0 <= i < |candidates| ==> key(candidates[i]).Ok?
    requires IndexKeys(destination, goodTag, key).Ok?
    ensures var added := Filter(candidates, NotIndexed(IndexKeys(destination, goodTag, key).value, key));
            IndexKeys(destination + added, goodTag, key) == Ok(index2)
    ensures forall i :: 0 <= i < |candidates| ==> !NotIndexed(index2, key)(candidates[i])
  {
    var index := IndexKeys(destination, goodTag, key).value;
    var added := Filter(candidates, NotIndexed(index, key));
    FilterMembers(candidates, NotIndexed(index, key));
    IndexKeysHolds(added, goodTag, key);
    IndexKeysHolds(destination, goodTag, key);
    assert IndexKeys(added, goodTag, key).Ok? by {
      forall i | 0 <= i < |added| && Tagged(added[i], goodTag) ensures key(added[i]).Ok? {
        assert NotIndexed(index, key)(added[i]);
      }
    }
    var index1 := IndexKeys(added, goodTag, key).value;
    IndexKeysConcat(destination, added, goodTag, key);
    index2 := index + index1;
    forall i | 0 <= i < |candidates| ensures !NotIndexed(index2, key)(candidates[i]) {
      var k := key(candidates[i]).value;
      if k !in index {
        assert NotIndexed(index, key)(candidates[i]);
        assert candidates[i] in added;
        var j :| 0 <= j < |added| && added[j] == candidates[i];
        assert Tagged(added[j], goodTag);
        assert k in index1;
      }
    }
  }

  /** With an empty key specification every key is `[]`: all candidates are appended
      when the destination has no element with the tag, and none once it has one. */
  lemma MergeWithEmptyKey(goodTag: string, destination: seq<Node>, candidates: seq<Node>)
    ensures MergeOf(goodTag, destination, candidates, KeyOf([])) ==
            if exists i :: 0 <= i < |destination| && Tagged(destination[i], goodTag)
            then MergeOutcome(destination, None)
            else MergeOutcome(destination + candidates, None)
  {
    var key := KeyOf([]);
    assert forall n :: key(n) == Ok([]);
    IndexKeysHolds(destination, goodTag, key);
    var index := IndexKeys(destination, goodTag, key).value;
    MergeAppendsUnindexed(goodTag, destination, candidates, key);
    if exists i :: 0 <= i < |destination| && Tagged(destination[i], goodTag) {
      var i :| 0 <= i < |destination| && Tagged(destination[i], goodTag);
      assert [] in index;
      var f := Filter(candidates, NotIndexed(index, key));
      assert forall j :: 0 <= j < |f| ==> !NotIndexed(index, key)(f[j]);
      FilterNone(candidates, NotIndexed(index, key));
    } else {
      IndexKeysNone(destination, goodTag, key);
      FilterAll(candidates, NotIndexed(index, key));
    }
  }

  /** Merging into an empty list appends every candidate in order, key duplicates
      included, when all keys can be computed. */
  lemma MergeIntoEmpty(goodTag: string, candidates: seq<Node>, key: Node -> Result<Key, KeyError>)
    requires forall i :: 0 <= i < |candidates| ==> key(candidates[i]).Ok?
    ensures MergeOf(goodTag, [], candidates, key) == MergeOutcome(candidates, None)
  {
    assert IndexKeys([], goodTag, key) == Ok([]);
    MergeAppendsUnindexed(goodTag, [], candidates, key);
    FilterAll(candidates, NotIndexed([], key));
    assert [] + candidates == candidates;
  }
}
