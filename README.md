# Remavenizer POM core in Dafny

This project models the core of a small Maven restructuring tool, which has three parts.

- **The `Pom` class** (`pomManagement/Pom.py`) wraps a POM (Maven project object model) XML document. It has operations to:
  - create an empty `project` scaffold or load an existing document;
  - set the header fields (`provideHead`) and read them back (`getHead`);
  - read the `dependencies`, `build/plugins` and `modules` lists;
  - merge new entries into those lists (`addDependencies`, `addPlugins`, `addModules`). A merge skips an entry whose identity key (`getId`) is already present;
  - choose the file the document is written to (`writeOut`).
- **`modularize`** (`devScripts/remavenizer.py`) turns a Maven project into a parent project. It does this in four steps:
  - it copies every directory entry except `pom.xml` and the new module's own name into a new module directory;
  - it builds the new module's POM from the original's header, plugins and dependencies;
  - it rewrites the original POM with packaging `pom`;
  - it adds the new module to the original's module list.
- **The licenser** (`devScripts/projectLicenser.py`) rewrites a Java source file. The lines before the first `package ` line are replaced by a license text and a newline.

The model has these modules:

- **`Dom`**: the XML tree. `Node` has two cases: `Element(tag, children)` and `Text(data)`. This module holds:
  - the document-order search that `getElementsByTagName(t)[0]` performs;
  - in-place updates of the first matching element;
  - `appendChild`;
  - `replaceWholeText`.
- **`PomKeys`**: identity keys (`getId`, `__doGetId`, `__getText`), including the sort of the key specification and `lstrip`.
- **`PomMerge`**: `__mergeElements`. It is a method with loops, proved equal to a specification function. The properties of the merge are proved about that function.
- **`PomDocument`**: the POM operations, as pure functions on the document element, and the class `Pom`. The class's fields are the document element, the scaffold's attributes and the file name. Its methods replace the fields with the function results.
- **`Remavenizer`** and **`Licenser`**: the two scripts.

File-system effects are not performed. They appear as data:
- the copies `modularize` makes;
- the documents it writes, in order;
- the chunks the licenser writes.

A Python exception becomes an error value. An operation that stops part-way returns the document as Python leaves it at that point.

## Model

| member | source | states |
|---|---|---|
| Wrappers.Filter | pomManagement/Pom.py:111 | the kept items all satisfy the predicate and are no more than the input |
| Wrappers.FilterMembers | pomManagement/Pom.py:131 | every kept item comes from the input, and every input item that satisfies the predicate is kept |
| Dom.FirstIn | pomManagement/Pom.py:196 | the first element tagged `t` in document order; there is none exactly when no element of the list, or below it, has that tag |
| Dom.FirstBelow | pomManagement/Pom.py:175 | `getElementsByTagName` on an element: only descendants count, and the result is absent exactly when none has the tag |
| Dom.DocFirst | pomManagement/Pom.py:196-202 | the document's first element tagged `t` carries that tag, and there is none exactly when the document holds no element with that tag |
| Dom.DocFirstBelow | pomManagement/Pom.py:174-175 | searching the whole document equals searching below the document element when that element does not have the tag itself |
| Dom.FirstInConcat | pomManagement/Pom.py:196 | the search in a concatenation finds the first match in the left part, or else in the right part; the counts add |
| Dom.UpdateFirstIn | pomManagement/Pom.py:179-182 | replacing the children of the first match keeps the list length, and changes nothing when there is no match |
| Dom.UpdateBelow | pomManagement/Pom.py:179-182 | an update below an element keeps the node's kind and tag, and changes nothing when there is no match below it |
| Dom.DocUpdate | pomManagement/Pom.py:203-214 | an update of the document keeps the document element's tag |
| Dom.AppendChild | pomManagement/Pom.py:182 | `appendChild` adds the child at the end and keeps the other children and the tag |
| Dom.DocFirstAppend | pomManagement/Pom.py:200-201 | after an append, the first match is the old first match if there was one, else the first match in the appended node |
| Dom.UpdateFirstFinds | pomManagement/Pom.py:179-183 | after the update, the first element tagged `t` is the one with the new children |
| Dom.UpdateBelowFinds | pomManagement/Pom.py:179-183 | the same, for an update below an element |
| Dom.UpdateFirstCount | pomManagement/Pom.py:179-183 | the element counts change only by what the replaced children held and what the new children hold |
| Dom.UpdateBelowCount | pomManagement/Pom.py:179-183 | the same, below an element |
| Dom.UpdateFirstKeepsView | pomManagement/Pom.py:204 | an update of one tag does not change how another tag's first element reads, unless the new children change it |
| Dom.UpdateBelowKeepsView | pomManagement/Pom.py:204 | the same, below an element |
| Dom.UpdateFirstSame | pomManagement/Pom.py:213-214 | writing back the children the first match already has changes nothing |
| Dom.UpdateFirstKeepsFirst | pomManagement/Pom.py:196 | an update of tag `t` keeps the first element of another tag `u` when that element holds no `t` |
| Dom.UpdateFirstInConcat | pomManagement/Pom.py:179 | an update skips a prefix that holds no match |
| Dom.UpdateBelowFirstChild | pomManagement/Pom.py:204 | an update strictly below an element does not change that element's first child's kind or text |
| Dom.UpdateFirstAfterAppend | pomManagement/Pom.py:181-183 | filling a container that was just appended equals appending it already filled |
| Dom.UpdateBelowAfterAppend | pomManagement/Pom.py:181-183 | the same, below an element |
| Dom.DocUpdateAfterAppend | pomManagement/Pom.py:200-210 | the same at document level: create the element, then give it its children |
| Dom.AppendKeepsFirst | pomManagement/Pom.py:182 | an append does not change an existing first match |
| Dom.DropLeadingTexts | pomManagement/Pom.py:214 | the adjacent text siblings `replaceWholeText` removes: the shortest suffix that starts at an element, with only text before it |
| Dom.DropLeadingTextsKeepsElements | pomManagement/Pom.py:214 | removing leading text nodes removes no element and changes no search |
| Dom.ReplaceWholeText | pomManagement/Pom.py:214 | a non-empty value replaces the first text node and its adjacent text siblings with one text node; an empty value removes them all |
| Dom.ReplaceWholeTextKeepsElements | pomManagement/Pom.py:214 | replacing the text changes no element search and no element count |
| Dom.DropLeadingTextsIdempotent | pomManagement/Pom.py:214 | dropping leading texts twice equals dropping them once |
| Dom.ReplaceWholeTextIdempotent | pomManagement/Pom.py:214 | replacing with the same non-empty value twice equals replacing once |
| PomKeys.IsSpace | pomManagement/Pom.py:267 | the characters Python's `str.lstrip()` removes |
| PomKeys.LStrip | pomManagement/Pom.py:267 | a suffix of the input that starts at a non-space character, with only spaces removed before it |
| PomKeys.TextOf | pomManagement/Pom.py:263-268 | `__getText`: a node list without text nodes gives `''`. With `TextOfIgnoresElements`, `TextOfConcat` and `TextOfSingle`, the text is the lstripped data of the text nodes, joined in order, and element children add nothing |
| PomKeys.TextOfIgnoresElements | pomManagement/Pom.py:263-268 | `__getText` reads only text nodes: removing the element nodes beforehand changes nothing |
| PomKeys.TextOfConcat | pomManagement/Pom.py:265-268 | the text of a concatenation is the concatenation of the texts |
| PomKeys.TagLessTotal | pomManagement/Pom.py:251 | the order `sorted` uses on tags is total and antisymmetric |
| PomKeys.TagLessTransitive | pomManagement/Pom.py:251 | that order is transitive |
| PomKeys.InsertByTag | pomManagement/Pom.py:251 | insertion keeps the entries, as a multiset, plus the new one |
| PomKeys.InsertByTagSorted | pomManagement/Pom.py:251 | inserting into a sorted key specification keeps it sorted |
| PomKeys.SortByTag | pomManagement/Pom.py:251 | `sorted(currentLevel)`: sorted by tag and a permutation of the input |
| PomKeys.SortedUnique | pomManagement/Pom.py:251 | two sorted permutations of one specification with distinct tags are equal |
| PomKeys.SortByTagOrderIndependent | pomManagement/Pom.py:251 | the sorted key specification does not depend on the order of its entries when their tags are distinct |
| PomKeys.SortKeepsDepth | pomManagement/Pom.py:251-260 | sorting does not deepen the specification, so the recursion of `__doGetId` terminates |
| PomKeys.LeafCountSort | pomManagement/Pom.py:251-260 | sorting keeps the number of leaves |
| PomKeys.GetId | pomManagement/Pom.py:236-261 | the empty specification gives the empty key; a key that exists has one entry per leaf of the specification |
| PomKeys.IdOfFields | pomManagement/Pom.py:251-261 | the entries of one level, in sorted order; a key that exists has one entry per leaf |
| PomKeys.IdOfFieldsMissing | pomManagement/Pom.py:252-254 | an entry whose tag is absent below the element makes key extraction fail |
| PomKeys.GetIdMissing | pomManagement/Pom.py:252-254 | the same for `getId`: any missing declared tag raises |
| PomKeys.GetIdOrderIndependent | pomManagement/Pom.py:243-251 | the key does not depend on the order the specification lists its entries in |
| PomKeys.DependencyKeySorted | pomManagement/Pom.py:120-121 | the dependency specification sorts to artifact before group, whichever is declared first |
| PomKeys.DependencyKey | pomManagement/Pom.py:119-121 | a dependency's key is made of two strings, one per leaf of `[('artifactId',None),('groupId',None)]` |
| PomKeys.PluginKey | pomManagement/Pom.py:143-144 | a plugin's key is made of one string, for `artifactId` |
| PomKeys.ModuleKey | pomManagement/Pom.py:161 | with the empty specification every node, element or text, has the same key `[]` |
| PomKeys.DependencyKeyIsArtifactThenGroup | pomManagement/Pom.py:120-121 | a dependency's key is the stripped text of its first `artifactId`, then of its first `groupId`, in either declaration order |
| PomKeys.DependencyWithoutGroupFails | pomManagement/Pom.py:252-254 | a dependency without `groupId` has no key. The source's message names the whole specification level; the tag `groupId` carried by `MissingKeyField` is the model's refinement of that message |
| PomKeys.PluginKeyIsArtifact | pomManagement/Pom.py:143-144 | a plugin's key is the stripped text of its first `artifactId` |
| PomMerge.IndexStep | pomManagement/Pom.py:225-228 | one step of the first loop: only a `goodTag` element adds its key, and the first key failure stops the loop |
| PomMerge.IndexKeys | pomManagement/Pom.py:224-228 | the index of the first loop holds at most one key per element of the destination |
| PomMerge.IndexKeysHolds | pomManagement/Pom.py:225-228 | the index exists exactly when every `goodTag` element has a key, and then it holds exactly their keys: the key of each of them is in it, and each key in it is the key of one of them |
| PomMerge.IndexKeysNone | pomManagement/Pom.py:225-228 | without any `goodTag` element the index is empty |
| PomMerge.IndexKeysErrorPersists | pomManagement/Pom.py:227 | once key extraction raises, the rest of the list does not matter |
| PomMerge.IndexKeysConcat | pomManagement/Pom.py:225-228 | the index of a concatenation is the concatenation of the indexes |
| PomMerge.AppendStep | pomManagement/Pom.py:230-233 | one step of the second loop: a new key appends the candidate, a known key skips it, and a failure stops the loop |
| PomMerge.AppendNew | pomManagement/Pom.py:230-233 | the second loop appends no more nodes than there are candidates |
| PomMerge.AppendNewErrorPersists | pomManagement/Pom.py:231 | once key extraction raises, later candidates are not looked at |
| PomMerge.KeyedPrefix | pomManagement/Pom.py:230-231 | the candidates before the first one without a key |
| PomMerge.AppendNewIsFilter | pomManagement/Pom.py:230-233 | the appended nodes are the keyed prefix filtered by "key not in the index"; the loop fails exactly at the first unkeyed candidate |
| PomMerge.MergeOf | pomManagement/Pom.py:216-234 | the merge keeps the destination as a prefix and appends at most the candidates |
| PomMerge.MergeElements | pomManagement/Pom.py:216-234 | the two loops compute the merge specification: same appended list, same error |
| PomMerge.IndexDestination | pomManagement/Pom.py:224-228 | the first loop fails exactly when the index specification fails, with the same error, and otherwise collects the index |
| PomMerge.AppendCandidates | pomManagement/Pom.py:230-233 | the second loop appends what the append specification appends and stops with its error |
| PomMerge.MergeAppendsUnindexed | pomManagement/Pom.py:223-234 | when every key exists: destination, then the candidates whose key was in no `goodTag` destination element, in order |
| PomMerge.MergeStopsAtFirstUnkeyed | pomManagement/Pom.py:230-233 | a candidate without a key stops the merge, and the candidates appended before it stay appended |
| PomMerge.MergeKeepsSharedNewKeys | pomManagement/Pom.py:230-233 | two candidates with the same new key are both appended, because the index is not extended in the second loop |
| PomMerge.MergeTwiceIsNoOp | pomManagement/Pom.py:216-234 | merging the same `goodTag` candidates a second time appends nothing |
| PomMerge.SecondIndex | pomManagement/Pom.py:225-228 | the index after a merge is the old index plus the keys of the appended candidates |
| PomMerge.MergeWithEmptyKey | pomManagement/Pom.py:161 | with the empty key every candidate shares one key: all candidates are appended when the destination holds no `goodTag` element, else none |
| PomMerge.MergeIntoEmpty | pomManagement/Pom.py:216-234 | merging keyed candidates into an empty list gives the candidates, key duplicates included |
| PomDocument.ScaffoldAttributes | pomManagement/Pom.py:45-47 | the three attributes of the scaffold: the namespace, the XSI namespace and the schema location |
| PomDocument.EmptyProject | pomManagement/Pom.py:42-44 | the scaffold's document element: `project` with no children |
| PomDocument.ReadField | pomManagement/Pom.py:186-191 | `__returnElement`: succeeds exactly when the first element with the tag has a text first child, and returns its data |
| PomDocument.SetField | pomManagement/Pom.py:194-214 | `__checkAndSetTextNode`: keeps the document element's tag, and leaves the document unchanged when it raises |
| PomDocument.SetFieldFails | pomManagement/Pom.py:204-214 | setting a field raises exactly when its element starts with an element child |
| PomDocument.SetFieldReads | pomManagement/Pom.py:194-214 | after setting, the field reads the value. The one exception is an empty value over an existing text, which `replaceWholeText('')` removes, so the field no longer reads |
| PomDocument.SetFieldKeepsOthers | pomManagement/Pom.py:194-214 | setting one field does not change how another field reads, nor how many elements carry the other tag |
| PomDocument.SetFieldCount | pomManagement/Pom.py:198-203 | setting a field creates its element only when none exists |
| PomDocument.SetFieldIdempotent | pomManagement/Pom.py:194-214 | setting the same non-empty value twice equals setting it once |
| PomDocument.SetFields | pomManagement/Pom.py:82-90 | fields set in turn keep the document element's tag; the first failure stops the sequence |
| PomDocument.SetFieldsKeepsOthers | pomManagement/Pom.py:82-90 | a field that is not in the sequence keeps its reading and its count |
| PomDocument.SetFieldsSucceeds | pomManagement/Pom.py:82-90 | the sequence succeeds exactly when none of its fields starts with an element child beforehand |
| PomDocument.SetFieldsReads | pomManagement/Pom.py:82-90 | after a successful sequence, every field set reads what setting it alone leaves: its value, or no text where an existing text was reset to the empty string |
| PomDocument.SetFieldsCount | pomManagement/Pom.py:82-90 | each field of the sequence has its element created only when absent |
| PomDocument.HeadFieldsDistinct | pomManagement/Pom.py:82-90 | the fields `provideHead` sets have distinct tags, none of them `project` |
| PomDocument.HeadFields | pomManagement/Pom.py:82-90 | `provideHead` sets at least five fields, `modelVersion` first with `4.0.0`, and only header tags |
| PomDocument.HeadFieldsTags | pomManagement/Pom.py:82-90 | `provideHead` sets `modelVersion`, `groupId`, `artifactId`, `version`, `packaging`, plus `name` and `url` only when given |
| PomDocument.HeadOfReads | pomManagement/Pom.py:92-103 | `getHead` succeeds with a header exactly when each of its six fields reads that header's value |
| PomDocument.HeadOf | pomManagement/Pom.py:92-103 | a header that `getHead` returns holds, field by field, what `__returnElement` reads for each of the six tags |
| PomDocument.HeadOfFails | pomManagement/Pom.py:92-103 | `getHead` raises exactly when one of the six fields does not read; a missing `groupId` is reported first |
| PomDocument.ProvideHeadOf | pomManagement/Pom.py:78-90 | `provideHead` keeps the document element's tag |
| PomDocument.ProvideHeadReads | pomManagement/Pom.py:78-90 | after a successful `provideHead`, `modelVersion` reads `4.0.0` and every given field reads its value, except that a field which held a text and is given `''` has no text left to read |
| PomDocument.ProvideHeadSkipsAbsent | pomManagement/Pom.py:86-90 | a `name` or `url` that is not given keeps its reading and its count |
| PomDocument.ProvideHeadSucceeds | pomManagement/Pom.py:78-90 | `provideHead` succeeds exactly when none of its fields starts with an element child beforehand |
| PomDocument.ProvideHeadTwice | pomManagement/Pom.py:78-90 | after a `provideHead` with non-empty values, a second one with any values, setting no field the first left out, succeeds and adds no element; each field it sets reads its new value, or no text when that value is `''` |
| PomDocument.ProvideHeadAgain | pomManagement/Pom.py:78-90 | a second `provideHead` over fields that all read a text, setting no field the first left out, succeeds, resets each field it sets and adds no element |
| PomDocument.ProvideHeadAgainSucceeds | pomManagement/Pom.py:78-90 | `provideHead` succeeds when every field it sets reads a text beforehand |
| PomDocument.ProvideHeadAgainCounts | pomManagement/Pom.py:194-202 | a successful second `provideHead` that sets no field the first left out creates no element |
| PomDocument.Leaves | pomManagement/Pom.py:200-210 | the elements created for fields, one per field, each holding one text |
| PomDocument.SetFieldsFresh | pomManagement/Pom.py:198-210 | on a document without those fields, setting them appends one leaf element per field, in order |
| PomDocument.ProvideHeadOnScaffold | pomManagement/Pom.py:78-90 | on the empty scaffold, `provideHead` succeeds and the document element's children are exactly the header leaves |
| PomDocument.ScaffoldHeadReads | test/tesPomManagement.py:68-79 | on the scaffold, after `provideHead`, `getHead` returns the values given, empty ones included, and `modelVersion` is `4.0.0` |
| PomDocument.ScaffoldHeadTexts | pomManagement/Pom.py:78-90 | on the empty scaffold `provideHead` succeeds and every field it sets reads a text, empty values included |
| PomDocument.ScaffoldHeadTwice | test/tesPomManagement.py:73-86 | on the scaffold the header can be reset with any values, the test's `''` for name, packaging and url included: the reset succeeds, adds no element, and each field reads its new value, or no text for `''` |
| PomDocument.StoreList | pomManagement/Pom.py:178-184 | writing a list back keeps the tag |
| PomDocument.ListToUpdate | pomManagement/Pom.py:171-184 | the list to merge into is empty when no element below holds the container tag, and otherwise is the children of the first such container |
| PomDocument.StoreListFinds | pomManagement/Pom.py:171-184 | afterwards, the first container below holds exactly the list, whether it was found or created |
| PomDocument.MergeInto | pomManagement/Pom.py:171-184 | a merge into a container keeps the document element's tag |
| PomDocument.MergeIntoAppends | pomManagement/Pom.py:171-184 | the container ends with its old children followed by the merge additions; when every key exists, these are the candidates with new keys |
| PomDocument.MergeIntoList | pomManagement/Pom.py:171-184 | the method that creates the container, merges and stores the list equals the specification of the merge into the container |
| PomDocument.AddDependenciesOf | pomManagement/Pom.py:115-121 | `addDependencies` keeps the document element's tag |
| PomDocument.AddModulesOf | pomManagement/Pom.py:156-161 | `addModules` keeps the document element's tag |
| PomDocument.AddPluginsOf | pomManagement/Pom.py:134-144 | `addPlugins` raises exactly when the document already has a `build`, and then changes nothing |
| PomDocument.BuildModuleReads | pomManagement/Pom.py:163-169 | a built module reads its name, and its key is empty |
| PomDocument.BuildModule | pomManagement/Pom.py:163-169 | `buildModule` gives a `module` element whose first child is the text of the module name |
| PomDocument.DependenciesOf | pomManagement/Pom.py:105-113 | `getDependencies` returns element nodes only |
| PomDocument.PluginsOf | pomManagement/Pom.py:123-132 | `getPlugins` returns element nodes only |
| PomDocument.ModulesOf | pomManagement/Pom.py:146-154 | `getModules` is empty without a `modules` element and otherwise returns all children of the first one, text nodes included |
| PomDocument.AddDependenciesReadBack | pomManagement/Pom.py:105-121 | after `addDependencies`, `getDependencies` returns the old list followed by the added elements; when every key exists, these are the new-keyed candidates |
| PomDocument.AddModulesWithEmptyKey | pomManagement/Pom.py:146-161 | `addModules` never raises; it appends all candidates when no `module` was present, else none |
| PomDocument.AddPluginsReadBack | pomManagement/Pom.py:123-144 | with no `build` and no `plugins`, a `build/plugins` holding the merge is appended; when every key exists, `getPlugins` returns all plugins given |
| PomDocument.SetFieldKeepsFirst | pomManagement/Pom.py:194-214 | setting a field keeps the first element of another tag when that element holds no field of the first tag |
| PomDocument.SetFieldsKeepsFirst | pomManagement/Pom.py:82-90 | the same for a sequence of fields |
| PomDocument.ProvideHeadKeepsFirst | pomManagement/Pom.py:78-90 | `provideHead` keeps the first element of a non-header tag that holds no header field |
| PomDocument.AddModulesKeepsField | pomManagement/Pom.py:156-161 | `addModules` does not change how a field reads when neither the old modules nor the new ones hold that field |
| PomDocument.Pom.constructor | pomManagement/Pom.py:41-47 | `Pom()`: the empty `project` scaffold, its three attributes, no file name |
| PomDocument.Pom.Load | pomManagement/Pom.py:38-40 | `Pom(fileName)`: the given parsed document element, and the file name remembered |
| PomDocument.Pom.CheckAndSetTextNode | pomManagement/Pom.py:194-214 | the new document and the error are those of the field update specification; attributes and file name are unchanged |
| PomDocument.Pom.ProvideHead | pomManagement/Pom.py:78-90 | the field-by-field calls produce the header specification's document and error |
| PomDocument.Pom.AddDependencies | pomManagement/Pom.py:115-121 | the new document and the error are those of the `addDependencies` specification |
| PomDocument.Pom.AddModules | pomManagement/Pom.py:156-161 | the new document and the error are those of the `addModules` specification |
| PomDocument.Pom.AddPlugins | pomManagement/Pom.py:134-144 | the new document and the error are those of the `addPlugins` specification |
| PomDocument.Pom.WriteTarget | pomManagement/Pom.py:50-64 | the file `writeOut` writes: the name given, else the loaded file's name; raises exactly when neither exists |
| Remavenizer.CopiesOf | devScripts/remavenizer.py:46-48 | one copy per entry, from `pomPath/f` to `pomPath/newModuleName/f` |
| Remavenizer.CopyEntries | devScripts/remavenizer.py:46-48 | the loop copies exactly the listed entries other than `pom.xml` and the module name, in listing order |
| Remavenizer.CopyOfInjective | devScripts/remavenizer.py:48 | different entries are copied to different targets |
| Remavenizer.CopiedExactly | devScripts/remavenizer.py:46-48 | an entry is copied if and only if it is listed and is neither `pom.xml` nor the module name; every copy comes from such an entry |
| Remavenizer.ChildOf | devScripts/remavenizer.py:51-56 | the new module's POM is a `project` |
| Remavenizer.FillChild | devScripts/remavenizer.py:55-56 | adding the original's plugins, then its dependencies, keeps the tag |
| Remavenizer.ParentOf | devScripts/remavenizer.py:59-61 | the rewritten original keeps its document element's tag |
| Remavenizer.ModularizeOf | devScripts/remavenizer.py:42-63 | the copies are those of the filter; when `getHead` on the original raises, nothing is written and that error is returned |
| Remavenizer.Modularize | devScripts/remavenizer.py:42-63 | the method that drives two `Pom` objects equals the specification of the whole run: copies, written documents in order, and the error |
| Remavenizer.ChildStart | devScripts/remavenizer.py:51-54 | after `provideHead`, the new POM holds just the header leaves, and they hold no list container |
| Remavenizer.ChildShape | devScripts/remavenizer.py:51-56 | the new POM is the header leaves followed by a `build/plugins` block, and that block is the document's first `build` and first `plugins` |
| Remavenizer.ChildHeader | devScripts/remavenizer.py:53-54 | the new POM's header is `groupId.artifactId` as group, the module name as artifact, and the original's version, name, packaging and url; `modelVersion` is `4.0.0` |
| Remavenizer.ChildLists | devScripts/remavenizer.py:55-56 | when every key exists and no plugin holds a `dependencies` element, the new POM reads exactly the original's plugins and dependencies |
| Remavenizer.ParentHeadStep | devScripts/remavenizer.py:59 | the rewrite of the original's header succeeds and leaves its modules in place |
| Remavenizer.ParentHeader | devScripts/remavenizer.py:59-61 | the rewritten original keeps its header except that packaging is `pom`, and `modelVersion` is `4.0.0` |
| Remavenizer.ParentModules | devScripts/remavenizer.py:60-61 | the new module is appended to the original's modules exactly when they held no `module`; it reads the module name |
| Remavenizer.ModularizeWrites | devScripts/remavenizer.py:42-63 | the run writes exactly two documents: the new module's POM at `pomPath/newModuleName/pom.xml` and then the original in place, with the headers and lists above |
| Licenser.FirstPackage | devScripts/projectLicenser.py:57-59 | the index of the first line that starts with `package `: every line before it lacks the marker, and the line at it has it |
| Licenser.GetContent | devScripts/projectLicenser.py:54-62 | the loop with the `found` flag returns the lines from the first `package ` line on |
| Licenser.FromPackageIsSuffix | devScripts/projectLicenser.py:54-62 | the result is a suffix that starts with a `package ` line, and no dropped line has the marker |
| Licenser.FromPackageEmpty | devScripts/projectLicenser.py:54-62 | nothing is kept exactly when no line starts with `package ` |
| Licenser.FirstPackageSkips | devScripts/projectLicenser.py:58 | lines without the marker in front shift the first `package ` line by their number |
| Licenser.FirstPackageStays | devScripts/projectLicenser.py:58-59 | lines added after a `package ` line do not move the first one |
| Licenser.FromPackageKeepsLater | devScripts/projectLicenser.py:58-61 | once a `package ` line has been seen, every later line is kept |
| Licenser.FromPackageIdempotent | devScripts/projectLicenser.py:54-62 | filtering the kept lines again changes nothing |
| Licenser.LicenseFile | devScripts/projectLicenser.py:44-52 | the file is rewritten as the license lines, a newline, then the kept lines |
| Licenser.JoinConcat | devScripts/projectLicenser.py:49-51 | text written in chunks is the concatenation of the chunks |
| Licenser.LicensedText | devScripts/projectLicenser.py:49-51 | the rewritten file's text is the license text, `\n`, then the text from the first `package ` line on |
| Licenser.RelicenseIsStable | devScripts/projectLicenser.py:44-62 | as chunks: filtering the chunks of a licensed file and licensing them again, with a license that has no `package ` line, gives the same chunks |
| Licenser.LineLength | devScripts/projectLicenser.py:33-36 | the first line of a text ends at its first newline, or at the end of the text |
| Licenser.ReadLines | devScripts/projectLicenser.py:33-36 | `readlines()` cuts a text into lines, each ended by a newline but perhaps the last, that join back into the text |
| Licenser.ReadLinesJoin | devScripts/projectLicenser.py:33-36 | lines written one after the other read back as the same lines |
| Licenser.FromPackageIsLines | devScripts/projectLicenser.py:54-62 | the lines `getContent` keeps are still lines |
| Licenser.RelicenseTextIsStable | devScripts/projectLicenser.py:44-62 | as text: licensing a licensed file again gives the same file, when the file has a `package ` line and the license file ends with a newline and has no `package ` line |

## Left out

- **Parsing and serialisation.**
  - `minidom.parse` is not modelled: `Pom.Load` takes the parsed document element as its argument.
  - `toprettyxml` and `toxml` are not modelled: a written document is recorded as its element tree.
  - Attributes of a loaded document are not kept: `Load` records none. Namespaces count only as the scaffold's attributes.
  - Comments, processing instructions and other node kinds are not modelled, because the core only distinguishes elements from text.
- **File system.**
  - `open`, `write`, `os.mkdir`, `os.listdir` and `shutil.copytree` are not performed. The directory listing is a parameter, and the copies and writes are returned as data. Failures of these operations are not modelled (see `Remavenizer.ModularizeOf` below).
  - The licenser's `os.walk`, regular-expression file search, license reading and command line are outside the core.
- **Node identity.** minidom nodes are shared objects. `__mergeElements` adds a node with `ret.append(el)` on the destination's `childNodes`, not with `appendChild`. The node is therefore not moved: it stays in the original document and is also reachable from the new one. Here nodes are values, so a node copied into the new POM is a separate copy, and a later change made through one document does not reach the other.
- **Key sort tie-breaking.** `sorted(currentLevel)` compares whole `(tag, sub-specification)` tuples in Python. The model sorts by tag only, so the order of entries that share a tag is not modelled. The source's own specifications (`DependencyKey`, `PluginKey`, `ModuleKey`) have distinct tags.
- **Accumulator.** The `currentSolution` accumulator of `__doGetId` is always `[]` in the source and is dropped.
- **Empty values.** `replaceWholeText('')` removes the text node. The model does this too, so afterwards `SetFieldReads`, `SetFieldsReads` and `ProvideHeadReads` show the field reading as missing rather than as `''`.
- PomDocument.AddPluginsOf: an existing `build` is modelled as the `BuildPresent` error with the document unchanged. In the source, `appendChild` is called with a node list and raises.
- Remavenizer.ChildLists: also requires that no plugin of the original holds a `dependencies` element. `addDependencies` searches the whole document, so it would merge into that element instead.
- Remavenizer.ModularizeWrites: requires the conditions of `ChildLists`, `ParentHeader` and `ParentModules`. The error paths outside those conditions are stated only in `ModularizeOf` (a `getHead` failure) and in the error results of the operations.
- Remavenizer.ParentHeader: requires non-empty header values, because an empty value removes the text node, as described under "Empty values" above.
- PomDocument.ProvideHeadTwice: requires non-empty values in the first call. An empty value over a text followed by an element makes that element the first child, and then the second call raises. `ScaffoldHeadTwice` covers the test's empty values on the scaffold.
- PomDocument.ScaffoldHeadTwice: requires that the reset gives `name` and `url` only when the first call did. Otherwise the reset also creates those elements.
- Remavenizer.ParentOf: when a plugin of the original holds a `dependencies` element, the source's `addDependencies` on the new POM appends into that element, because the plugin node is shared (`devScripts/remavenizer.py` line 56). The original POM written at line 62 then carries those dependencies too. The model's rewritten original does not, and neither does `ModularizeOf`'s.
- Remavenizer.ModularizeOf: does not capture that shared-node effect on the original POM (see `ParentOf` above). It also assumes every copy succeeds: `shutil.copytree` (`devScripts/remavenizer.py` line 48) raises on a plain file, so in the source a top-level entry other than `pom.xml` that is not a directory stops `modularize` before any POM is built. Likewise the module directory is assumed not to exist yet: `os.mkdir` (`devScripts/remavenizer.py` line 44) raises when it does, before any copy is made, and the model has no such error.
- Licenser.RelicenseTextIsStable: requires the license file to end with a newline. Without one, its last line and the added newline read back as one line, a case the lemma does not cover.
- Remavenizer.CopyEntries: records a copy for every kept entry, as if each were a directory. For a plain file, `shutil.copytree` raises and the source stops there.
- Remavenizer.ModularizeWrites: assumes, like `ModularizeOf`, that every kept entry is a directory, so the copies succeed.
