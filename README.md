# rbxplugin: the directory-to-model builder, in Dafny

rbxplugin turns a directory of Lua scripts and other files into a Roblox model document (an
`.rbxm` file, which is XML) and can upload the result as a plugin. This project models the part
that builds the document (writer.go) and the command-side logic that surrounds it
(rbxplugin.go). It proves what that code promises about the tree it builds:

- the object each file or directory becomes;
- which nodes a directory merges into;
- the referent ids handed out and renumbered;
- the whitespace layout;
- the text escaper.

The model is organised as follows.

- **Xml** (`xml.dfy`): the XML tree as a value, `Element(tag, attrs, children) | Text(value)`.
  - `leading`.
  - The insertions `AddChildAt(x, -2)` ("insert before the current last child") and `AddChildAt(x, i)`.
  - `SetAttr` and `GetAttr`.
  - `GetValue`.
  - `SelectNodes`: the outermost elements with a tag.
- **Strings**, **Paths**, **Fs** (`strings.dfy`, `paths.dfy`, `fs.dfy`):
  - `strconv.Itoa` and the `RBX<k>` referent ids;
  - Go's `<` on strings;
  - `filepath.Ext` and `splitName`;
  - the directory tree as a value (`Entry`);
  - `byName.Less` and the sort in `readDir`.
- **Layout** (`layout.dfy`): `fixIndentation`.
  - Its text-removing loop and its whitespace-inserting loop are methods proved against a specification function (`Indented`).
  - Its ancestor-counting loop is not a loop in the model: the count is the `anc` parameter of `FixNode`, which goes up by one per level.
- **Items** (`items.dfy`): `Item`, `Property` and `Item.Node`. The insertion loop is a method; the shape it builds is a function; a decoding function proves the shape loses nothing.
- **Referents** (`referents.dfy`): the renumbering pass that both `walk` (for a spliced model) and `WriteRBXM` (for the whole document) run.
  - The loop that fills the map from old id to new id is a method (`RenumberPass`).
  - The relabelling of every referent-bearing `Item` in pre-order from a counter is the recursive function `RelabelForest`.
  - The rewrite of the `Ref` elements through the map is the recursive function `RetargetForest`.
  - `Renumber` is the whole pass: these three together.
- **Walker** and **WalkFacts** (`walker.dfy`, `walk_facts.dfy`): `walk` and `Walk`.
  - The state threaded through the walk is a `State(parent, uncles, next)`:
    - `parent` is the node being filled;
    - `uncles` maps a file's base name to its node's position among the parent's children;
    - `next` is the referent counter.
  - The walk is a family of functions. The `Run…` methods do the same steps statement by statement and are proved equal to them.
- **Writer** (`writer.go` → `writer.dfy`): `WriteRBXM` up to serialisation.
  - The `roblox` envelope.
  - The walk.
  - The final renumbering from RBX0.
  - The `nil` map handed to `walk`.
- **Escape** (`escape.dfy`): the byte-wise `EscapeText` installed by `init`. It is proved against an unescaper: escaping is injective and safe.
- **Plugin** (`plugin.dfy`):
  - `isInCharacterRange`, compared with the Char production of section 2.2 of XML 1.0.
  - The `Build` cache, as a class over `buildResults`.
  - The argument checks of `Deploy` and `Create`.

The code differs from the repository's own description in some places. The model follows the code:

- The root input directory itself becomes a `Backpack` and takes RBX0 (writer.go:278 reaches writer.go:113-134).
- A directory that cannot be listed simply gets no children (writer.go:257-260). Only the failing `Lstat` in `Walk` is an error (writer.go:273-276).
- The `uncles` key of `x.module.lua` is `x.module`.
- Directories are never entered in `uncles`.
- The description says that a Ref to an unknown id is left untouched. The splice pass does leave alone a Ref in a model whose value names no Item of that model (writer.go:204-212; `WalkFacts.ModelFile`). But the final pass (writer.go:355-363) maps every id the walk issued. If such a Ref's value happens to be one of them, the final pass points it at that Item (`Writer.FinishReferents`). An example: a root holding `a.txt`, `b.txt`, `e.rbxm` and a directory `a/` with `c.txt` gets, in walk order, root RBX0, a RBX1, b RBX2, e's Item RBX3 and c RBX4. In document order c comes before b, so a Ref in `e.rbxm` whose value is `RBX2`, an id that none of `e.rbxm`'s own Items uses, names b in the final map and comes out as `RBX3`.

## Model

| member | source | states |
|---|---|---|
| Xml.Leading | writer.go:30-32 | a newline followed by exactly `n` tabs |
| Xml.InsertAt | writer.go:56-58 | the node lands at index i, with the prefix before it and the suffix after it unchanged |
| Xml.InsertBeforeLast | writer.go:133-134 | the list grows by exactly one node |
| Xml.InsertBeforeLastAt | writer.go:133-134 | the new node sits just before the old last child; every earlier child keeps its place; the old last child moves up by one |
| Xml.GetAttrFirst | writer.go:197-199 | a value that `HasAttr`/`As` find is that of the first attribute with that name |
| Xml.TextOf | writer.go:206 | element children contribute nothing to GetValue; a single text child gives its own value |
| Xml.Outer | writer.go:187 | SelectNodes returns only elements with the tag asked for |
| Xml.SetAttr | writer.go:130 | the attribute reads back as set; every other attribute reads as before; a new name is appended at the end; an existing one is overwritten without changing the number of attributes |
| Strings.Itoa | writer.go:130 | decimal digits with no leading zero except for 0 itself |
| Strings.AtoiItoa | writer.go:130 | parsing the decimal text gives back the number, so `strconv.Itoa` loses nothing |
| Strings.ReferentInjective | writer.go:130 | `RBX<j>` and `RBX<k>` are equal exactly when j = k |
| Strings.IdsDistinct | writer.go:349-352 | a run of consecutive ids has no repeats |
| Strings.BelowTransitive | writer.go:303 | Go's string `<` is transitive |
| Strings.BelowTotal | writer.go:303 | for any two strings, they are equal or one is below the other |
| Strings.BelowIrreflexive | writer.go:303 | no string is below itself |
| Paths.Ext | writer.go:311 | the extension is a suffix; it is empty or starts with `.`; it has no further `.` or `/`; it is empty exactly when the last path element has no dot |
| Paths.SplitName | writer.go:310-313 | base + ext is the name; ext is empty or starts at the last `.` of the last path element |
| Paths.SplitNameAt | writer.go:138 | a name `b.w` with `w` free of dots and slashes splits into `b` and `.w` |
| Fs.Less | writer.go:299-308 | a file always comes before a directory, and a directory never comes before a file |
| Fs.LessIrreflexive | writer.go:299-308 | no entry is below itself |
| Fs.LessAsymmetric | writer.go:299-308 | no two entries are each below the other |
| Fs.LessTransitive | writer.go:299-308 | `Less` is transitive |
| Fs.LessTotal | writer.go:299-308 | entries with distinct names are always ordered one way or the other |
| Fs.LessNegativeTransitive | writer.go:299-308 | incomparability is transitive, so this is the strict weak order `sort.Sort` needs |
| Fs.Insert | writer.go:291 | insertion adds exactly one copy of the entry |
| Fs.InsertSorted | writer.go:291 | insertion into a sorted listing keeps it sorted |
| Fs.SortByName | writer.go:291 | the result is sorted and a permutation of the input |
| Fs.ReadDir | writer.go:281-293 | a failure exactly when the directory cannot be listed; otherwise the listing, sorted and permuted |
| Fs.SortedGroups | writer.go:299-308 | in a sorted listing every file precedes every directory; names never descend within a group and strictly ascend when distinct |
| Fs.SortedUnique | writer.go:291 | distinct names admit only one sorted arrangement, so an unstable sort still gives this listing |
| Layout.FixNode | writer.go:214-216 | a text node is left as it is; an element keeps its tag and its attributes |
| Layout.FixForest | writer.go:214-216 | the forest keeps its number of nodes |
| Layout.Indented | writer.go:55-61 | the children become one line break before each element plus the closing break: twice the number of elements, plus one |
| Layout.RemoveText | writer.go:37-45 | the first loop leaves exactly the element children, in order |
| Layout.InsertLeading | writer.go:54-58 | the second loop leaves each element preceded by the leading whitespace of this level |
| Layout.FixIndentation | writer.go:34-62 | the children become `Indented(children, level)` |
| Layout.IndentedLayout | writer.go:34-62 | the result alternates `Leading(level)` with the original elements in order and ends with `Leading(level - 1)`; it keeps the elements; relaying it gives the same |
| Layout.StripLaid | writer.go:54-58 | removing the whitespace again gives back the elements |
| Layout.FixNodeIdempotent | writer.go:214-216 | relaying every element with a tag a second time, with the same parentage, changes nothing |
| Layout.FixForestIdempotent | writer.go:214-216 | the same for a whole forest |
| Items.FillProperties | writer.go:89-103 | the loop gives each property's element after its own line break, then the closing break |
| Items.ItemNode | writer.go:77-106 | `Item.Node` builds the `Item/Properties/<type name=..>` shape `ItemShape`, by the code's insertions |
| Items.ItemRoundTrip | writer.go:77-106 | the class and every property (type, name and value, in order) can be read back from the node |
| Items.PropertyRoundTrip | writer.go:90-99 | one property element gives back its type, name and value, including a `null` Content |
| Items.FreshItemLaidOut | writer.go:77-106 | an object built by `Item.Node` is already in the layout fixIndentation gives: normalising its Item and Properties elements at its own depth changes nothing, provided no property type is itself `Item` or `Properties` |
| Referents.ViewOf | writer.go:357 | the first child's text and the text of the rest together give GetValue |
| Referents.RelabelNode | writer.go:346-354 | the counter advances by the number of referent-bearing Items |
| Referents.RelabelForest | writer.go:346-354 | the counter advances by the number of referent-bearing Items; the forest keeps its number of nodes |
| Referents.RelabelForestReferents | writer.go:346-354 | after relabelling, the referents in pre-order are RBX<start>, RBX<start+1>, … |
| Referents.RelabelNodeReferents | writer.go:346-354 | the same for one node |
| Referents.RelabelForestOnlyReferents | writer.go:346-354 | relabelling changes the referent attributes and nothing else |
| Referents.RelabelForestRefs | writer.go:346-354 | relabelling leaves every Ref as it was |
| Referents.RetargetNode | writer.go:355-363 | a text node is left as it is, and an element stays an element |
| Referents.RetargetForest | writer.go:355-363 | the forest keeps its number of nodes |
| Referents.RetargetForestRefs | writer.go:355-363 | each Ref whose value is a key, and whose first child is a text, now holds the mapped id; every other Ref is untouched |
| Referents.RetargetNodeRefs | writer.go:355-363 | the same for one node |
| Referents.RetargetForestReferents | writer.go:355-363 | rewriting Refs leaves every referent as it was |
| Referents.OuterRetargetForest | writer.go:187 | rewriting keeps the number of outermost elements of each tag |
| Referents.OuterRelabelForest | writer.go:187 | relabelling keeps the number of outermost elements of each tag |
| Referents.RefMapOf | writer.go:345-350 | the map's keys are exactly the old ids |
| Referents.Renumber | writer.go:343-363 | the counter advances by the number of referents; the forest keeps its number of nodes |
| Referents.BareForest | writer.go:343-363 | blanking what the pass may rewrite keeps the number of nodes |
| Referents.BareRelabelForest | writer.go:346-354 | relabelling changes the referent ids and nothing else |
| Referents.BareRetargetForest | writer.go:355-363 | rewriting the Refs changes the first text child of a Ref that hits and nothing else |
| Referents.RefsFixForest | writer.go:214-216 | relaying the Items or the Properties leaves every Ref as it was |
| Referents.RefsOuterRelabelForest | writer.go:193-203 | inside the outermost elements of a tag, relabelling leaves every Ref as it was |
| Referents.RefsOuterRetargetForest | writer.go:204-212 | inside the outermost elements of a tag, the Refs are rewritten through the map |
| Referents.RefsOuterFixForest | writer.go:214-216 | inside the outermost elements of a tag, relaying leaves every Ref as it was |
| Referents.RefMapDistinct | writer.go:345-350 | with no repeated old ids, the k-th old id maps to RBX<start + k> |
| Referents.RenumberSpec | writer.go:194-212 | the pass gives ids RBX<start>… in pre-order; it advances the counter by their number; it keeps the outermost counts; it rewrites every Ref through the old-to-new map; with the ids and the Refs' first texts blanked (`BareForest`), the forest is as before |
| Referents.RenumberPass | writer.go:343-363 | the loop that fills the old-to-new map, then the relabelling and the rewrite of the Refs, compute `Renumber` |
| Referents.ReferentsFixForest | writer.go:214-216 | relaying whitespace neither adds, drops nor reorders referents |
| Referents.ReferentsOuter | writer.go:187-195 | every referent lies in an outermost Item |
| Walker.Fresh | writer.go:128-131 | an `Item` element; its referent, RBX<next>, is stated by `Walker.FreshReferents` |
| Walker.FileItem | writer.go:145-243 | only a `.lua` file becomes a Script or a ModuleScript; the file's content is the object's last property (its Source or its Value) |
| Walker.FreshReferents | writer.go:128-131 | a fresh object carries exactly one referent, RBX<next> |
| Walker.Attach | writer.go:133-134 | the node goes in just before the closing whitespace, after a line break of its own; earlier children stay where they were |
| Walker.AttachAll | writer.go:219-222 | the nodes go in in order; the first lands just after the old children |
| Walker.AttachReferents | writer.go:133-134 | the parent gains exactly the attached node's referents |
| Walker.AttachAllReferents | writer.go:219-222 | the parent gains exactly the attached nodes' referents |
| Walker.ReplaceReferents | writer.go:117-136 | filling a reused node adds its new referents to the parent, and nothing else |
| Walker.Record | writer.go:247-249 | the walk invariant is kept; the tree and the counter are unchanged |
| Walker.Place | writer.go:173-179 | the fresh object with referent RBX<next> is attached after the old children; the uncles are unchanged; the counter advances by one |
| Walker.Prepare | writer.go:193-216 | the counter advances by the number of referents; the outermost Items keep their number and carry RBX<start>… |
| Walker.PreparedRefs | writer.go:204-216 | the Refs inside the prepared model's outermost Items are the model's, rewritten through the model's old-to-new map |
| Walker.Splice | writer.go:180-226 | the walk invariant is kept and the counter never decreases |
| Walker.WalkFile | writer.go:137-251 | the walk invariant is kept; the counter never decreases; the parent keeps its tag and attributes |
| Walker.WalkUncle | writer.go:117-136 | the same for a directory merged into an earlier file's node |
| Walker.WalkBackpack | writer.go:119-135 | the same for a directory that becomes a new Backpack |
| Walker.Fill | writer.go:253-269 | the counter never decreases; the filled node keeps its tag and attributes |
| Walker.WalkChildren | writer.go:262-268 | the walk invariant is kept through the sorted listing; the counter never decreases; the parent keeps its tag and attributes |
| Walker.Walk | writer.go:272-279 | with an empty map in place of the nil one (see Findings): fails exactly when the input cannot be found; otherwise the walk invariant holds and the root keeps its tag and attributes |
| Walker.WalkEntry | writer.go:111-270 | every uncle stays an element child before the last child; the counter never decreases; the parent keeps its tag and attributes |
| Walker.PreparedReferents | writer.go:193-203 | the Items a prepared model contributes carry exactly the ids it was renumbered with |
| Walker.PlaceReferents | writer.go:173-176 | a file's object adds exactly RBX<next> |
| Walker.SpliceReferents | writer.go:193-222 | a splice adds exactly RBX<next> … RBX<next'-1> |
| Walker.FileReferents | writer.go:137-251 | a file adds exactly the ids by which it advances the counter |
| Walker.UncleReferents | writer.go:117-136 | a merged directory adds exactly the ids its contents take |
| Walker.BackpackReferents | writer.go:119-135 | a new Backpack adds exactly its own id and those of its contents |
| Walker.FillReferents | writer.go:253-269 | walking a directory's children adds exactly the ids by which the counter advances |
| Walker.WalkChildrenReferents | writer.go:262-268 | the same for any prefix of the sorted listing |
| Walker.WalkEntryReferents | writer.go:111-270 | any entry adds to the tree exactly the ids RBX<next> … RBX<next'-1>, each once |
| Walker.MakeNode | writer.go:128-131 | `item.Node` then `SetAttr("referent", …)` builds `Fresh` |
| Walker.RunEntry | writer.go:111-270 | the statements of `walk` compute `WalkEntry` |
| Walker.RunFile | writer.go:137-251 | the file branch computes `WalkFile` |
| Walker.RunSplice | writer.go:180-226 | the `.rbxm` branch computes `Splice` |
| Walker.RunPrepare | writer.go:193-216 | the remap and the relayout compute `Prepare` |
| Walker.RunAttachAll | writer.go:219-222 | the attaching loop computes `AttachAll` |
| Walker.RunDir | writer.go:253-269 | listing and walking the children, with a fresh map, computes `Fill` |
| Walker.RunChildren | writer.go:262-268 | the loop over the listing computes `WalkChildren` |
| Walker.RunWalk | writer.go:272-279 | `Walk` computes `Walk` |
| WalkFacts.FreshShape | writer.go:121-131 | a fresh object decodes to its Item; its referent is RBX<next>; its class is the Item's |
| WalkFacts.AttachLaid | writer.go:133-134 | the parent's children become old children, a line break and the node, then the closing whitespace |
| WalkFacts.AttachAllLaid | writer.go:219-222 | the same for several nodes, each after its own line break |
| WalkFacts.ModuleSplit | writer.go:138-149 | `x.module.lua` splits into `x.module` and `.lua`, and `x.module` into `x` and `.module` |
| WalkFacts.PlacedFile | writer.go:173-179 | a readable file that is not a model becomes one fresh object with RBX<next>, attached after the old children; the counter advances by one; its base is paired with that position unless taken |
| WalkFacts.ModuleScriptFile | writer.go:145-159 | `x.module.lua` gives a ModuleScript [Name=x, Source=content] with the next referent; the counter advances by one; the key `x.module` is entered if absent |
| WalkFacts.ScriptFile | writer.go:160-179 | another `.lua` gives a Script [Disabled=false, LinkedSource=null, Name=base, Source=content]; the counter advances by one; the base is entered if absent |
| WalkFacts.StringValueFile | writer.go:227-243 | any other non-model file gives a StringValue [Name=base, Value=content]; the counter advances by one; the base is entered if absent |
| WalkFacts.UnreadableFile | writer.go:139-142 | an unreadable file changes nothing |
| WalkFacts.EmptyModelFile | writer.go:182-191 | a model that does not load, or has no top-level Item, changes nothing |
| WalkFacts.ModelFile | writer.go:180-226 | a splice advances the counter by the number of referents at all depths; it attaches only the top-level Items, which carry the new ids; the Refs in them are the model's, rewritten through the model's old-to-new map, and a Ref whose value is no id of the model is kept; their first is the one paired with the base |
| WalkFacts.FileUncles | writer.go:245-249 | a file keeps every existing uncle and adds at most its own base, pointing at its node; the first one wins |
| WalkFacts.DirUncles | writer.go:113-136 | a directory never changes its parent's uncles |
| WalkFacts.MergedDir | writer.go:117-136 | a directory named after an earlier file's base creates no object and leaves the other children alone; that file's node keeps its tag and attributes and gains the directory's contents, with exactly the ids handed out for them |
| WalkFacts.NewBackpackDir | writer.go:119-135 | any other directory becomes a Backpack [Name] with referent RBX<next>, filled from RBX<next+1> with a fresh map |
| WalkFacts.WalkReferents | writer.go:272-279 | Walk fails exactly when Lstat does; otherwise the tree gains exactly RBX0 … RBX<n-1> |
| Writer.Envelope | writer.go:319-336 | a `roblox` element with `version` 4 whose element children are the two External markers, `null` then `nil` |
| Writer.Finish | writer.go:343-363 | the root's Items carry RBX0, RBX1, … in pre-order; every Ref is rewritten through the map of old ids to new ones; nothing else changes |
| Writer.MakeEnvelope | writer.go:319-336 | the code's insertions and SetAttr calls build the `roblox` envelope with its two External markers |
| Writer.EnvelopeAttrsMade | writer.go:323-326 | the four SetAttr calls give the four attributes in order |
| Writer.EnvelopeBare | writer.go:319-336 | the envelope carries no referent and no Ref |
| Writer.WriteRbxm | writer.go:338-341 | with the corrected Walk (an empty map in place of the nil one, see Findings), WriteRBXM fails exactly when the input cannot be found |
| Writer.RunWriteRbxm | writer.go:315-363 | the statements of WriteRBXM, with the corrected Walk, compute `WriteRbxm` |
| Writer.WriteRbxmAsWritten | writer.go:338-341 | with Walk as written, WriteRBXM also fails when the input is a file that walk pairs with its base name; otherwise it gives what `WriteRbxm` gives |
| Writer.FromNothing | writer.go:277 | ids RBX0 … RBX<n-1> added to a tree without ids give exactly n ids with no repeats |
| Writer.WalkedIds | writer.go:338 | the walked document holds RBX0 … up to the counter, each once |
| Writer.FinishReferents | writer.go:343-363 | the final pass gives RBX0, RBX1, … in pre-order; a Ref whose value was the k-th old id now holds RBX<k>; every other Ref is untouched; nothing else in the tree changes (`BareNode`) |
| Writer.RetargetedViews | writer.go:355-363 | hits and misses of the final map, Ref by Ref |
| Writer.WriteRbxmReferents | writer.go:315-363 | the finished document's ids are RBX0 … RBX<n-1> with no repeats; Refs are rewritten as above; nothing else in the walked document changes |
| Writer.WalkAsWritten | writer.go:272-279 | Walk as written fails when the input cannot be found or is a file that walk pairs with its base name; otherwise it gives what the corrected Walk gives |
| Writer.NilMapDiffers | writer.go:247-249 | Walk as written differs from Walk exactly when the input is a file that walk pairs with its base name |
| Writer.NilMapPanics | writer.go:272-279 | a readable `<b>.txt`, such as `a.txt`, as the input panics as written and succeeds with an empty map |
| Escape.EscapeByte | writer.go:375-396 | a byte is written unchanged exactly when it is printable ASCII other than `" ' & < >`, or is `\n` or `\r`; `"`, `'`, `&`, `<` and `>` become `&quot;`, `&apos;`, `&amp;`, `&lt;` and `&gt;`; any other byte becomes a reference of at least four bytes that opens with `&` and closes with `;` (EntityOfEscape reads it back as that byte); every output byte is safe |
| Escape.EscapeText | writer.go:372-401 | the loop writes the escaped text; if the writer fails, it stops at that byte and reports the error |
| Escape.EscapePrefix | writer.go:373-400 | one more loop step appends exactly the escape of the next byte to what the loop has already written |
| Escape.EscapeAppend | writer.go:374-400 | each byte is escaped independently |
| Escape.EscapeSafe | writer.go:371-402 | the output has no byte outside 32..126 except `\n` and `\r` |
| Escape.EscapeIdentity | writer.go:371-402 | escaping changes nothing exactly when every byte is written raw |
| Escape.Escape | writer.go:371-402 | escaping never shortens |
| Escape.EntityOfEscape | writer.go:375-396 | each escaped byte reads back as the entity of section 4.6 of XML 1.0 or the decimal reference of section 4.1 of XML 1.0 |
| Escape.UnescapeEscape | writer.go:371-402 | unescaping the output gives back the input |
| Escape.EscapeInjective | writer.go:371-402 | different texts escape differently |
| Plugin.IsInCharacterRange | rbxplugin.go:126-133 | true for tab, newline and carriage return and false for other controls; true on 0x20..0xDF77, 0xE000..0xFFFD and 0x10000..0x10FFFF; false elsewhere |
| Plugin.IsXmlChar | rbxplugin.go:126-133 | the Char production of section 2.2 of XML 1.0: only scalar values, minus controls other than tab, newline and carriage return, and minus 0xFFFE and 0xFFFF |
| Plugin.CharRangeVersusXml | rbxplugin.go:130 | the code and the production disagree exactly on 0xD800..0xDF77, which the code accepts |
| Plugin.SurrogateAccepted | rbxplugin.go:130 | 0xD800, a surrogate, is accepted as written |
| Plugin.Built | rbxplugin.go:34-43 | a non-empty cache is returned as is; otherwise a success is returned and cached, and a failure leaves the cache unchanged |
| Plugin.BuiltStable | rbxplugin.go:35-42 | once a build has cached results, every later Build returns them |
| Plugin.BuildCache.constructor | rbxplugin.go:32 | the cache starts empty |
| Plugin.BuildCache.Build | rbxplugin.go:34-43 | the result and the new cache are those of `Built` |
| Plugin.BuildCache.Deploy | rbxplugin.go:45-61 | a failed check returns its message and leaves the cache alone; otherwise it builds |
| Plugin.BuildCache.Create | rbxplugin.go:86-98 | the same with Create's checks |
| Plugin.DeployCheck | rbxplugin.go:46-56 | fails exactly when the username, the password or the asset id is missing, in that order, with the code's messages |
| Plugin.CreateCheck | rbxplugin.go:87-93 | fails exactly when the username or the password is missing, in that order |
| Plugin.ChecksAgree | rbxplugin.go:45-93 | whatever Deploy accepts Create accepts; they reject a missing credential with the same words; only Deploy needs an asset id |

## Left out

- Operating-system calls are inputs instead. This covers `ReadFile`, `Open`, `Readdir`, `Lstat` and `Stat`: a directory entry is an `Entry` value, whose reads and listings may fail. Symbolic links are not distinguished.
- The XML library is not modelled. `LoadFile` is an input: the parsed forest, or `None`. The model states its own reading of `AddChildAt`, `SelectNodes`, `SelectNodesRecursive` and `GetValue`. Getting these exactly right is outside the code shown.
- `Referents.ViewOf`: GetValue is the plain concatenation of the text children. No trimming is modelled.
- `SaveBytes` and the library's own serialiser are left out, together with `IndentPrefix` and `CollapseEmpty`. `WriteRbxm` stops at the finished document tree.
- `Referents.RetargetNode`: a Ref whose first child is an element is treated as a miss. The code sets that element's `Value`, which the serialiser does not write.
- XML namespaces in attribute names are not modelled. Attributes are plain names.
- Nodes are values, not shared pointers:
  - The code fills a Backpack after attaching it, and fills a reused node through the `uncles` map. The model fills the value, then attaches it or writes it back. The outcome is the same.
  - `uncles` holds a child position rather than a pointer.
- `Plugin.BuildCache.Build` takes WriteRBXM's outcome as a parameter, because the read of the input directory is I/O.
- Everything after the argument checks in Deploy and Create is left out: login, the cookie jar and the upload. So are `main`, the flag parsing and `assert`. These are network and command-line handling.
- `Plugin.Opts`: the asset id is an unbounded integer. The check only compares it with 0, so the 64-bit width does not matter.
- Writer.WriteRbxm: built on the corrected `Walker.Walk`, with an empty map for the nil one (see Findings). So for a readable file as the input it succeeds where the code panics. `Writer.WriteRbxmAsWritten` is the code as written.
- Writer.RunWriteRbxm: runs `RunWalk`, which is the corrected walk, for the same reason.
- Go strings are bytes; the model's strings are Dafny strings, which are sequences of Unicode scalar values. This covers file names, file contents and the ordering of names at writer.go:303. `Strings.Below` agrees with Go's byte-wise `<` only for valid UTF-8. File content that is not text (writer.go:233 stores it as a string) cannot be represented. The byte escaper in `Escape` works on bytes and is not connected to the document's strings.
- The tree has only element and text nodes. A loaded `.rbxm` may also hold comments, processing instructions and directives. `fixIndentation` removes only text nodes (writer.go:40), so it would keep those; the model cannot represent them.
- Escape.EscapeText: the destination either accepts a whole piece or fails having written none of it. A Go `io.Writer` may write part of a piece and then report an error (writer.go:397); that partial write is not modelled.
- Fs.SortByName: a listing may hold two entries with the same name, which no real directory does. For such a listing the model commits to the order its insertion sort gives, while `sort.Sort` is not stable and may order them either way. `Fs.SortedUnique` shows the order is forced when the names are distinct.

## Findings

| source | as written | input that shows it | evidently intended | confidence | as-written member | corrected member |
|---|---|---|---|---|---|---|
| rbxplugin.go:130 | the first range ends at 0xDF77, so surrogates 0xD800..0xDF77 are accepted | the code point 0xD800 | the Char production of section 2.2 of XML 1.0, whose range ends at 0xD7FF | high, not executed | Plugin.IsInCharacterRange, Plugin.SurrogateAccepted | Plugin.IsXmlChar, Plugin.CharRangeVersusXml |
| writer.go:278 | `new(nodeMap)` is a pointer to a nil map, so the store at writer.go:248 panics when the input is itself a file; `main` only passes directories (rbxplugin.go:146-150), so only a direct call of `Walk` or `WriteRBXM` reaches it | a readable file `a.txt` given to `Walk` as the input | an empty map, as `make(nodeMap)` gives at writer.go:262 | medium, not executed | Writer.WalkAsWritten, Writer.NilMapPanics, Writer.WriteRbxmAsWritten | Walker.Walk, WalkFacts.WalkReferents, Writer.WriteRbxm, Writer.RunWriteRbxm |
